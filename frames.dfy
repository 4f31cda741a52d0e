/**
 * One entry of a stack summary (`traceback.FrameSummary`) and the text block
 * `format` writes for it.
 */
module Frames {
  import opened Wrappers
  import opened Strings
  import opened Paths

  /** A captured local variable: its name and the `repr` of its value. */
  type Local = (string, string)

  /**
   * A frame: where it is (file, line number, function name, each possibly
   * `None`), the source text of that line ("" when none was found), and the
   * captured locals in the dictionary's order (`None` unless they were captured).
   */
  datatype Frame = Frame(
    filename: Option<Path>,
    lineno: Option<int>,
    name: Option<string>,
    line: string,
    locals: Option<seq<Local>>)

  /** The triple `format` compares to detect repeated frames. */
  function Key(f: Frame): (Option<Path>, Option<int>, Option<string>)
  {
    (f.filename, f.lineno, f.name)
  }

  /** None of the three compared fields is `None`. */
  predicate Complete(f: Frame)
  {
    f.filename.Some? && f.lineno.Some? && f.name.Some?
  }

  // ---------------------------------------------------------------------------
  // `sorted(frame.locals.items())`: Python orders the (name, value) tuples
  // by name, then by value.

  predicate LocalLe(a: Local, b: Local)
  {
    Less(a.0, b.0) || (a.0 == b.0 && (a.1 == b.1 || Less(a.1, b.1)))
  }

  lemma LocalLeTotal(a: Local, b: Local)
    ensures LocalLe(a, b) || LocalLe(b, a)
  {
    LessTrichotomy(a.0, b.0);
    LessTrichotomy(a.1, b.1);
  }

  lemma LocalLeTransitive(a: Local, b: Local, c: Local)
    requires LocalLe(a, b) && LocalLe(b, c)
    ensures LocalLe(a, c)
  {
    if Less(a.0, b.0) && Less(b.0, c.0) {
      LessTransitive(a.0, b.0, c.0);
    } else if a.0 == b.0 && b.0 == c.0 && Less(a.1, b.1) && Less(b.1, c.1) {
      LessTransitive(a.1, b.1, c.1);
    }
  }

  lemma LocalLeAntisymmetric(a: Local, b: Local)
    requires LocalLe(a, b) && LocalLe(b, a)
    ensures a == b
  {
    LessAsymmetric(a.0, b.0);
    LessIrreflexive(a.0);
    LessAsymmetric(a.1, b.1);
  }

  predicate SortedLocals(s: seq<Local>)
  {
    forall i, j :: 0 <= i < j < |s| ==> LocalLe(s[i], s[j])
  }

  function Insert(x: Local, s: seq<Local>): (r: seq<Local>)
    requires SortedLocals(s)
    ensures SortedLocals(r)
    ensures multiset(r) == multiset(s) + multiset{x}
  {
    if s == [] then [x]
    else if LocalLe(x, s[0]) then
      BelowHead(x, s);
      ConsSorted(x, s);
      [x] + s
    else
      var t := Insert(x, s[1..]);
      LocalLeTotal(x, s[0]);
      TailOf(s);
      BelowAll(s[0], s[1..], x, t);
      ConsSorted(s[0], t);
      [s[0]] + t
  }

  /** Below the head of a sorted sequence is below all of it. */
  lemma BelowHead(x: Local, s: seq<Local>)
    requires SortedLocals(s) && s != [] && LocalLe(x, s[0])
    ensures forall j :: 0 <= j < |s| ==> LocalLe(x, s[j])
  {
    forall j | 0 < j < |s|
      ensures LocalLe(x, s[j])
    {
      LocalLeTransitive(x, s[0], s[j]);
    }
  }

  /** The head of a sorted sequence is below its tail, and the two make it up. */
  lemma TailOf(s: seq<Local>)
    requires SortedLocals(s) && s != []
    ensures forall j :: 0 <= j < |s[1..]| ==> LocalLe(s[0], s[1..][j])
    ensures multiset(s) == multiset{s[0]} + multiset(s[1..])
  {
    assert s == [s[0]] + s[1..];
  }

  /** What is below `x` and below all of `rest` is below all of any arrangement of both. */
  lemma BelowAll(h: Local, rest: seq<Local>, x: Local, t: seq<Local>)
    requires LocalLe(h, x)
    requires forall j :: 0 <= j < |rest| ==> LocalLe(h, rest[j])
    requires multiset(t) == multiset(rest) + multiset{x}
    ensures forall j :: 0 <= j < |t| ==> LocalLe(h, t[j])
  {
    forall j | 0 <= j < |t|
      ensures LocalLe(h, t[j])
    {
      assert t[j] in multiset(t);
      if t[j] != x {
        assert t[j] in multiset(rest);
        var m :| 0 <= m < |rest| && rest[m] == t[j];
      }
    }
  }

  /** A sorted sequence stays sorted under a new head below all of it. */
  lemma ConsSorted(h: Local, t: seq<Local>)
    requires SortedLocals(t)
    requires forall j :: 0 <= j < |t| ==> LocalLe(h, t[j])
    ensures SortedLocals([h] + t)
  {
    forall i, j | 0 <= i < j < |[h] + t|
      ensures LocalLe(([h] + t)[i], ([h] + t)[j])
    {
      if i == 0 {
        assert ([h] + t)[j] == t[j - 1];
      } else {
        assert ([h] + t)[i] == t[i - 1] && ([h] + t)[j] == t[j - 1];
      }
    }
  }

  /** The locals in the order `format` prints them. */
  function SortLocals(s: seq<Local>): (r: seq<Local>)
    ensures SortedLocals(r)
    ensures multiset(r) == multiset(s)
  {
    if s == [] then []
    else
      assert s == [s[0]] + s[1..];
      Insert(s[0], SortLocals(s[1..]))
  }

  /** The head of a sorted sequence is below everything in it. */
  lemma HeadIsLeast(s: seq<Local>, x: Local)
    requires SortedLocals(s) && x in multiset(s)
    ensures LocalLe(s[0], x)
  {
    var i :| 0 <= i < |s| && s[i] == x;
    if i == 0 {
      LessIrreflexive(x.0);
    }
  }

  /**
   * There is only one ordering of a collection of locals that is sorted, so
   * `SortLocals` yields exactly what Python's `sorted` yields.
   */
  lemma {:induction false} SortedUnique(a: seq<Local>, b: seq<Local>)
    requires SortedLocals(a) && SortedLocals(b)
    requires multiset(a) == multiset(b)
    ensures a == b
  {
    if a != [] {
      assert |b| == |multiset(b)| == |a| > 0;
      HeadIsLeast(b, a[0]);
      HeadIsLeast(a, b[0]);
      LocalLeAntisymmetric(a[0], b[0]);
      assert a == [a[0]] + a[1..] && b == [b[0]] + b[1..];
      assert multiset(a[1..]) == multiset(a) - multiset{a[0]};
      assert multiset(b[1..]) == multiset(b) - multiset{b[0]};
      SortedUnique(a[1..], b[1..]);
    }
  }

  // ---------------------------------------------------------------------------
  // The text of one frame block.

  /** `'{}'.format(x)` of an optional integer. */
  function LinenoText(n: Option<int>): string
  {
    match n
    case None => "None"
    case Some(k) => IntToString(k)
  }

  /** `'{}'.format(x)` of an optional string. */
  function NameText(n: Option<string>): string
  {
    match n
    case None => "None"
    case Some(s) => s
  }

  /** The line that opens a frame block. */
  function Header(f: Frame, cwd: Path): string
    requires f.filename.Some?
  {
    "  File \"" + Display(f.filename.value, cwd) + "\", line " + LinenoText(f.lineno)
    + ", in " + NameText(f.name) + "\n"
  }

  /** The indented source line, when there is one. */
  function SourceRows(f: Frame): seq<string>
  {
    if f.line != "" then ["    " + Strip(f.line) + "\n"] else []
  }

  /** One `    name = value` line per local, in the order given. */
  function LocalRows(ls: seq<Local>): (rows: seq<string>)
    ensures |rows| == |ls|
    ensures forall k :: 0 <= k < |ls| ==> rows[k] == "    " + ls[k].0 + " = " + ls[k].1 + "\n"
  {
    if ls == [] then [] else LocalRows(ls[..|ls| - 1]) + ["    " + ls[|ls| - 1].0 + " = " + ls[|ls| - 1].1 + "\n"]
  }

  /** The locals' lines as `format` writes them: sorted, and none when there are no locals. */
  function LocalsRows(f: Frame): seq<string>
  {
    if f.locals.Some? && f.locals.value != [] then LocalRows(SortLocals(f.locals.value)) else []
  }

  /** The parts (`row`) of a frame block: header, source line, locals. */
  function BlockRows(f: Frame, cwd: Path): seq<string>
    requires f.filename.Some?
  {
    [Header(f, cwd)] + SourceRows(f) + LocalsRows(f)
  }

  /** `''.join(parts)`. */
  function Concat(parts: seq<string>): string
  {
    if parts == [] then "" else Concat(parts[..|parts| - 1]) + parts[|parts| - 1]
  }

  /** The text `format` appends for a frame it shows. */
  function Block(f: Frame, cwd: Path): string
    requires f.filename.Some?
  {
    Concat(BlockRows(f, cwd))
  }

  /** The locals' lines are the sorted locals, one line each. */
  lemma LocalsRowsShape(f: Frame)
    ensures var ls := if f.locals.Some? then SortLocals(f.locals.value) else [];
            LocalsRows(f) == LocalRows(ls)
  {
    if f.locals.Some? && f.locals.value == [] {
      assert SortLocals(f.locals.value) == [];
    }
  }

  /**
   * The shape of a block: the header, then the stripped source line exactly
   * when the line is non-empty, then one line per local, the locals given in
   * ascending order and each exactly once.
   */
  lemma BlockShape(f: Frame, cwd: Path, rows: seq<string>, ls: seq<Local>)
    requires f.filename.Some?
    requires rows == BlockRows(f, cwd)
    requires ls == if f.locals.Some? then SortLocals(f.locals.value) else []
    ensures |rows| == 1 + |SourceRows(f)| + |ls|
    ensures rows[0] == Header(f, cwd)
    ensures f.line != "" <==> |SourceRows(f)| == 1
    ensures f.line != "" ==> rows[1] == "    " + Strip(f.line) + "\n"
    ensures SortedLocals(ls)
    ensures f.locals.Some? ==> multiset(ls) == multiset(f.locals.value)
    ensures rows[1 + |SourceRows(f)|..] == LocalRows(ls)
  {
    LocalsRowsShape(f);
    PartsAt(Header(f, cwd), SourceRows(f), LocalsRows(f));
  }

  /** Where the parts of `[head] + middle + tail` sit. */
  lemma PartsAt<T>(head: T, middle: seq<T>, tail: seq<T>)
    ensures |[head] + middle + tail| == 1 + |middle| + |tail|
    ensures ([head] + middle + tail)[0] == head
    ensures middle != [] ==> ([head] + middle + tail)[1] == middle[0]
    ensures ([head] + middle + tail)[1 + |middle|..] == tail
  {
    assert ([head] + middle + tail)[1 + |middle|..] == tail;
  }
}
