/**
 * `_RelativeTracebackException`: the record of an exception and of the
 * exceptions chained to it through `__cause__` and `__context__`, built by a
 * recursive walk that shares one set of already visited exceptions, so that
 * a cycle in the chain ends the walk and no exception is described twice.
 *
 * The exceptions alive in the interpreter are a heap: a map from an
 * exception's identity (`id(...)`) to the attributes the walk reads.
 */
module TracebackException {
  import opened Wrappers
  import opened Strings
  import opened Frames

  type Id = nat

  /** An exception class: its name and whether it is a subclass of `SyntaxError`. */
  datatype ExcType = ExcType(name: string, isSyntaxError: bool)

  /** The attributes a `SyntaxError` carries. */
  datatype SyntaxFields = SyntaxFields(
    filename: Option<string>,
    lineno: Option<int>,
    text: Option<string>,
    offset: Option<int>,
    msg: Option<string>)

  /**
   * An exception object: its class, `_some_str` of it, its `__cause__` and
   * `__context__` (identities, or `None`), `__suppress_context__`, the
   * frames of its `__traceback__`, and its `SyntaxError` attributes when it
   * has them.
   */
  datatype Exc = Exc(
    excType: ExcType,
    text: string,
    cause: Option<Id>,
    context: Option<Id>,
    suppressContext: bool,
    trace: seq<Frame>,
    syntax: Option<SyntaxFields>)

  type Heap = map<Id, Exc>

  /** Every link leads to an exception of the heap, and every instance of a
      `SyntaxError` subclass has the `SyntaxError` attributes. */
  predicate Valid(g: Heap)
  {
    forall x {:trigger g[x]} :: x in g ==>
      (g[x].cause.Some? ==> g[x].cause.value in g)
      && (g[x].context.Some? ==> g[x].context.value in g)
      && (g[x].excType.isSyntaxError ==> g[x].syntax.Some?)
  }

  /** The arguments the record's stack is extracted with. */
  datatype Capture = Capture(trace: seq<Frame>, limit: Option<int>, lookupLines: bool, captureLocals: bool)

  /** The `SyntaxError` attributes as the record keeps them, the line number as text. */
  datatype SyntaxRecord = SyntaxRecord(
    filename: Option<string>,
    lineno: Option<string>,
    text: Option<string>,
    offset: Option<int>,
    msg: Option<string>)

  /**
   * A record: which exception it describes (`value`, `None` when there is
   * none), `exc_type`, `_str`, the records of the cause and of the context,
   * `__suppress_context__`, how its `stack` is extracted (which also says
   * whether `_load_lines` runs), and the `SyntaxError` attributes.
   */
  datatype Record = Record(
    value: Option<Id>,
    excType: Option<ExcType>,
    text: string,
    cause: Option<Record>,
    context: Option<Record>,
    suppressContext: bool,
    stack: Capture,
    syntax: Option<SyntaxRecord>)

  /** The outcome of the constructor: the record, or the `AttributeError`
      raised when a `SyntaxError` class comes with a value lacking its attributes. */
  datatype Made = Made(rec: Record) | AttributeError

  /** `str(lno) if lno is not None else None`, the other attributes as they are. */
  function SyntaxRecordOf(sx: SyntaxFields): (r: SyntaxRecord)
    ensures r.filename == sx.filename && r.text == sx.text && r.offset == sx.offset && r.msg == sx.msg
    ensures r.lineno.Some? <==> sx.lineno.Some?
    ensures sx.lineno.Some? ==> |r.lineno.value| > 0 && (r.lineno.value[0] == '-' <==> sx.lineno.value < 0)
  {
    var lineno := if sx.lineno.Some? then Some(IntToString(sx.lineno.value)) else None;
    SyntaxRecord(sx.filename, lineno, sx.text, sx.offset, sx.msg)
  }

  /** The line number kept as text reads back as the line number. */
  lemma SyntaxLinenoRoundTrip(sx: SyntaxFields)
    requires sx.lineno.Some?
    ensures var t := SyntaxRecordOf(sx).lineno.value;
            (t[0] == '-' ==> IsDigits(t[1..])) && (t[0] != '-' ==> IsDigits(t)) && ParseInt(t) == sx.lineno.value
  {
    IntToStringRoundTrip(sx.lineno.value);
  }

  // ---------------------------------------------------------------------------
  // The exceptions a record describes.

  /** The identities a record describes. */
  function Ids(r: Record): set<Id>
  {
    (if r.value.Some? then {r.value.value} else {})
    + (if r.cause.Some? then Ids(r.cause.value) else {})
    + (if r.context.Some? then Ids(r.context.value) else {})
  }

  /** The same identities in order: the record's own, then its cause's, then its context's. */
  function IdList(r: Record): (l: seq<Id>)
    ensures forall x :: x in l <==> x in Ids(r)
  {
    (if r.value.Some? then [r.value.value] else [])
    + LinkIds(r)
  }

  /** The identities described by a record's cause, then by its context. */
  function LinkIds(r: Record): (l: seq<Id>)
    ensures forall x :: x in l <==>
              (r.cause.Some? && x in Ids(r.cause.value)) || (r.context.Some? && x in Ids(r.context.value))
    decreases r, 0
  {
    (if r.cause.Some? then IdList(r.cause.value) else [])
    + (if r.context.Some? then IdList(r.context.value) else [])
  }

  predicate NoDup(s: seq<Id>)
  {
    forall i, j :: 0 <= i < j < |s| ==> s[i] != s[j]
  }

  lemma Assoc<T>(a: seq<T>, b: seq<T>, c: seq<T>)
    ensures a + b + c == a + (b + c)
  {
  }

  /** Joining two sequences without repeats and with nothing in common gives none. */
  lemma NoDupAppend(a: seq<Id>, b: seq<Id>)
    requires NoDup(a) && NoDup(b)
    requires forall x :: x in a ==> x !in b
    ensures NoDup(a + b)
  {
    forall i, j | 0 <= i < j < |a + b|
      ensures (a + b)[i] != (a + b)[j]
    {
      if j < |a| {
        assert (a + b)[i] == a[i] && (a + b)[j] == a[j];
      } else if i < |a| {
        assert (a + b)[i] == a[i] && (a + b)[j] == b[j - |a|];
        assert a[i] in a && b[j - |a|] in b;
      } else {
        assert (a + b)[i] == b[i - |a|] && (a + b)[j] == b[j - |a|];
      }
    }
  }

  // ---------------------------------------------------------------------------
  // What a record says about the exception it describes.

  /**
   * `r` is what the constructor makes of `exc_type`, `exc_value` and the
   * traceback's frames, apart from the cause and the context: type, text,
   * suppression flag (false without a value), stack arguments, and the
   * `SyntaxError` attributes exactly when the class is a `SyntaxError`.
   */
  predicate Fields(g: Heap, r: Record, excType: Option<ExcType>, value: Option<Id>, trace: seq<Frame>,
                   limit: Option<int>, lookupLines: bool, captureLocals: bool)
    requires value.Some? ==> value.value in g
  {
    && r.value == value
    && r.excType == excType
    && r.text == (if value.Some? then g[value.value].text else "None")
    && r.suppressContext == (value.Some? && g[value.value].suppressContext)
    && r.stack == Capture(trace, limit, lookupLines, captureLocals)
    && r.syntax == (if excType.Some? && excType.value.isSyntaxError && value.Some? && g[value.value].syntax.Some?
                    then Some(SyntaxRecordOf(g[value.value].syntax.value)) else None)
  }

  /**
   * Every record linked below `r` describes the exception its parent's
   * `__cause__` or `__context__` names, with that exception's own class and
   * traceback, the same `limit` and `capture_locals`, and no line lookup.
   */
  predicate Nested(g: Heap, r: Record, limit: Option<int>, captureLocals: bool)
    decreases r, 0
  {
    && (r.cause.Some? ==>
          r.value.Some? && r.value.value in g && g[r.value.value].cause.Some?
          && Link(g, r.cause.value, g[r.value.value].cause.value, limit, captureLocals))
    && (r.context.Some? ==>
          r.value.Some? && r.value.value in g && g[r.value.value].context.Some?
          && Link(g, r.context.value, g[r.value.value].context.value, limit, captureLocals))
  }

  /** `c` is the nested record of exception `x`. */
  predicate Link(g: Heap, c: Record, x: Id, limit: Option<int>, captureLocals: bool)
    decreases c, 1
  {
    x in g
    && Fields(g, c, Some(g[x].excType), Some(x), g[x].trace, limit, false, captureLocals)
    && Nested(g, c, limit, captureLocals)
  }

  /** The cause and context of an exception, as a set. */
  function LinksOf(e: Exc): (s: set<Id>)
    ensures e.cause.Some? ==> e.cause.value in s
    ensures e.context.Some? ==> e.context.value in s
    ensures forall x :: x in s ==> Some(x) == e.cause || Some(x) == e.context
  {
    (if e.cause.Some? then {e.cause.value} else {}) + (if e.context.Some? then {e.context.value} else {})
  }

  // ---------------------------------------------------------------------------
  // The walk.

  lemma Shrinks(keys: set<Id>, seen: set<Id>, v: Id)
    requires v in keys && v !in seen
    ensures |keys - (seen + {v})| < |keys - seen|
  {
    assert keys - seen == (keys - (seen + {v})) + {v};
  }

  lemma {:induction false} SubsetSmaller(a: set<Id>, b: set<Id>)
    requires a <= b
    ensures |a| <= |b|
    decreases |b|
  {
    if a != {} {
      var x :| x in a;
      SubsetSmaller(a - {x}, b - {x});
    }
  }

  /**
   * `_RelativeTracebackException(exc_type, exc_value, exc_traceback, limit=…,
   * lookup_lines=…, capture_locals=…, _seen=seen)`: `value` is added to the
   * shared set; the cause is followed unless it is `None` or already in the
   * set, then the context likewise (the set now holding everything the
   * cause's records took in). The set after the call is `seen'`.
   */
  method Build(g: Heap, excType: Option<ExcType>, value: Option<Id>, trace: seq<Frame>,
               limit: Option<int>, lookupLines: bool, captureLocals: bool, seen: set<Id>)
    returns (made: Made, seen': set<Id>)
    requires Valid(g)
    requires value.Some? ==> value.value in g
    ensures made.AttributeError? <==>
              excType.Some? && excType.value.isSyntaxError && (value.None? || g[value.value].syntax.None?)
    ensures seen <= seen'
    ensures made.Made? ==> Fields(g, made.rec, excType, value, trace, limit, lookupLines, captureLocals)
    ensures made.Made? ==> Nested(g, made.rec, limit, captureLocals)
    ensures made.Made? ==>
              (made.rec.cause.Some? <==>
                 value.Some? && g[value.value].cause.Some? && g[value.value].cause.value !in seen + {value.value})
    ensures made.Made? ==>
              (made.rec.context.Some? <==>
                 value.Some? && g[value.value].context.Some?
                 && g[value.value].context.value !in seen + {value.value}
                    + (if made.rec.cause.Some? then Ids(made.rec.cause.value) else {}))
    ensures made.Made? ==> seen' == seen + Ids(made.rec)
    ensures made.Made? ==> NoDup(IdList(made.rec)) && forall x :: x in LinkIds(made.rec) ==> x !in seen
    ensures made.Made? ==> forall x :: x in Ids(made.rec) ==> x in g && LinksOf(g[x]) <= seen'
    decreases |g.Keys - seen|, if value.Some? && value.value !in seen then 0 else 2
  {
    seen' := seen;
    if value.Some? {
      seen' := seen' + {value.value};
      if value.value in seen {
        assert seen' == seen;
      } else {
        Shrinks(g.Keys, seen, value.value);
      }
    }
    ghost var entry := seen';
    var cause: Option<Record>;
    cause, seen' := Follow(g, CauseOf(g, value), limit, captureLocals, seen');
    ghost var afterCause := seen';
    SubsetSmaller(g.Keys - afterCause, g.Keys - entry);
    var context: Option<Record>;
    context, seen' := Follow(g, ContextOf(g, value), limit, captureLocals, seen');
    made := Attributes(g, excType, value, trace, limit, lookupLines, captureLocals, cause, context);
    if made.Made? {
      Assemble(g, made.rec, value, cause, context, limit, captureLocals, seen, entry, afterCause, seen');
    }
  }

  /**
   * The rest of the constructor, once the cause and the context are built:
   * `__suppress_context__` (false without a value), the stack's arguments,
   * `exc_type`, `_str`, and the `SyntaxError` attributes when `exc_type` is
   * a `SyntaxError` class, which raises `AttributeError` when the value
   * lacks them.
   */
  method Attributes(g: Heap, excType: Option<ExcType>, value: Option<Id>, trace: seq<Frame>,
                    limit: Option<int>, lookupLines: bool, captureLocals: bool,
                    cause: Option<Record>, context: Option<Record>)
    returns (made: Made)
    requires value.Some? ==> value.value in g
    ensures made.AttributeError? <==>
              excType.Some? && excType.value.isSyntaxError && (value.None? || g[value.value].syntax.None?)
    ensures made.Made? ==>
              Fields(g, made.rec, excType, value, trace, limit, lookupLines, captureLocals)
              && made.rec.cause == cause && made.rec.context == context
  {
    var suppress := if value.Some? then g[value.value].suppressContext else false;
    var stack := Capture(trace, limit, lookupLines, captureLocals);
    var text := if value.Some? then g[value.value].text else "None";
    var syntax: Option<SyntaxRecord> := None;
    if excType.Some? && excType.value.isSyntaxError {
      if value.None? || g[value.value].syntax.None? {
        return AttributeError;
      }
      syntax := Some(SyntaxRecordOf(g[value.value].syntax.value));
    }
    made := Made(Record(value, excType, text, cause, context, suppress, stack, syntax));
  }

  /**
   * The record of a `__cause__` or `__context__`: none when the link is
   * `None` or leads to an exception already in the set; otherwise built from
   * that exception, its class and its traceback, with the same `limit` and
   * `capture_locals`, no line lookup, and the same shared set.
   */
  method Follow(g: Heap, link: Option<Id>, limit: Option<int>, captureLocals: bool, seen: set<Id>)
    returns (rec: Option<Record>, seen': set<Id>)
    requires Valid(g)
    requires link.Some? ==> link.value in g
    ensures Walked(g, rec, link, limit, captureLocals, seen, seen')
    decreases |g.Keys - seen|, 1
  {
    if link.Some? && link.value !in seen {
      var c := link.value;
      var m;
      m, seen' := Build(g, Some(g[c].excType), Some(c), g[c].trace, limit, false, captureLocals, seen);
      rec := Some(m.rec);
    } else {
      rec, seen' := None, seen;
    }
  }

  /** `exc_value.__cause__`, `None` without a value. */
  function CauseOf(g: Heap, value: Option<Id>): Option<Id>
    requires value.Some? ==> value.value in g
  {
    if value.Some? then g[value.value].cause else None
  }

  /** `exc_value.__context__`, `None` without a value. */
  function ContextOf(g: Heap, value: Option<Id>): Option<Id>
    requires value.Some? ==> value.value in g
  {
    if value.Some? then g[value.value].context else None
  }

  /**
   * What following `link` with the shared set going from `before` to
   * `after` gives: a record exactly when the link leads to an exception not
   * yet in the set; that record is the nested record of the exception; the
   * set takes in just the exceptions the record describes, each described
   * once and none of them in the set before; and each of them has its own
   * links in the set afterwards.
   */
  predicate Walked(g: Heap, rec: Option<Record>, link: Option<Id>, limit: Option<int>, captureLocals: bool,
                   before: set<Id>, after: set<Id>)
  {
    && (rec.Some? <==> link.Some? && link.value !in before)
    && (rec.None? ==> after == before)
    && (rec.Some? ==>
          Link(g, rec.value, link.value, limit, captureLocals)
          && after == before + Ids(rec.value)
          && NoDup(IdList(rec.value))
          && (forall x :: x in IdList(rec.value) ==> x !in before)
          && forall x :: x in Ids(rec.value) ==> x in g && LinksOf(g[x]) <= after)
  }

  /** The bookkeeping of one call: from what following its cause and then its
      context gives, to what the call promises about its record and the set. */
  lemma Assemble(g: Heap, r: Record, value: Option<Id>, cause: Option<Record>, context: Option<Record>,
                 limit: Option<int>, captureLocals: bool,
                 seen: set<Id>, entry: set<Id>, afterCause: set<Id>, final: set<Id>)
    requires r.value == value && r.cause == cause && r.context == context
    requires value.Some? ==> value.value in g
    requires entry == seen + (if value.Some? then {value.value} else {})
    requires Walked(g, cause, CauseOf(g, value), limit, captureLocals, entry, afterCause)
    requires Walked(g, context, ContextOf(g, value), limit, captureLocals, afterCause, final)
    ensures Nested(g, r, limit, captureLocals)
    ensures r.cause.Some? <==>
              r.value.Some? && g[r.value.value].cause.Some? && g[r.value.value].cause.value !in seen + {r.value.value}
    ensures r.context.Some? <==>
              r.value.Some? && g[r.value.value].context.Some?
              && g[r.value.value].context.value !in seen + {r.value.value}
                 + (if r.cause.Some? then Ids(r.cause.value) else {})
    ensures final == seen + Ids(r)
    ensures NoDup(IdList(r)) && forall x :: x in LinkIds(r) ==> x !in seen
    ensures forall x :: x in Ids(r) ==> x in g && LinksOf(g[x]) <= final
  {
    AssembleIds(r, seen, entry, afterCause, final);
  }

  /** The identities part of `Assemble`: the set grows by the record's
      identities, and the record describes none twice. */
  lemma AssembleIds(r: Record, seen: set<Id>, entry: set<Id>, afterCause: set<Id>, final: set<Id>)
    requires entry == seen + (if r.value.Some? then {r.value.value} else {})
    requires r.cause.None? ==> afterCause == entry
    requires r.cause.Some? ==>
               r.cause.value.value.Some?
               && afterCause == entry + Ids(r.cause.value)
               && NoDup(IdList(r.cause.value))
               && (forall x :: x in IdList(r.cause.value) ==> x !in entry)
    requires r.context.None? ==> final == afterCause
    requires r.context.Some? ==>
               r.context.value.value.Some?
               && final == afterCause + Ids(r.context.value)
               && NoDup(IdList(r.context.value))
               && (forall x :: x in IdList(r.context.value) ==> x !in afterCause)
    ensures final == seen + Ids(r)
    ensures NoDup(IdList(r)) && forall x :: x in LinkIds(r) ==> x !in seen
  {
    var a: seq<Id> := if r.cause.Some? then IdList(r.cause.value) else [];
    var b: seq<Id> := if r.context.Some? then IdList(r.context.value) else [];
    var own: seq<Id> := if r.value.Some? then [r.value.value] else [];
    assert forall x :: x in a ==> x !in b;
    NoDupAppend(a, b);
    assert forall x :: x in own ==> x !in a + b;
    NoDupAppend(own, a + b);
    Assoc(own, a, b);
  }
  // ---------------------------------------------------------------------------
  // The whole chain.

  /** A chain of exceptions, each the cause or the context of the one before. */
  ghost predicate IsPath(g: Heap, p: seq<Id>)
  {
    && |p| > 0
    && (forall k :: 0 <= k < |p| ==> p[k] in g)
    && forall k :: 0 <= k < |p| - 1 ==> p[k] in g && p[k + 1] in LinksOf(g[p[k]])
  }

  /** `b` is `a`, or is reached from `a` by following `__cause__` and `__context__` links. */
  ghost predicate Reaches(g: Heap, a: Id, b: Id)
  {
    exists p :: IsPath(g, p) && p[0] == a && p[|p| - 1] == b
  }

  /** A set that holds the start of a chain and the links of all it holds holds the whole chain. */
  lemma {:induction false} ClosedHoldsPath(g: Heap, s: set<Id>, p: seq<Id>, n: nat)
    requires IsPath(g, p) && p[0] in s && n < |p|
    requires forall x :: x in s ==> x in g && LinksOf(g[x]) <= s
    ensures p[n] in s
  {
    if n > 0 {
      ClosedHoldsPath(g, s, p, n - 1);
    }
  }

  /** A link followed by a chain is a chain. */
  lemma Extend(g: Heap, v: Id, w: Id, x: Id)
    requires v in g && w in LinksOf(g[v]) && Reaches(g, w, x)
    ensures Reaches(g, v, x)
  {
    var p :| IsPath(g, p) && p[0] == w && p[|p| - 1] == x;
    var q := [v] + p;
    assert forall k :: 0 < k < |q| ==> q[k] == p[k - 1];
    assert IsPath(g, q) && q[0] == v && q[|q| - 1] == x;
  }

  /** Every exception a record describes is reached from the one at its root. */
  lemma {:induction false} DescribedAreReached(g: Heap, r: Record, limit: Option<int>, captureLocals: bool)
    requires r.value.Some? && r.value.value in g && Nested(g, r, limit, captureLocals)
    ensures forall x :: x in Ids(r) ==> Reaches(g, r.value.value, x)
  {
    var v := r.value.value;
    assert IsPath(g, [v]) && [v][0] == v;
    if r.cause.Some? {
      var c := r.cause.value;
      DescribedAreReached(g, c, limit, captureLocals);
      forall x | x in Ids(c)
        ensures Reaches(g, v, x)
      {
        Extend(g, v, c.value.value, x);
      }
    }
    if r.context.Some? {
      var c := r.context.value;
      DescribedAreReached(g, c, limit, captureLocals);
      forall x | x in Ids(c)
        ensures Reaches(g, v, x)
      {
        Extend(g, v, c.value.value, x);
      }
    }
  }

  /**
   * The constructor as called from outside, with `_seen` left as `None`:
   * the record describes exactly the exceptions reached from `exc_value`
   * through `__cause__` and `__context__` links, each of them once.
   */
  method Construct(g: Heap, excType: Option<ExcType>, value: Option<Id>, trace: seq<Frame>,
                   limit: Option<int>, lookupLines: bool, captureLocals: bool)
    returns (made: Made)
    requires Valid(g)
    requires value.Some? ==> value.value in g
    ensures made.AttributeError? <==>
              excType.Some? && excType.value.isSyntaxError && (value.None? || g[value.value].syntax.None?)
    ensures made.Made? ==>
              Fields(g, made.rec, excType, value, trace, limit, lookupLines, captureLocals)
              && Nested(g, made.rec, limit, captureLocals)
    ensures made.Made? ==> NoDup(IdList(made.rec))
    ensures made.Made? ==> forall x :: x in Ids(made.rec) <==> value.Some? && Reaches(g, value.value, x)
  {
    var seen;
    made, seen := Build(g, excType, value, trace, limit, lookupLines, captureLocals, {});
    if made.Made? && value.Some? {
      var v := value.value;
      DescribedAreReached(g, made.rec, limit, captureLocals);
      forall x | Reaches(g, v, x)
        ensures x in Ids(made.rec)
      {
        var p :| IsPath(g, p) && p[0] == v && p[|p| - 1] == x;
        ClosedHoldsPath(g, seen, p, |p| - 1);
      }
    }
  }
}
