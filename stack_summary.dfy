/**
 * `_RelativeStackSummary`: a list of frames, built from a mix of frame
 * summaries and `(filename, lineno, name, line)` tuples, and rendered frame
 * by frame with repeated frames collapsed and file names made relative to
 * the working directory.
 */
module StackSummary {
  import opened Wrappers
  import opened Strings
  import opened Paths
  import opened Frames
  import opened Runs

  /** An element of the list `from_list` is given. */
  datatype Entry =
    | FrameSummary(frame: Frame)
    | Tuple(filename: Option<Path>, lineno: Option<int>, name: Option<string>, line: string)

  /** The outcome of `format`: its lines, or the `TypeError` that
      `Path(None)` raises for the frame at `index`. */
  datatype Outcome = Rendered(lines: seq<string>) | TypeError(index: nat)

  /** Frame `i` repeats frame `i - 1`: same file, line number and name, none of them `None`. */
  predicate RepeatsPrevious(frames: seq<Frame>, i: nat)
    requires i < |frames|
  {
    0 < i && Complete(frames[i]) && Key(frames[i]) == Key(frames[i - 1])
  }

  /** Which frames repeat the one before. */
  function Repeats(frames: seq<Frame>): (rep: seq<bool>)
    ensures |rep| == |frames|
    ensures forall i :: 0 <= i < |frames| ==> (rep[i] <==> RepeatsPrevious(frames, i))
  {
    seq(|frames|, i requires 0 <= i < |frames| => RepeatsPrevious(frames, i))
  }

  /** The plan `format` follows for these frames. */
  function FramePlan(frames: seq<Frame>, cutoff: nat): seq<Item>
  {
    Plan(Repeats(frames), cutoff)
  }

  /**
   * A frame with `None` as its file name, line number or name starts a run
   * of its own, which the next frame does not continue: so it is always
   * shown (the cutoff being positive).
   */
  lemma NoneStartsRun(frames: seq<Frame>, i: nat, cutoff: nat)
    requires i < |frames| && !Complete(frames[i]) && 0 < cutoff
    ensures RunPos(Repeats(frames), i) == 1
    ensures RunEnd(Repeats(frames), i)
    ensures Show(i) in FramePlan(frames, cutoff)
  {
    var rep := Repeats(frames);
    assert !Cont(rep, i);
    if i + 1 < |frames| {
      assert !RepeatsPrevious(frames, i + 1);
    }
    Shown(rep, cutoff, i);
  }

  const SummaryLead: string := "  [Previous line repeated "

  /** `'  [Previous line repeated {n} more time{s}]\n'`. */
  function SummaryLine(n: nat): string
  {
    SummaryLead + NatToString(n) + " more time" + (if n > 1 then "s" else "") + "]\n"
  }

  /** A summary line gives the number of frames left out in decimal, and
      says "times" exactly when that number is above one. */
  lemma SummaryLineSays(n: nat)
    ensures var r := SummaryLine(n); var d := NatToString(n);
            && |SummaryLead| + |d| <= |r|
            && r[..|SummaryLead|] == SummaryLead
            && r[|SummaryLead|..|SummaryLead| + |d|] == d && ParseNat(d) == n
            && (n > 1 <==> r[|r| - 7..] == "times]\n")
  {
    var d := NatToString(n);
    var plural := if n > 1 then "s" else "";
    var r := SummaryLine(n);
    assert r == SummaryLead + (d + (" more time" + plural + "]\n"));
    ParseNatToString(n);
    if n > 1 {
      assert r[|r| - 7..] == "times]\n";
    } else {
      assert r[|r| - 7..] == " time]\n";
    }
  }

  /** An item `format` can write: a frame it shows has a file name. */
  predicate ItemOk(frames: seq<Frame>, item: Item)
  {
    item.Show? ==> item.index < |frames| && frames[item.index].filename.Some?
  }

  /** The text `format` writes for an item: a frame's block, or a summary line. */
  function RenderItem(frames: seq<Frame>, item: Item, cwd: Path): string
    requires ItemOk(frames, item)
  {
    match item
    case Show(i) => Block(frames[i], cwd)
    case Repeated(n) => SummaryLine(n)
  }

  /** `lines` are the texts of `items`, one string per item, in order. */
  predicate RendersAs(frames: seq<Frame>, items: seq<Item>, lines: seq<string>, cwd: Path)
  {
    |lines| == |items|
    && forall k :: 0 <= k < |items| ==> ItemOk(frames, items[k]) && lines[k] == RenderItem(frames, items[k], cwd)
  }

  lemma RendersAppend(frames: seq<Frame>, items: seq<Item>, lines: seq<string>, x: Item, line: string, cwd: Path)
    requires RendersAs(frames, items, lines, cwd)
    requires ItemOk(frames, x) && line == RenderItem(frames, x, cwd)
    ensures RendersAs(frames, items + [x], lines + [line], cwd)
  {
    assert forall k :: 0 <= k < |items| ==> (items + [x])[k] == items[k] && (lines + [line])[k] == lines[k];
  }

  /** Summing up a run of `n` frames appends its summary line, if any. */
  lemma RendersSummary(frames: seq<Frame>, items: seq<Item>, lines: seq<string>, n: nat, cutoff: nat, cwd: Path)
    requires RendersAs(frames, items, lines, cwd)
    ensures RendersAs(frames, items + Summary(n, cutoff), lines + (if n > cutoff then [SummaryLine(n - cutoff)] else []), cwd)
  {
    if n > cutoff {
      RendersAppend(frames, items, lines, Repeated(n - cutoff), SummaryLine(n - cutoff), cwd);
    } else {
      assert items + Summary(n, cutoff) == items && lines + [] == lines;
    }
  }

  /** Showing frame `i` appends the text of its block parts. */
  lemma RendersShow(frames: seq<Frame>, items: seq<Item>, lines: seq<string>, i: nat, row: seq<string>, cwd: Path)
    requires RendersAs(frames, items, lines, cwd)
    requires i < |frames| && frames[i].filename.Some? && row == BlockRows(frames[i], cwd)
    ensures RendersAs(frames, items + [Show(i)], lines + [Concat(row)], cwd)
  {
    RendersAppend(frames, items, lines, Show(i), Concat(row), cwd);
  }

  /** Appends one `    name = value` line per local, in the order given. */
  method AppendLocals(row: seq<string>, ls: seq<Local>) returns (r: seq<string>)
    ensures r == row + LocalRows(ls)
  {
    r := row;
    var k := 0;
    while k < |ls|
      invariant 0 <= k <= |ls|
      invariant r == row + LocalRows(ls[..k])
    {
      assert ls[..k + 1][..k] == ls[..k];
      r := r + ["    " + ls[k].0 + " = " + ls[k].1 + "\n"];
      k := k + 1;
    }
    assert ls[..k] == ls;
  }

  /** Renders one frame's block, part by part, as `format` does for a frame it shows. */
  method FormatFrame(f: Frame, cwd: Path) returns (row: seq<string>)
    requires f.filename.Some?
    ensures row == BlockRows(f, cwd)
  {
    var filename := Display(f.filename.value, cwd);
    row := ["  File \"" + filename + "\", line " + LinenoText(f.lineno) + ", in " + NameText(f.name) + "\n"];
    if f.line != "" {
      row := row + ["    " + Strip(f.line) + "\n"];
    }
    if f.locals.Some? && f.locals.value != [] {
      row := AppendLocals(row, SortLocals(f.locals.value));
    }
  }

  /** The first `n` frames all have a file name. */
  predicate AllNamed(frames: seq<Frame>, n: nat)
    requires n <= |frames|
  {
    n == 0 || (AllNamed(frames, n - 1) && frames[n - 1].filename.Some?)
  }

  lemma {:induction false} AllNamedMeans(frames: seq<Frame>, n: nat)
    requires n <= |frames|
    ensures AllNamed(frames, n) <==> forall j :: 0 <= j < n ==> frames[j].filename.Some?
  {
    if 0 < n {
      AllNamedMeans(frames, n - 1);
    }
  }

  /** Writes the block of frame `i`, which `format` shows. */
  method ShowFrame(frames: seq<Frame>, ghost items: seq<Item>, lines: seq<string>, i: nat, cwd: Path)
      returns (r: seq<string>)
    requires RendersAs(frames, items, lines, cwd)
    requires i < |frames| && frames[i].filename.Some?
    ensures RendersAs(frames, items + [Show(i)], r, cwd)
  {
    var row := FormatFrame(frames[i], cwd);
    RendersShow(frames, items, lines, i, row, cwd);
    r := lines + [Concat(row)];
  }

  /** Closes a run of `count` frames: if more than `cutoff` of them were
      left out, a line saying how many. */
  method CloseRun(result: seq<string>, count: nat, cutoff: nat) returns (r: seq<string>)
    ensures r == result + (if count > cutoff then [SummaryLine(count - cutoff)] else [])
  {
    r := result;
    if count > cutoff {
      var n := count - cutoff;
      r := r + [SummaryLine(n)];
    }
  }

  /** The loop's test that frame `f` does not continue the run of the frame
      before it, whose file, line number and name were kept. */
  predicate StartsRun(lastFile: Option<Path>, lastLine: Option<int>, lastName: Option<string>, f: Frame)
  {
    || lastFile.None? || lastFile != f.filename
    || lastLine.None? || lastLine != f.lineno
    || lastName.None? || lastName != f.name
  }

  /** The test fails exactly for a frame that repeats the one before. */
  lemma StartsRunIff(frames: seq<Frame>, i: nat, lastFile: Option<Path>, lastLine: Option<int>, lastName: Option<string>)
    requires i < |frames|
    requires 0 < i ==> (lastFile, lastLine, lastName) == Key(frames[i - 1])
    requires i == 0 ==> lastFile.None? && lastLine.None? && lastName.None?
    ensures StartsRun(lastFile, lastLine, lastName, frames[i]) <==> !Cont(Repeats(frames), i)
  {
  }

  class RelativeStackSummary {
    var frames: seq<Frame>

    constructor ()
      ensures frames == []
    {
      frames := [];
    }

    method Append(f: Frame)
      modifies this
      ensures frames == old(frames) + [f]
    {
      frames := frames + [f];
    }

    /** `from_list`: frame summaries are kept as they are, tuples become
        frames with the same fields and no locals; length and order are kept. */
    static method FromList(entries: seq<Entry>) returns (s: RelativeStackSummary)
      ensures fresh(s)
      ensures |s.frames| == |entries|
      ensures forall i :: 0 <= i < |entries| && entries[i].FrameSummary? ==> s.frames[i] == entries[i].frame
      ensures forall i :: 0 <= i < |entries| && entries[i].Tuple? ==>
                s.frames[i] == Frame(entries[i].filename, entries[i].lineno, entries[i].name, entries[i].line, None)
    {
      s := new RelativeStackSummary();
      var k := 0;
      while k < |entries|
        invariant 0 <= k <= |entries|
        invariant fresh(s)
        invariant |s.frames| == k
        invariant forall i :: 0 <= i < k && entries[i].FrameSummary? ==> s.frames[i] == entries[i].frame
        invariant forall i :: 0 <= i < k && entries[i].Tuple? ==>
                    s.frames[i] == Frame(entries[i].filename, entries[i].lineno, entries[i].name, entries[i].line, None)
      {
        match entries[k] {
          case FrameSummary(f) =>
            s.Append(f);
          case Tuple(filename, lineno, name, line) =>
            s.Append(Frame(filename, lineno, name, line, None));
        }
        k := k + 1;
      }
    }

    /**
     * `format`: the frames' blocks, with each run of repeats cut off after
     * `cutoff` blocks and closed by a summary of the rest, as planned by
     * `FramePlan`; or the `TypeError` of the first frame without a file name.
     */
    method Format(cwd: Path, cutoff: nat) returns (out: Outcome)
      requires 0 < cutoff
      ensures out.TypeError? <==> exists i :: 0 <= i < |frames| && frames[i].filename.None?
      ensures out.TypeError? ==>
                out.index < |frames| && frames[out.index].filename.None?
                && forall j :: 0 <= j < out.index ==> frames[j].filename.Some?
      ensures out.Rendered? ==> RendersAs(frames, FramePlan(frames, cutoff), out.lines, cwd)
    {
      var fs := frames;
      ghost var rep := Repeats(fs);
      ghost var emitted: seq<Item> := [];
      var result: seq<string> := [];
      var lastFile: Option<Path> := None;
      var lastLine: Option<int> := None;
      var lastName: Option<string> := None;
      var count: nat := 0;
      var i := 0;
      while i < |fs|
        invariant 0 <= i <= |fs|
        invariant 0 < i ==> (lastFile, lastLine, lastName) == Key(fs[i - 1])
        invariant i == 0 ==> lastFile.None? && lastLine.None? && lastName.None?
        invariant count == if i == 0 then 0 else RunPos(rep, i - 1)
        invariant AllNamed(fs, i)
        invariant emitted == Emitted(rep, i, cutoff)
        invariant RendersAs(fs, emitted, result, cwd)
      {
        var f := fs[i];
        StartsRunIff(fs, i, lastFile, lastLine, lastName);
        ghost var pos := RunPos(rep, i);
        var starts := StartsRun(lastFile, lastLine, lastName, f);
        if starts {
          assert pos == 1;
          RendersSummary(fs, emitted, result, count, cutoff, cwd);
          result := CloseRun(result, count, cutoff);
          emitted := emitted + Pending(rep, i, cutoff);
          lastFile := f.filename;
          lastLine := f.lineno;
          lastName := f.name;
          count := 0;
        } else {
          assert pos == count + 1;
        }
        count := count + 1;
        assert count == pos;
        if count <= cutoff {
          if f.filename.None? {
            AllNamedMeans(fs, i);
            return TypeError(i);
          }
          result := ShowFrame(fs, emitted, result, i, cwd);
          if starts {
            EmittedStart(rep, i, cutoff);
          } else {
            EmittedRepeat(rep, i, cutoff);
          }
          emitted := emitted + [Show(i)];
        } else {
          EmittedDropped(rep, i, cutoff);
        }
        i := i + 1;
      }
      AllNamedMeans(fs, |fs|);
      RendersSummary(fs, emitted, result, count, cutoff, cwd);
      EmittedIsPlan(rep, cutoff);
      result := CloseRun(result, count, cutoff);
      out := Rendered(result);
    }
  }
}
