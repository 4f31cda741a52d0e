/**
 * Which consecutive frames `format` collapses. A stack is seen here only
 * through `rep`, where `rep[i]` says that frame `i` repeats the frame before
 * it. A run is a maximal stretch of frames each repeating the one before;
 * `format` shows up to `cutoff` frames of a run and sums up the rest in one
 * summary line. The plan of a stack is the sequence of items `format` emits:
 * frame blocks (by frame index) and summaries (by how many frames they stand for).
 */
module Runs {

  /** Frame `i` carries on the run of frame `i - 1`. */
  predicate Cont(rep: seq<bool>, i: nat)
    requires i < |rep|
  {
    0 < i && rep[i]
  }

  /** The length of the run that begins at `s` and goes as far as it can. */
  function RunLen(rep: seq<bool>, s: nat): (k: nat)
    requires s < |rep|
    ensures 1 <= k <= |rep| - s
    decreases |rep| - s
  {
    if s + 1 < |rep| && Cont(rep, s + 1) then 1 + RunLen(rep, s + 1) else 1
  }

  /** The run from `s` is a stretch of repeats, and it cannot be extended. */
  lemma {:induction false} RunLenIsRun(rep: seq<bool>, s: nat)
    requires s < |rep|
    ensures forall m :: s < m < s + RunLen(rep, s) ==> Cont(rep, m)
    ensures s + RunLen(rep, s) < |rep| ==> !Cont(rep, s + RunLen(rep, s))
    decreases |rep| - s
  {
    if s + 1 < |rep| && Cont(rep, s + 1) {
      RunLenIsRun(rep, s + 1);
    }
  }

  /** The frame after the run from `s`, if any, begins the next run. */
  lemma {:induction false} RunLenEnds(rep: seq<bool>, s: nat)
    requires s < |rep|
    ensures s + RunLen(rep, s) < |rep| ==> !Cont(rep, s + RunLen(rep, s))
    decreases |rep| - s
  {
    if s + 1 < |rep| && Cont(rep, s + 1) {
      RunLenEnds(rep, s + 1);
    }
  }

  /** A stretch of repeats from `s` that cannot be extended is the run from `s`. */
  lemma {:induction false} RunLenOf(rep: seq<bool>, s: nat, e: nat)
    requires s < e <= |rep|
    requires forall m :: s < m < e ==> Cont(rep, m)
    requires e < |rep| ==> !Cont(rep, e)
    ensures RunLen(rep, s) == e - s
    decreases e - s
  {
    if s + 1 < e {
      RunLenOf(rep, s + 1, e);
    }
  }

  /** The position (from 1) of frame `i` in its run. */
  function RunPos(rep: seq<bool>, i: nat): (p: nat)
    requires i < |rep|
    ensures 1 <= p <= i + 1
  {
    if Cont(rep, i) then RunPos(rep, i - 1) + 1 else 1
  }

  /** The `RunPos(rep, i)` frames up to `i` are a run: each repeats the one
      before, and the first of them repeats nothing. */
  lemma {:induction false} RunPosIsRun(rep: seq<bool>, i: nat)
    requires i < |rep|
    ensures !Cont(rep, i + 1 - RunPos(rep, i))
    ensures forall m :: i + 1 - RunPos(rep, i) < m <= i ==> Cont(rep, m)
  {
    if Cont(rep, i) {
      RunPosIsRun(rep, i - 1);
    }
  }

  /** Frame `i` is the last of its run. */
  predicate RunEnd(rep: seq<bool>, i: nat)
    requires i < |rep|
  {
    i + 1 == |rep| || !Cont(rep, i + 1)
  }

  datatype Item = Show(index: nat) | Repeated(times: nat)

  function Min(a: nat, b: nat): nat
  {
    if a <= b then a else b
  }

  /** Blocks for the frames `lo` to `hi - 1`, in order. */
  function ShowRange(lo: nat, hi: nat): seq<Item>
    decreases hi
  {
    if hi <= lo then [] else ShowRange(lo, hi - 1) + [Show(hi - 1)]
  }

  lemma {:induction false} ShowRangeAt(lo: nat, hi: nat)
    ensures |ShowRange(lo, hi)| == if lo <= hi then hi - lo else 0
    ensures forall k :: 0 <= k < |ShowRange(lo, hi)| ==> ShowRange(lo, hi)[k] == Show(lo + k)
    decreases hi
  {
    if lo < hi {
      ShowRangeAt(lo, hi - 1);
    }
  }

  /** The summary that closes a run of `n` frames. */
  function Summary(n: nat, cutoff: nat): seq<Item>
  {
    if n > cutoff then [Repeated(n - cutoff)] else []
  }

  /** What a run of `n` frames beginning at `s` contributes. */
  function RunItems(s: nat, n: nat, cutoff: nat): seq<Item>
  {
    ShowRange(s, s + Min(n, cutoff)) + Summary(n, cutoff)
  }

  /**
   * The plan from frame `s` on, run by run: a run of `n` frames shows its
   * first `min(n, cutoff)` frames and is then summed up if `n > cutoff`.
   */
  function PlanFrom(rep: seq<bool>, s: nat, cutoff: nat): seq<Item>
    requires s <= |rep|
    decreases |rep| - s
  {
    if s == |rep| then [] else RunItems(s, RunLen(rep, s), cutoff) + PlanFrom(rep, s + RunLen(rep, s), cutoff)
  }

  function Plan(rep: seq<bool>, cutoff: nat): seq<Item>
  {
    PlanFrom(rep, 0, cutoff)
  }

  /** A plan shows only frames it starts at or after, and every summary stands for at least one frame. */
  lemma {:induction false} PlanFromItems(rep: seq<bool>, s: nat, cutoff: nat)
    requires s <= |rep|
    ensures forall k :: 0 <= k < |PlanFrom(rep, s, cutoff)| ==>
              (PlanFrom(rep, s, cutoff)[k].Show? ==> s <= PlanFrom(rep, s, cutoff)[k].index < |rep|)
              && (PlanFrom(rep, s, cutoff)[k].Repeated? ==> PlanFrom(rep, s, cutoff)[k].times > 0)
    decreases |rep| - s
  {
    if s < |rep| {
      var n := RunLen(rep, s);
      var head := ShowRange(s, s + Min(n, cutoff));
      var run := RunItems(s, n, cutoff);
      var rest := PlanFrom(rep, s + n, cutoff);
      ShowRangeAt(s, s + Min(n, cutoff));
      PlanFromItems(rep, s + n, cutoff);
      var plan := run + rest;
      assert plan == PlanFrom(rep, s, cutoff);
      forall k | 0 <= k < |plan|
        ensures (plan[k].Show? ==> s <= plan[k].index < |rep|) && (plan[k].Repeated? ==> plan[k].times > 0)
      {
        if k < |head| {
          assert plan[k] == head[k];
        } else if k >= |run| {
          assert plan[k] == rest[k - |run|];
        }
      }
    }
  }

  // ---------------------------------------------------------------------------
  // The same plan, frame by frame.

  /** What frame `i` contributes: its block if it is within the cutoff of its
      run, and the summary if it ends a run longer than the cutoff. */
  function FrameItems(rep: seq<bool>, i: nat, cutoff: nat): seq<Item>
    requires i < |rep|
  {
    (if RunPos(rep, i) <= cutoff then [Show(i)] else [])
    + (if RunEnd(rep, i) && RunPos(rep, i) > cutoff then [Repeated(RunPos(rep, i) - cutoff)] else [])
  }

  function ItemsUpTo(rep: seq<bool>, n: nat, cutoff: nat): seq<Item>
    requires n <= |rep|
  {
    if n == 0 then [] else ItemsUpTo(rep, n - 1, cutoff) + FrameItems(rep, n - 1, cutoff)
  }

  lemma Assoc<T>(a: seq<T>, b: seq<T>, c: seq<T>)
    ensures a + (b + c) == (a + b) + c
  {
  }

  /** `before + head + step`, regrouped. */
  lemma Regroup<T>(before: seq<T>, head: seq<T>, step: seq<T>, prev: seq<T>, next: seq<T>, whole: seq<T>)
    requires prev == before + head && whole == prev + step && next == head + step
    ensures whole == before + next
  {
    Assoc(before, head, step);
  }

  lemma ItemsUpToStep(rep: seq<bool>, s: nat, p: nat, cutoff: nat)
    requires 0 < p && s + p <= |rep|
    ensures ItemsUpTo(rep, s + p, cutoff) == ItemsUpTo(rep, s + (p - 1), cutoff) + FrameItems(rep, s + (p - 1), cutoff)
  {
  }

  lemma ItemsUpToLast(rep: seq<bool>, n: nat, cutoff: nat)
    requires 0 < n <= |rep|
    ensures ItemsUpTo(rep, n, cutoff) == ItemsUpTo(rep, n - 1, cutoff) + FrameItems(rep, n - 1, cutoff)
  {
  }

  lemma PlanFromStep(rep: seq<bool>, s: nat, cutoff: nat)
    requires s < |rep|
    ensures PlanFrom(rep, s, cutoff) == RunItems(s, RunLen(rep, s), cutoff) + PlanFrom(rep, s + RunLen(rep, s), cutoff)
  {
  }

  /** The blocks of a run grow by one frame while within the cutoff. */
  lemma ShowRangeStep(s: nat, p: nat, cutoff: nat)
    requires 1 <= p
    ensures ShowRange(s, s + Min(p - 1, cutoff)) + (if p <= cutoff then [Show(s + (p - 1))] else [])
            == ShowRange(s, s + Min(p, cutoff))
  {
    if p > cutoff {
      assert Min(p - 1, cutoff) == Min(p, cutoff);
      assert ShowRange(s, s + Min(p, cutoff)) + [] == ShowRange(s, s + Min(p, cutoff));
    }
  }

  lemma InAppend<T>(x: T, a: seq<T>, b: seq<T>, c: seq<T>)
    requires c == a + b
    ensures x in c <==> x in a || x in b
  {
  }

  /** Inside a run beginning at `s`, positions count up from 1. */
  lemma {:induction false} RunPosInRun(rep: seq<bool>, s: nat, i: nat)
    requires s < |rep| && !Cont(rep, s)
    requires s <= i < s + RunLen(rep, s)
    ensures RunPos(rep, i) == i - s + 1
    decreases i
  {
    if i > s {
      RunLenIsRun(rep, s);
      RunPosInRun(rep, s, i - 1);
    }
  }

  /** A frame at position `p` (from 1) of the run beginning at `s`, other
      than its last: it adds its block while `p` is within the cutoff. */
  lemma FrameItemsInside(rep: seq<bool>, s: nat, p: nat, cutoff: nat)
    requires s < |rep| && !Cont(rep, s)
    requires 1 <= p < RunLen(rep, s)
    ensures FrameItems(rep, s + (p - 1), cutoff) == if p <= cutoff then [Show(s + (p - 1))] else []
  {
    RunLenIsRun(rep, s);
    RunPosInRun(rep, s, s + (p - 1));
    var shown: seq<Item> := if p <= cutoff then [Show(s + (p - 1))] else [];
    assert shown + [] == shown;
  }

  /** The last frame of the run beginning at `s`: its block if the run is
      within the cutoff, then the run's summary. */
  lemma FrameItemsLast(rep: seq<bool>, s: nat, cutoff: nat)
    requires s < |rep| && !Cont(rep, s)
    ensures FrameItems(rep, s + (RunLen(rep, s) - 1), cutoff)
            == (if RunLen(rep, s) <= cutoff then [Show(s + (RunLen(rep, s) - 1))] else []) + Summary(RunLen(rep, s), cutoff)
  {
    RunLenIsRun(rep, s);
    RunPosInRun(rep, s, s + (RunLen(rep, s) - 1));
  }

  /** Frame by frame, the first `p` frames of a run beginning at `s`, short
      of its last, contribute the blocks of those within the cutoff. */
  lemma {:induction false} ItemsInRunPrefix(rep: seq<bool>, s: nat, p: nat, cutoff: nat)
    requires s < |rep| && !Cont(rep, s)
    requires p < RunLen(rep, s)
    ensures ItemsUpTo(rep, s + p, cutoff) == ItemsUpTo(rep, s, cutoff) + ShowRange(s, s + Min(p, cutoff))
    decreases p
  {
    var before := ItemsUpTo(rep, s, cutoff);
    if p == 0 {
      assert ShowRange(s, s) == [];
      assert before + [] == before;
    } else {
      ItemsInRunPrefix(rep, s, p - 1, cutoff);
      PrefixStep(rep, s, p, cutoff);
    }
  }

  /** One more frame of the run beginning at `s`, short of its last. */
  lemma PrefixStep(rep: seq<bool>, s: nat, p: nat, cutoff: nat)
    requires s < |rep| && !Cont(rep, s)
    requires 1 <= p < RunLen(rep, s)
    requires ItemsUpTo(rep, s + (p - 1), cutoff) == ItemsUpTo(rep, s, cutoff) + ShowRange(s, s + Min(p - 1, cutoff))
    ensures ItemsUpTo(rep, s + p, cutoff) == ItemsUpTo(rep, s, cutoff) + ShowRange(s, s + Min(p, cutoff))
  {
    ItemsUpToStep(rep, s, p, cutoff);
    FrameItemsInside(rep, s, p, cutoff);
    ShowRangeStep(s, p, cutoff);
    Regroup(ItemsUpTo(rep, s, cutoff), ShowRange(s, s + Min(p - 1, cutoff)), FrameItems(rep, s + (p - 1), cutoff),
            ItemsUpTo(rep, s + (p - 1), cutoff), ShowRange(s, s + Min(p, cutoff)), ItemsUpTo(rep, s + p, cutoff));
  }

  /** A run's items: the blocks before its last frame, then what its last frame adds. */
  lemma RunItemsSplit(s: nat, n: nat, cutoff: nat)
    requires 1 <= n
    ensures RunItems(s, n, cutoff)
            == ShowRange(s, s + Min(n - 1, cutoff)) + ((if n <= cutoff then [Show(s + (n - 1))] else []) + Summary(n, cutoff))
  {
    ShowRangeStep(s, n, cutoff);
    Assoc(ShowRange(s, s + Min(n - 1, cutoff)), if n <= cutoff then [Show(s + (n - 1))] else [], Summary(n, cutoff));
  }

  /** Frame by frame, the run beginning at `s` contributes what `PlanFrom` gives it. */
  lemma ItemsInRun(rep: seq<bool>, s: nat, cutoff: nat)
    requires s < |rep| && !Cont(rep, s)
    ensures ItemsUpTo(rep, s + RunLen(rep, s), cutoff)
            == ItemsUpTo(rep, s, cutoff) + RunItems(s, RunLen(rep, s), cutoff)
  {
    ItemsInRunPrefix(rep, s, RunLen(rep, s) - 1, cutoff);
    RunLastStep(rep, s, cutoff);
  }

  /** The last frame of the run beginning at `s` completes its items. */
  lemma RunLastStep(rep: seq<bool>, s: nat, cutoff: nat)
    requires s < |rep| && !Cont(rep, s)
    requires ItemsUpTo(rep, s + (RunLen(rep, s) - 1), cutoff)
             == ItemsUpTo(rep, s, cutoff) + ShowRange(s, s + Min(RunLen(rep, s) - 1, cutoff))
    ensures ItemsUpTo(rep, s + RunLen(rep, s), cutoff)
            == ItemsUpTo(rep, s, cutoff) + RunItems(s, RunLen(rep, s), cutoff)
  {
    var n := RunLen(rep, s);
    ItemsUpToStep(rep, s, n, cutoff);
    FrameItemsLast(rep, s, cutoff);
    RunItemsSplit(s, n, cutoff);
    Regroup(ItemsUpTo(rep, s, cutoff), ShowRange(s, s + Min(n - 1, cutoff)), FrameItems(rep, s + (n - 1), cutoff),
            ItemsUpTo(rep, s + (n - 1), cutoff), RunItems(s, n, cutoff), ItemsUpTo(rep, s + n, cutoff));
  }

  lemma {:induction false} PlanFromIsPerFrame(rep: seq<bool>, s: nat, cutoff: nat)
    requires s <= |rep|
    requires s < |rep| ==> !Cont(rep, s)
    ensures ItemsUpTo(rep, s, cutoff) + PlanFrom(rep, s, cutoff) == ItemsUpTo(rep, |rep|, cutoff)
    decreases |rep| - s
  {
    if s < |rep| {
      var n := RunLen(rep, s);
      RunLenEnds(rep, s);
      ItemsInRun(rep, s, cutoff);
      PlanFromIsPerFrame(rep, s + n, cutoff);
      PlanFromStep(rep, s, cutoff);
      Regroup(ItemsUpTo(rep, s, cutoff), RunItems(s, n, cutoff), PlanFrom(rep, s + n, cutoff),
              ItemsUpTo(rep, s + n, cutoff), PlanFrom(rep, s, cutoff), ItemsUpTo(rep, |rep|, cutoff));
    }
  }

  /**
   * The run-by-run plan is the frame-by-frame one: frame `i` is shown
   * exactly when its position in its run is at most the cutoff, and the last
   * frame of a run longer than the cutoff is followed by one summary for the
   * frames past the cutoff.
   */
  lemma PlanIsPerFrame(rep: seq<bool>, cutoff: nat)
    ensures Plan(rep, cutoff) == ItemsUpTo(rep, |rep|, cutoff)
  {
    PlanFromIsPerFrame(rep, 0, cutoff);
  }

  /** Some item of `items` shows frame `i`. */
  predicate HasShow(items: seq<Item>, i: nat)
    decreases |items|
  {
    items != [] && (items[0] == Show(i) || HasShow(items[1..], i))
  }

  lemma {:induction false} HasShowMeans(items: seq<Item>, i: nat)
    ensures HasShow(items, i) <==> Show(i) in items
    decreases |items|
  {
    if items != [] {
      HasShowMeans(items[1..], i);
      assert items == [items[0]] + items[1..];
      InAppend(Show(i), [items[0]], items[1..], items);
    }
  }

  lemma {:induction false} HasShowAppend(a: seq<Item>, b: seq<Item>, c: seq<Item>, i: nat)
    requires c == a + b
    ensures HasShow(c, i) <==> HasShow(a, i) || HasShow(b, i)
    decreases |a|
  {
    if a != [] {
      assert c[1..] == a[1..] + b;
      HasShowAppend(a[1..], b, c[1..], i);
    } else {
      assert c == b;
    }
  }

  lemma ShownByFrame(rep: seq<bool>, m: nat, cutoff: nat, i: nat)
    requires m < |rep|
    ensures HasShow(FrameItems(rep, m, cutoff), i) <==> i == m && RunPos(rep, m) <= cutoff
  {
    var p := RunPos(rep, m);
    var shown: seq<Item> := if p <= cutoff then [Show(m)] else [];
    var summed: seq<Item> := if RunEnd(rep, m) && p > cutoff then [Repeated(p - cutoff)] else [];
    HasShowAppend(shown, summed, FrameItems(rep, m, cutoff), i);
    assert !HasShow(summed, i) by {
      if summed != [] {
        assert !HasShow(summed[1..], i);
      }
    }
    assert HasShow(shown, i) <==> i == m && p <= cutoff by {
      if shown != [] {
        assert !HasShow(shown[1..], i);
      }
    }
  }

  lemma {:induction false} ShownUpTo(rep: seq<bool>, n: nat, cutoff: nat, i: nat)
    requires n <= |rep|
    ensures HasShow(ItemsUpTo(rep, n, cutoff), i) <==> i < n && RunPos(rep, i) <= cutoff
  {
    if n > 0 {
      ShownUpTo(rep, n - 1, cutoff, i);
      ShownStep(rep, n, cutoff, i);
    } else {
      assert ItemsUpTo(rep, 0, cutoff) == [];
    }
  }

  lemma ShownStep(rep: seq<bool>, n: nat, cutoff: nat, i: nat)
    requires 0 < n <= |rep|
    requires HasShow(ItemsUpTo(rep, n - 1, cutoff), i) <==> i < n - 1 && RunPos(rep, i) <= cutoff
    ensures HasShow(ItemsUpTo(rep, n, cutoff), i) <==> i < n && RunPos(rep, i) <= cutoff
  {
    ItemsUpToLast(rep, n, cutoff);
    ShownByFrame(rep, n - 1, cutoff, i);
    HasShowAppend(ItemsUpTo(rep, n - 1, cutoff), FrameItems(rep, n - 1, cutoff), ItemsUpTo(rep, n, cutoff), i);
  }

  /** Frame `i` gets a block exactly when it is among the first `cutoff` of its run. */
  lemma Shown(rep: seq<bool>, cutoff: nat, i: nat)
    ensures Show(i) in Plan(rep, cutoff) <==> i < |rep| && RunPos(rep, i) <= cutoff
  {
    PlanIsPerFrame(rep, cutoff);
    ShownUpTo(rep, |rep|, cutoff, i);
    HasShowMeans(Plan(rep, cutoff), i);
  }

  /**
   * `n` frames that all repeat the first: the first `min(n, cutoff)` are
   * shown and, when `n > cutoff`, one summary for the other `n - cutoff` follows.
   */
  lemma SingleRun(rep: seq<bool>, cutoff: nat)
    requires |rep| > 0
    requires forall i :: 0 < i < |rep| ==> rep[i]
    ensures Plan(rep, cutoff) == ShowRange(0, Min(|rep|, cutoff)) + Summary(|rep|, cutoff)
  {
    RunLenOf(rep, 0, |rep|);
    assert PlanFrom(rep, |rep|, cutoff) == [];
  }

  /** A frame that repeats nothing and is not repeated is a run of its own. */
  lemma LoneFrame(rep: seq<bool>, i: nat, cutoff: nat)
    requires i < |rep| && !Cont(rep, i) && RunEnd(rep, i)
    ensures RunPos(rep, i) == 1
    ensures 0 < cutoff ==> FrameItems(rep, i, cutoff) == [Show(i)]
  {
  }
  // ---------------------------------------------------------------------------
  // The same plan as `format` emits it, scanning the frames once: the summary
  // of a run is written when the next run begins, or after the last frame.

  /** What `format` emits at frame `m`: the summary of the run that `m` ends
      (if `m` begins a new run), then `m`'s block if it is within the cutoff. */
  function StepItems(rep: seq<bool>, m: nat, cutoff: nat): seq<Item>
    requires m < |rep|
  {
    (if 0 < m && !Cont(rep, m) then Summary(RunPos(rep, m - 1), cutoff) else [])
    + (if RunPos(rep, m) <= cutoff then [Show(m)] else [])
  }

  /** What `format` has emitted after the first `n` frames. */
  function Emitted(rep: seq<bool>, n: nat, cutoff: nat): seq<Item>
    requires n <= |rep|
  {
    if n == 0 then [] else Emitted(rep, n - 1, cutoff) + StepItems(rep, n - 1, cutoff)
  }

  /** The summary still owed after the first `n` frames: that of the run in progress. */
  function Pending(rep: seq<bool>, n: nat, cutoff: nat): seq<Item>
    requires n <= |rep|
  {
    if n == 0 then [] else Summary(RunPos(rep, n - 1), cutoff)
  }

  /** After the first `n` frames, the emitted items and, once the run of
      frame `n - 1` is over, its pending summary, are the frame-by-frame items. */
  lemma {:induction false} EmittedUpTo(rep: seq<bool>, n: nat, cutoff: nat)
    requires n <= |rep|
    ensures ItemsUpTo(rep, n, cutoff)
            == Emitted(rep, n, cutoff) + (if 0 < n && RunEnd(rep, n - 1) then Pending(rep, n, cutoff) else [])
    decreases n
  {
    if 0 < n {
      var m := n - 1;
      EmittedUpTo(rep, m, cutoff);
      var before := Emitted(rep, m, cutoff);
      var show: seq<Item> := if RunPos(rep, m) <= cutoff then [Show(m)] else [];
      var close: seq<Item> := if RunEnd(rep, m) then Pending(rep, n, cutoff) else [];
      assert FrameItems(rep, m, cutoff) == show + close;
      if 0 < m && !Cont(rep, m) {
        var owed := Pending(rep, m, cutoff);
        assert ItemsUpTo(rep, m, cutoff) == before + owed;
        assert StepItems(rep, m, cutoff) == owed + show;
        Assoc(before, owed, show);
        Assoc(before + owed, show, close);
      } else {
        assert ItemsUpTo(rep, m, cutoff) == before;
        assert StepItems(rep, m, cutoff) == show;
        Assoc(before, show, close);
      }
    }
  }

  /** The plan is what `format` emits frame by frame, followed by the summary
      it writes after the last frame. */
  lemma EmittedIsPlan(rep: seq<bool>, cutoff: nat)
    ensures Plan(rep, cutoff) == Emitted(rep, |rep|, cutoff) + Pending(rep, |rep|, cutoff)
  {
    PlanIsPerFrame(rep, cutoff);
    EmittedUpTo(rep, |rep|, cutoff);
  }
  /** A frame that begins a run first closes the run before it, and is shown. */
  lemma EmittedStart(rep: seq<bool>, i: nat, cutoff: nat)
    requires i < |rep| && 0 < cutoff && !Cont(rep, i)
    ensures Emitted(rep, i + 1, cutoff) == Emitted(rep, i, cutoff) + Pending(rep, i, cutoff) + [Show(i)]
  {
    assert StepItems(rep, i, cutoff) == Pending(rep, i, cutoff) + [Show(i)];
    Assoc(Emitted(rep, i, cutoff), Pending(rep, i, cutoff), [Show(i)]);
  }

  /** A repeat within the cutoff is shown. */
  lemma EmittedRepeat(rep: seq<bool>, i: nat, cutoff: nat)
    requires i < |rep| && Cont(rep, i) && RunPos(rep, i) <= cutoff
    ensures Emitted(rep, i + 1, cutoff) == Emitted(rep, i, cutoff) + [Show(i)]
  {
    assert StepItems(rep, i, cutoff) == [Show(i)];
  }

  /** A repeat past the cutoff is left out. */
  lemma EmittedDropped(rep: seq<bool>, i: nat, cutoff: nat)
    requires i < |rep| && Cont(rep, i) && RunPos(rep, i) > cutoff
    ensures Emitted(rep, i + 1, cutoff) == Emitted(rep, i, cutoff)
  {
    assert StepItems(rep, i, cutoff) == [];
    assert Emitted(rep, i, cutoff) + [] == Emitted(rep, i, cutoff);
  }
}
