/**
 The image load counter. Every frame image is requested at once; each request
 ends in `onload` or `onerror`, and both run the same `onLoad` handler. The
 handler decrements `imagesToLoad`, publishes the rounded percentage of images
 settled so far when a counter element exists, and calls `startAnimation`
 when the count reaches zero.

 The handler itself does not know which image settled: `Counter` is exactly
 the state its closure captures. `LoadState` adds the slot of every image as
 bookkeeping, so that "each image settles once" can be stated.
 */
module LoadCounter {
  import Numeric
  import opened Wrappers

  /** A decoded image has both natural dimensions positive. */
  type Pos = n: nat | n > 0 witness 1

  /** How one image request ended: `onload` with its natural size, or `onerror`. */
  datatype Outcome = Loaded(width: Pos, height: Pos) | Errored

  datatype Slot = Pending | Done(outcome: Outcome)

  /**
   The variables the `onLoad` closure reads and writes. `counterText` is the
   last percentage written to the counter element (`None` while untouched);
   `startCalls` counts the calls of `startAnimation`.
   */
  datatype Counter = Counter(
    imagesToLoad: int,
    totalImages: nat,
    hasCounterElement: bool,
    counterText: Option<int>,
    startCalls: nat)


  datatype LoadState = LoadState(slots: seq<Slot>, counter: Counter)

  /** One settled request: the image at `index` fired `onload` or `onerror`. */
  datatype Completion = Completion(index: nat, outcome: Outcome)

  /** `Math.round((loaded / total) * 100)`. */
  function Percent(loaded: int, total: nat): int
    requires total > 0
  {
    Numeric.Round(loaded as real / total as real * 100.0)
  }

  /** The state right after the request loop: every slot pending, nothing published. */
  function Start(total: nat, hasCounterElement: bool): (s: LoadState)
    ensures |s.slots| == total
    ensures forall i :: 0 <= i < total ==> s.slots[i] == Pending
    ensures s.counter.imagesToLoad == total && s.counter.totalImages == total
    ensures s.counter.counterText == None && s.counter.startCalls == 0
  {
    LoadState(seq(total, _ => Pending), Counter(total, total, hasCounterElement, None, 0))
  }

  /** The `onLoad` handler. */
  function OnLoad(c: Counter): (r: Counter)
    requires c.totalImages > 0
    ensures r.imagesToLoad == c.imagesToLoad - 1
    ensures r.totalImages == c.totalImages && r.hasCounterElement == c.hasCounterElement
    ensures r.startCalls == c.startCalls + (if r.imagesToLoad == 0 then 1 else 0)
    ensures c.hasCounterElement ==>
      r.counterText == Some(Percent(r.totalImages - r.imagesToLoad, r.totalImages))
    ensures !c.hasCounterElement ==> r.counterText == c.counterText
  {
    var left := c.imagesToLoad - 1;
    var text := if c.hasCounterElement
      then Some(Percent(c.totalImages - left, c.totalImages))
      else c.counterText;
    var calls := if left == 0 then c.startCalls + 1 else c.startCalls;
    Counter(left, c.totalImages, c.hasCounterElement, text, calls)
  }

  /** The image at `e.index` settles: its slot records the outcome and `onLoad` runs. */
  function Complete(s: LoadState, e: Completion): (r: LoadState)
    requires e.index < |s.slots| && s.counter.totalImages > 0
    ensures |r.slots| == |s.slots| && r.slots[e.index] == Done(e.outcome)
    ensures forall j :: 0 <= j < |s.slots| && j != e.index ==> r.slots[j] == s.slots[j]
    ensures r.counter.imagesToLoad == s.counter.imagesToLoad - 1
    ensures r.counter.totalImages == s.counter.totalImages
  {
    LoadState(s.slots[e.index := Done(e.outcome)], OnLoad(s.counter))
  }

  predicate InRange(events: seq<Completion>, n: nat) {
    forall k :: 0 <= k < |events| ==> events[k].index < n
  }

  /** The browser settles each request at most once. */
  predicate EachOnce(events: seq<Completion>) {
    forall j, k :: 0 <= j < k < |events| ==> events[j].index != events[k].index
  }

  /** Feeds a sequence of completions, in order, to the handler. */
  function Run(s: LoadState, events: seq<Completion>): (r: LoadState)
    requires InRange(events, |s.slots|) && s.counter.totalImages > 0
    ensures |r.slots| == |s.slots| && r.counter.totalImages == s.counter.totalImages
    ensures r.counter.imagesToLoad == s.counter.imagesToLoad - |events|
    decreases |events|
  {
    if |events| == 0 then s
    else Run(Complete(s, events[0]), events[1..])
  }

  /** Number of slots still pending. */
  function CountPending(slots: seq<Slot>): (n: nat)
    ensures n <= |slots|
  {
    if |slots| == 0 then 0
    else CountPending(slots[..|slots| - 1]) + (if slots[|slots| - 1].Pending? then 1 else 0)
  }

  /**
   The invariant the handler keeps while each image settles once:
   `imagesToLoad` is the number of pending slots, and `startAnimation` has run
   once exactly when none is left.
   */
  predicate Consistent(s: LoadState) {
    && s.counter.totalImages == |s.slots| > 0
    && s.counter.imagesToLoad == CountPending(s.slots)
    && s.counter.startCalls == (if s.counter.imagesToLoad == 0 then 1 else 0)
  }

  // ---------------------------------------------------------------------------
  // Percentage

  /** The published percentage is the exact integer `(200 * loaded + total) / (2 * total)`. */
  lemma PercentExact(loaded: nat, total: nat)
    requires total > 0
    ensures Percent(loaded, total) == (200 * loaded + total) / (2 * total)
  {
    var a := 200 * loaded + total;
    var b := 2 * total;
    var l, t := loaded as real, total as real;
    var x := l / t;
    var y := a as real / b as real;
    assert x * t == l;
    assert y * (2.0 * t) == 200.0 * l + t;
    assert (x * 100.0 + 0.5) * (2.0 * t) == 200.0 * l + t;
    Numeric.Cancel(x * 100.0 + 0.5, y, 2.0 * t);
    Numeric.FloorOfQuotient(a, b);
  }

  /** The percentage of a count between zero and the total lies in [0, 100]. */
  lemma PercentBounds(loaded: nat, total: nat)
    requires 0 < total && loaded <= total
    ensures 0 <= Percent(loaded, total) <= 100
    ensures loaded == 0 ==> Percent(loaded, total) == 0
    ensures loaded == total ==> Percent(loaded, total) == 100
  {
    var x := loaded as real / total as real * 100.0;
    assert 0.0 <= x <= 100.0;
    assert loaded == total ==> loaded as real / total as real == 1.0;
    Numeric.RoundBetween(x, 0, 100);
    Numeric.RoundOfInt(0);
    Numeric.RoundOfInt(100);
  }

  /** More settled images never publish a smaller percentage. */
  lemma PercentMonotonic(l1: int, l2: int, total: nat)
    requires 0 < total && l1 <= l2
    ensures Percent(l1, total) <= Percent(l2, total)
  {
    var x1 := l1 as real / total as real;
    var x2 := l2 as real / total as real;
    assert x1 <= x2;
    Numeric.ScaleMonotonic(x1, x2, 100.0);
    Numeric.RoundMonotonic(x1 * 100.0, x2 * 100.0);
  }

  // ---------------------------------------------------------------------------
  // One completion

  /** A failed request counts exactly as a successful one: the counter does not see the outcome. */
  lemma FailureCountsAsSuccess(s: LoadState, index: nat, w: Pos, h: Pos)
    requires index < |s.slots| && s.counter.totalImages > 0
    ensures Complete(s, Completion(index, Errored)).counter
         == Complete(s, Completion(index, Loaded(w, h))).counter
  {
  }

  lemma {:induction false} CountPendingUpdate(slots: seq<Slot>, i: nat, o: Outcome)
    requires i < |slots| && slots[i] == Pending
    ensures CountPending(slots[i := Done(o)]) == CountPending(slots) - 1
    decreases |slots|
  {
    var u := slots[i := Done(o)];
    var last := |slots| - 1;
    assert u[..last] == if i == last then slots[..last] else slots[..last][i := Done(o)];
    if i < last {
      CountPendingUpdate(slots[..last], i, o);
    }
  }

  lemma {:induction false} CountPendingAll(n: nat)
    ensures CountPending(seq(n, _ => Pending)) == n
  {
    if n > 0 {
      assert seq(n, _ => Pending)[..n - 1] == seq(n - 1, _ => Pending);
      CountPendingAll(n - 1);
    }
  }

  lemma {:induction false} NoneLeftMeansAllDone(slots: seq<Slot>)
    requires CountPending(slots) == 0
    ensures forall i :: 0 <= i < |slots| ==> slots[i].Done?
    decreases |slots|
  {
    if |slots| > 0 {
      NoneLeftMeansAllDone(slots[..|slots| - 1]);
      assert forall i :: 0 <= i < |slots| - 1 ==> slots[i] == slots[..|slots| - 1][i];
    }
  }

  /** Once `startAnimation` has run, every image has settled. */
  lemma StartedMeansAllSettled(s: LoadState)
    requires Consistent(s) && s.counter.startCalls == 1
    ensures forall i :: 0 <= i < |s.slots| ==> s.slots[i].Done?
  {
    NoneLeftMeansAllDone(s.slots);
  }

  /** The start state satisfies the invariant. */
  lemma StartConsistent(total: nat, hasCounterElement: bool)
    requires total > 0
    ensures Consistent(Start(total, hasCounterElement))
  {
    CountPendingAll(total);
  }

  /**
   Settling a pending image keeps the invariant; it lowers the count by one,
   and calls `startAnimation` exactly when this was the last pending image.
   */
  lemma CompletePreserves(s: LoadState, e: Completion)
    requires Consistent(s) && e.index < |s.slots| && s.slots[e.index] == Pending
    ensures Consistent(Complete(s, e))
    ensures Complete(s, e).counter.startCalls == s.counter.startCalls + 1
        <==> CountPending(s.slots) == 1
  {
    CountPendingUpdate(s.slots, e.index, e.outcome);
  }

  // ---------------------------------------------------------------------------
  // Whole runs

  /**
   After `k` completions, each for a distinct image, of the requests issued at
   the start: `imagesToLoad` is `total - k`, so `k` never exceeds `total`;
   `startAnimation` has run once if `k == total` and not at all before; the
   settled slots are exactly those named by the completions; and the counter
   shows `Percent(k, total)` once anything has settled.
   */
  lemma {:induction false} RunFromStart(total: nat, hasCounterElement: bool, events: seq<Completion>)
    requires total > 0 && InRange(events, total) && EachOnce(events)
    ensures var r := Run(Start(total, hasCounterElement), events);
      && Consistent(r)
      && |events| <= total
      && r.counter.imagesToLoad == total - |events|
      && r.counter.startCalls == (if |events| == total then 1 else 0)
      && (forall i :: 0 <= i < total ==>
            (r.slots[i].Done? <==> exists k :: 0 <= k < |events| && events[k].index == i))
      && (hasCounterElement && |events| > 0 ==> r.counter.counterText == Some(Percent(|events|, total)))
      && (!hasCounterElement || |events| == 0 ==> r.counter.counterText == None)
  {
    var s := Start(total, hasCounterElement);
    StartConsistent(total, hasCounterElement);
    RunPreserves(s, events);
    RunPublishes(s, events);
    forall i | 0 <= i < total
      ensures Run(s, events).slots[i].Done? <==> exists k :: 0 <= k < |events| && events[k].index == i
    {
      RunSettles(s, events, i);
    }
  }

  /** A run of completions, each for a distinct pending image, keeps the invariant. */
  lemma {:induction false} RunPreserves(s: LoadState, events: seq<Completion>)
    requires Consistent(s) && InRange(events, |s.slots|) && EachOnce(events)
    requires forall k :: 0 <= k < |events| ==> s.slots[events[k].index] == Pending
    ensures Consistent(Run(s, events))
    decreases |events|
  {
    if |events| > 0 {
      var e := events[0];
      var s1 := Complete(s, e);
      var rest := events[1..];
      CompletePreserves(s, e);
      assert forall k :: 0 <= k < |rest| ==> rest[k] == events[k + 1];
      forall k | 0 <= k < |rest|
        ensures s1.slots[rest[k].index] == Pending
      {
        assert events[0].index != events[k + 1].index;
      }
      RunPreserves(s1, rest);
    }
  }

  /** After a non-empty run, the counter shows the percentage settled; after an empty one, or without a counter element, it is untouched. */
  lemma {:induction false} RunPublishes(s: LoadState, events: seq<Completion>)
    requires InRange(events, |s.slots|) && s.counter.totalImages > 0
    ensures var r := Run(s, events);
      && r.counter.hasCounterElement == s.counter.hasCounterElement
      && (s.counter.hasCounterElement && |events| > 0 ==>
            r.counter.counterText == Some(Percent(s.counter.totalImages - r.counter.imagesToLoad, s.counter.totalImages)))
      && (!s.counter.hasCounterElement || |events| == 0 ==> r.counter.counterText == s.counter.counterText)
    decreases |events|
  {
    if |events| > 0 {
      RunPublishes(Complete(s, events[0]), events[1..]);
    }
  }

  /** After a run, a slot is settled exactly when it was before or some completion named it. */
  lemma {:induction false} RunSettles(s: LoadState, events: seq<Completion>, i: nat)
    requires InRange(events, |s.slots|) && s.counter.totalImages > 0 && i < |s.slots|
    ensures Run(s, events).slots[i].Done?
        <==> s.slots[i].Done? || exists k :: 0 <= k < |events| && events[k].index == i
    decreases |events|
  {
    if |events| > 0 {
      var s1 := Complete(s, events[0]);
      var rest := events[1..];
      RunSettles(s1, rest, i);
      if exists k :: 0 <= k < |rest| && rest[k].index == i {
        var k :| 0 <= k < |rest| && rest[k].index == i;
        assert events[k + 1].index == i;
      }
      if exists k :: 0 <= k < |events| && events[k].index == i {
        var k :| 0 <= k < |events| && events[k].index == i;
        if k > 0 {
          assert rest[k - 1].index == i;
        }
      }
    }
  }

  /**
   The percentages published along a run never decrease, stay in [0, 100],
   and the completion that settles the last image publishes 100.
   */
  lemma ProgressNeverDecreases(total: nat, events: seq<Completion>, j: nat, k: nat)
    requires total > 0 && InRange(events, total) && EachOnce(events)
    requires 0 < j <= k <= |events|
    ensures var pj := Run(Start(total, true), events[..j]).counter.counterText;
      var pk := Run(Start(total, true), events[..k]).counter.counterText;
      && pj.Some? && pk.Some?
      && 0 <= pj.value <= pk.value <= 100
      && (k == total ==> pk.value == 100)
  {
    assert InRange(events[..j], total) && EachOnce(events[..j]);
    assert InRange(events[..k], total) && EachOnce(events[..k]);
    RunFromStart(total, true, events[..j]);
    RunFromStart(total, true, events[..k]);
    PercentBounds(j, total);
    PercentBounds(k, total);
    PercentMonotonic(j, k, total);
  }

  /**
   `startAnimation` runs on the completion that settles the last image and on
   no other: before it the call count is zero, after it one.
   */
  lemma StartFiresOnLastCompletion(total: nat, hasCounterElement: bool, events: seq<Completion>, k: nat)
    requires total > 0 && InRange(events, total) && EachOnce(events) && k <= |events|
    ensures Run(Start(total, hasCounterElement), events[..k]).counter.startCalls
         == (if k == total then 1 else 0)
    ensures |events| == total ==>
      Run(Start(total, hasCounterElement), events).counter.startCalls == 1
  {
    assert InRange(events[..k], total) && EachOnce(events[..k]);
    RunFromStart(total, hasCounterElement, events[..k]);
    RunFromStart(total, hasCounterElement, events);
  }

  /**
   If `startAnimation` has run at the end of a run from the start, the run
   held one completion per image and every image has settled.
   */
  lemma StartedRunSettledAll(total: nat, hasCounterElement: bool, events: seq<Completion>)
    requires total > 0 && InRange(events, total) && EachOnce(events)
    requires Run(Start(total, hasCounterElement), events).counter.startCalls == 1
    ensures |events| == total
    ensures var r := Run(Start(total, hasCounterElement), events);
      |r.slots| == total && forall i :: 0 <= i < total ==> r.slots[i].Done?
  {
    var r := Run(Start(total, hasCounterElement), events);
    RunFromStart(total, hasCounterElement, events);
    StartedMeansAllSettled(r);
  }
}
