/**
 * The reentrancy counter `checkCurrentToilEndOrFailCounter` that gates the
 * `IsForbidden` cache: a prefix on `JobDriver.CheckCurrentToilEndOrFail`
 * increments it, and a postfix and a finalizer on the same method each
 * decrement it, resetting it to 0 whenever the decrement goes negative.
 * Increments and decrements are 32-bit and wrap around.
 */
module ToilCounter {

  import opened Int32Arith
  import opened Options

  /** `CheckCurrentToilEndOrFailPrefix`: entering the guarded region. */
  function Prefix(c: Int32): (r: Int32)
    ensures c < MaxValue ==> r == c + 1
    ensures c == MaxValue ==> r == MinValue
  {
    Wrap(c + 1)
  }

  /** `CheckCurrentToilEndOrFailPostfix`: decrement, reset to 0 on underflow. */
  function Postfix(c: Int32): (r: Int32)
    ensures 1 <= c ==> r == c - 1
    ensures MinValue < c <= 0 ==> r == 0
    ensures c == MinValue ==> r == MaxValue
    ensures 0 <= r
  {
    var v := Wrap(c - 1);
    if v < 0 then 0 else v
  }

  datatype Finalized<E> = Finalized(counter: Int32, exception: E)

  /**
   * `CheckCurrentToilEndOrFailFinalizer`: the same clamped decrement as the
   * postfix, handing the exception (or `null`) back unchanged.
   */
  function Finalizer<E>(c: Int32, exception: E): (r: Finalized<E>)
    ensures r.counter == Postfix(c)
    ensures r.exception == exception
  {
    var v := Wrap(c - 1);
    Finalized(if v < 0 then 0 else v, exception)
  }

  /** Caching in `ForbidUtility.IsForbidden` is active iff the counter is positive. */
  predicate CachingActive(c: Int32)
  {
    c > 0
  }

  // ---------------------------------------------------------------------
  // Arbitrary sequences of hook invocations
  // ---------------------------------------------------------------------

  /** One hook invocation, in no assumed order or pairing. */
  datatype Hook = PrefixRan | PostfixRan | FinalizerRan

  function Step(c: Int32, h: Hook): Int32
  {
    match h
    case PrefixRan => Prefix(c)
    case PostfixRan => Postfix(c)
    case FinalizerRan => Finalizer(c, ()).counter
  }

  /** The counter after running `hooks` in order, starting from `c`. */
  function Run(c: Int32, hooks: seq<Hook>): Int32
  {
    if |hooks| == 0 then c else Step(Run(c, hooks[..|hooks| - 1]), hooks[|hooks| - 1])
  }

  /** Number of increments in `hooks`. */
  function Enters(hooks: seq<Hook>): nat
  {
    if |hooks| == 0 then 0
    else Enters(hooks[..|hooks| - 1]) + (if hooks[|hooks| - 1] == PrefixRan then 1 else 0)
  }

  /** Number of decrements (postfix or finalizer) in `hooks`. */
  function Exits(hooks: seq<Hook>): nat
  {
    if |hooks| == 0 then 0
    else Exits(hooks[..|hooks| - 1]) + (if hooks[|hooks| - 1] == PrefixRan then 0 else 1)
  }

  /** No increment in `hooks` meets a counter already at `int.MaxValue`, so none wraps. */
  ghost predicate NoWrap(c: Int32, hooks: seq<Hook>)
  {
    forall k :: 0 <= k < |hooks| && hooks[k] == PrefixRan ==> Run(c, hooks[..k]) < MaxValue
  }

  /** A sequence that never wraps has prefixes that never wrap. */
  lemma NoWrapOfPrefix(c: Int32, hooks: seq<Hook>, n: nat)
    requires n <= |hooks|
    requires NoWrap(c, hooks)
    ensures NoWrap(c, hooks[..n])
  {
    forall k | 0 <= k < n && hooks[..n][k] == PrefixRan
      ensures Run(c, hooks[..n][..k]) < MaxValue
    {
      assert hooks[..n][..k] == hooks[..k];
    }
  }

  /**
   * Starting from a non-negative counter, any sequence of hooks in which no
   * increment meets `int.MaxValue` keeps the counter between 0 and the start
   * plus the number of increments.
   */
  lemma {:induction false} RunStaysNonNegative(c: Int32, hooks: seq<Hook>)
    requires 0 <= c
    requires NoWrap(c, hooks)
    ensures 0 <= Run(c, hooks) <= c + Enters(hooks)
  {
    if |hooks| > 0 {
      var n := |hooks| - 1;
      NoWrapOfPrefix(c, hooks, n);
      RunStaysNonNegative(c, hooks[..n]);
    }
  }

  /** The counter is non-negative after every prefix of such a sequence. */
  lemma NeverNegative(c: Int32, hooks: seq<Hook>)
    requires 0 <= c
    requires NoWrap(c, hooks)
    ensures forall k :: 0 <= k <= |hooks| ==> 0 <= Run(c, hooks[..k])
  {
    forall k | 0 <= k <= |hooks|
      ensures 0 <= Run(c, hooks[..k])
    {
      NoWrapOfPrefix(c, hooks, k);
      RunStaysNonNegative(c, hooks[..k]);
    }
  }

  /**
   * The counter is at least the start plus the increments minus the
   * decrements: the reset to 0 can only raise it.
   */
  lemma {:induction false} RunAtLeastUnmatched(c: Int32, hooks: seq<Hook>)
    requires 0 <= c
    requires NoWrap(c, hooks)
    ensures Run(c, hooks) >= c + Enters(hooks) - Exits(hooks)
  {
    if |hooks| > 0 {
      var n := |hooks| - 1;
      NoWrapOfPrefix(c, hooks, n);
      RunAtLeastUnmatched(c, hooks[..n]);
      RunStaysNonNegative(c, hooks[..n]);
    }
  }

  /** No decrement in `hooks` ever meets a counter below 1. */
  ghost predicate NeverResets(c: Int32, hooks: seq<Hook>)
  {
    forall k :: 0 <= k < |hooks| && hooks[k] != PrefixRan ==> Run(c, hooks[..k]) >= 1
  }

  /**
   * When no decrement meets an idle counter, the counter is exactly the start
   * plus the unmatched increments.
   */
  lemma {:induction false} RunCountsUnmatched(c: Int32, hooks: seq<Hook>)
    requires 0 <= c
    requires NoWrap(c, hooks)
    requires NeverResets(c, hooks)
    ensures Run(c, hooks) == c + Enters(hooks) - Exits(hooks)
  {
    if |hooks| > 0 {
      var n := |hooks| - 1;
      var init := hooks[..n];
      forall k | 0 <= k < |init| && init[k] != PrefixRan
        ensures Run(c, init[..k]) >= 1
      {
        assert init[..k] == hooks[..k];
      }
      NoWrapOfPrefix(c, hooks, n);
      RunCountsUnmatched(c, init);
      RunStaysNonNegative(c, init);
    }
  }

  // ---------------------------------------------------------------------
  // Whole guarded regions
  // ---------------------------------------------------------------------

  /**
   * One event of the guarded region: entering it, or leaving it either
   * normally or by an exception. The interception layer runs the postfix only
   * on a normal exit and the finalizer on every exit, normal or not.
   */
  datatype RegionEvent = Open | Close(threw: bool)

  /** Leaving the region as the hooks are written: postfix (if normal), then finalizer. */
  function CloseAsWritten(c: Int32, threw: bool): (r: Int32)
    ensures threw ==> r == Postfix(c)
    ensures !threw ==> r == Postfix(Postfix(c))
  {
    if threw then Finalizer(c, Some(())).counter
    else Finalizer(Postfix(c), Option<()>.None).counter
  }

  /**
   * The finalizer as its comment intends it ("ensuring decrement on
   * exception"): it decrements only when an exception is passed, so that every
   * exit path decrements exactly once.
   */
  function FinalizerCorrected<E>(c: Int32, exception: Option<E>): (r: Finalized<Option<E>>)
    ensures exception.Some? ==> r.counter == Postfix(c)
    ensures exception.None? ==> r.counter == c
    ensures r.exception == exception
  {
    if exception.Some? then Finalized(Postfix(c), exception) else Finalized(c, exception)
  }

  /** Leaving the region with the corrected finalizer: exactly one decrement. */
  function CloseCorrected(c: Int32, threw: bool): (r: Int32)
    ensures r == Postfix(c)
  {
    if threw then FinalizerCorrected(c, Some(())).counter
    else FinalizerCorrected(Postfix(c), Option<()>.None).counter
  }

  function RegionStep(c: Int32, e: RegionEvent, corrected: bool): Int32
  {
    match e
    case Open => Prefix(c)
    case Close(threw) => if corrected then CloseCorrected(c, threw) else CloseAsWritten(c, threw)
  }

  function RunRegions(c: Int32, events: seq<RegionEvent>, corrected: bool): Int32
  {
    if |events| == 0 then c
    else RegionStep(RunRegions(c, events[..|events| - 1], corrected), events[|events| - 1], corrected)
  }

  /** Nesting depth after `events`: regions entered minus regions left. */
  function Depth(events: seq<RegionEvent>): int
  {
    if |events| == 0 then 0
    else Depth(events[..|events| - 1]) + (if events[|events| - 1].Open? then 1 else -1)
  }

  /**
   * Every exit matches an earlier entry, and the nesting never gets deep
   * enough for an increment to meet `int.MaxValue`.
   */
  ghost predicate WellNested(events: seq<RegionEvent>)
  {
    forall k :: 0 <= k <= |events| ==> 0 <= Depth(events[..k]) <= MaxValue
  }

  /** Prefixes of a well-nested sequence are well nested. */
  lemma WellNestedOfPrefix(events: seq<RegionEvent>, n: nat)
    requires n <= |events|
    requires WellNested(events)
    ensures WellNested(events[..n])
  {
    forall k | 0 <= k <= n
      ensures 0 <= Depth(events[..n][..k]) <= MaxValue
    {
      assert events[..n][..k] == events[..k];
    }
  }

  /**
   * With the corrected finalizer, over well-nested regions the counter is
   * exactly the nesting depth, so caching stays active while any region is
   * still open.
   */
  lemma {:induction false} CorrectedCounterIsDepth(events: seq<RegionEvent>)
    requires WellNested(events)
    ensures RunRegions(0, events, true) == Depth(events)
    ensures CachingActive(RunRegions(0, events, true)) <==> Depth(events) > 0
  {
    var n := |events|;
    if n > 0 {
      WellNestedOfPrefix(events, n - 1);
      CorrectedCounterIsDepth(events[..n - 1]);
      assert events[..n] == events;
    }
  }

  /**
   * As written, over well-nested regions the counter never exceeds the
   * nesting depth: the extra decrement of a normal exit can switch caching off
   * inside a region, but never leaves it on outside every region.
   */
  lemma {:induction false} AsWrittenCounterAtMostDepth(events: seq<RegionEvent>)
    requires WellNested(events)
    ensures 0 <= RunRegions(0, events, false) <= Depth(events)
    ensures Depth(events) == 0 ==> !CachingActive(RunRegions(0, events, false))
  {
    var n := |events|;
    if n > 0 {
      WellNestedOfPrefix(events, n - 1);
      AsWrittenCounterAtMostDepth(events[..n - 1]);
      assert events[..n] == events;
    }
  }

  // ---------------------------------------------------------------------
  // Regions in terms of hook invocations
  // ---------------------------------------------------------------------

  /** The hooks one region event runs, in the order the interception layer runs them. */
  function HooksOf(e: RegionEvent): seq<Hook>
  {
    match e
    case Open => [PrefixRan]
    case Close(threw) => if threw then [FinalizerRan] else [PostfixRan, FinalizerRan]
  }

  /** The hook invocations of a whole sequence of region events. */
  function Flatten(events: seq<RegionEvent>): seq<Hook>
  {
    if |events| == 0 then []
    else Flatten(events[..|events| - 1]) + HooksOf(events[|events| - 1])
  }

  /** Running two hook sequences one after the other. */
  lemma {:induction false} RunAppend(c: Int32, a: seq<Hook>, b: seq<Hook>)
    ensures Run(c, a + b) == Run(Run(c, a), b)
    decreases |b|
  {
    if |b| == 0 {
      assert a + b == a;
    } else {
      var n := |b| - 1;
      assert (a + b)[..|a + b| - 1] == a + b[..n];
      RunAppend(c, a, b[..n]);
    }
  }

  /**
   * The region layer as written is exactly the hook layer run on the hooks
   * each event invokes, so every bound proved for arbitrary hook sequences
   * applies to whole regions.
   */
  lemma {:induction false} RegionsAreHooks(c: Int32, events: seq<RegionEvent>)
    ensures RunRegions(c, events, false) == Run(c, Flatten(events))
  {
    var n := |events|;
    if n > 0 {
      var init := events[..n - 1];
      RegionsAreHooks(c, init);
      RunAppend(c, Flatten(init), HooksOf(events[n - 1]));
      var x := Run(c, Flatten(init));
      assert [PostfixRan, FinalizerRan][..1] == [PostfixRan];
      assert [PostfixRan][..0] == [];
      assert [FinalizerRan][..0] == [];
      assert Run(x, [PostfixRan]) == Postfix(x);
      assert Run(x, [PostfixRan, FinalizerRan]) == Step(Run(x, [PostfixRan]), FinalizerRan);
    }
  }
  /**
   * As written, a normal exit from a nested region decrements twice: after
   * entering twice and leaving the inner region normally, the counter is 0 and
   * caching is off although the outer region is still open.
   */
  lemma NestedNormalExitDisablesCaching()
    ensures Depth([Open, Open, Close(false)]) == 1
    ensures RunRegions(0, [Open, Open, Close(false)], false) == 0
    ensures RunRegions(0, [Open, Open, Close(false)], true) == 1
  {
    var evs := [Open, Open, Close(false)];
    assert evs[..2][..1] == [Open];
    assert evs[..2] == [Open, Open];
    assert [Open][..0] == [];
  }

}
