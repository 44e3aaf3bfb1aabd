/** The rate limiter of the parallel send path: one slot every `1 / rate` seconds,
    reserved under a lock by any number of callers. Time is exact; a run is the
    sequence of clock readings taken under the lock, in any order whatever. */
module RateLimit {
  import opened Basics

  /** The slot reserved at clock reading `now`, when `next` is the earliest free one. */
  function SlotFor(next: real, now: real): real {
    if next > now then next else now
  }

  /** The earliest free slot after the calls that read `nows`. */
  function NextSlot(interval: real, nows: seq<real>): real {
    if nows == [] then 0.0
    else SlotFor(NextSlot(interval, nows[..|nows| - 1]), nows[|nows| - 1]) + interval
  }

  /** The slot reserved by call `n`. */
  function Slot(interval: real, nows: seq<real>, n: nat): real
    requires n < |nows|
  {
    SlotFor(NextSlot(interval, nows[..n]), nows[n])
  }

  class RateLimiter {
    const interval: real
    var nextSlot: real
    /** Every clock reading taken under the lock so far. */
    ghost var readings: seq<real>

    ghost predicate Valid()
      reads this
    {
      interval > 0.0 && nextSlot == NextSlot(interval, readings)
    }

    constructor (rate: real)
      requires rate > 0.0
      ensures Valid() && readings == [] && interval == 1.0 / rate
    {
      interval := 1.0 / rate;
      nextSlot := 0.0;
      readings := [];
    }

    /** Reserve the next slot at reading `now`, then say how long to sleep given the
        later reading `after`. */
    method Acquire(now: real, after: real) returns (slot: real, sleep: real)
      requires Valid()
      modifies this
      ensures Valid() && readings == old(readings) + [now]
      ensures slot == Slot(interval, readings, |readings| - 1)
      ensures sleep >= 0.0 && after + sleep == if slot > after then slot else after
    {
      slot := SlotFor(nextSlot, now);
      nextSlot := slot + interval;
      readings := readings + [now];
      assert readings[..|readings| - 1] == old(readings);
      sleep := if slot - after > 0.0 then slot - after else 0.0;
    }
  }

  // --- closed form ----------------------------------------------------------------

  /** The time `k` intervals take. */
  function Spans(k: int, interval: real): real { k as real * interval }

  lemma OneMoreSpan(interval: real, k: int)
    ensures Spans(k, interval) == Spans(k - 1, interval) + interval
    ensures Spans(0, interval) == 0.0
  {
    assert k as real == (k - 1) as real + 1.0;
  }

  /** What call `j` alone forces on call `n`. */
  function Push(interval: real, nows: seq<real>, j: nat, n: nat): real
    requires j <= n < |nows|
  {
    nows[j] + Spans(n - j, interval)
  }

  lemma SlotUnfolds(interval: real, nows: seq<real>, n: nat)
    requires n < |nows|
    ensures n == 0 ==> Slot(interval, nows, n) == SlotFor(0.0, nows[0])
    ensures n > 0 ==> Slot(interval, nows, n) == SlotFor(Slot(interval, nows, n - 1) + interval, nows[n])
  {
    if n > 0 {
      assert nows[..n][..n - 1] == nows[..n - 1];
    }
  }

  /** The n-th slot is the maximum, over every earlier call and the initial slot 0,
      of what that call forces on it: an upper bound of all of them, and one of them. */
  lemma {:induction false} SlotIsTheMaximum(interval: real, nows: seq<real>, n: nat)
    requires n < |nows| && interval > 0.0
    ensures forall j :: 0 <= j <= n ==> Slot(interval, nows, n) >= Push(interval, nows, j, n)
    ensures Slot(interval, nows, n) >= Spans(n, interval)
    ensures Slot(interval, nows, n) == Spans(n, interval)
            || exists j :: 0 <= j <= n && Slot(interval, nows, n) == Push(interval, nows, j, n)
  {
    hide Spans, Slot;
    SlotUnfolds(interval, nows, n);
    OneMoreSpan(interval, n);
    assert Push(interval, nows, n, n) == nows[n];
    if n > 0 {
      SlotIsTheMaximum(interval, nows, n - 1);
      forall j | 0 <= j < n
        ensures Push(interval, nows, j, n) == Push(interval, nows, j, n - 1) + interval
      {
        OneMoreSpan(interval, n - j);
      }
      if Slot(interval, nows, n) != nows[n] && Slot(interval, nows, n) != Spans(n, interval) {
        var j :| 0 <= j <= n - 1 && Slot(interval, nows, n - 1) == Push(interval, nows, j, n - 1);
        assert Slot(interval, nows, n) == Push(interval, nows, j, n);
      }
    }
  }

  /** A schedule the limiter could have handed out: never before the caller arrived,
      never before time 0, and one interval apart. */
  ghost predicate Feasible(interval: real, nows: seq<real>, t: seq<real>) {
    && |t| == |nows|
    && (|t| > 0 ==> t[0] >= 0.0)
    && (forall i :: 0 <= i < |t| ==> t[i] >= nows[i])
    && (forall i :: 0 < i < |t| ==> t[i] >= t[i - 1] + interval)
  }

  function Slots(interval: real, nows: seq<real>): (t: seq<real>)
    ensures |t| == |nows|
    ensures forall i :: 0 <= i < |t| ==> t[i] == Slot(interval, nows, i)
  {
    seq(|nows|, i requires 0 <= i < |nows| => Slot(interval, nows, i))
  }

  /** The slots handed out are a feasible schedule, and the pointwise least one. */
  lemma SlotsAreOptimal(interval: real, nows: seq<real>)
    requires interval > 0.0
    ensures Feasible(interval, nows, Slots(interval, nows))
    ensures forall t :: Feasible(interval, nows, t) ==>
                          forall i :: 0 <= i < |t| ==> Slot(interval, nows, i) <= t[i]
  {
    forall i | 0 <= i < |nows|
      ensures Slot(interval, nows, i) >= nows[i]
      ensures i == 0 ==> Slot(interval, nows, i) >= 0.0
      ensures i > 0 ==> Slot(interval, nows, i) >= Slot(interval, nows, i - 1) + interval
    {
      SlotUnfolds(interval, nows, i);
    }
    forall t, i | Feasible(interval, nows, t) && 0 <= i < |t|
      ensures Slot(interval, nows, i) <= t[i]
    {
      NoEarlierSlot(interval, nows, t, i);
    }
  }

  lemma {:induction false} NoEarlierSlot(interval: real, nows: seq<real>, t: seq<real>, n: nat)
    requires interval > 0.0 && Feasible(interval, nows, t) && n < |t|
    ensures Slot(interval, nows, n) <= t[n]
  {
    SlotUnfolds(interval, nows, n);
    if n > 0 {
      NoEarlierSlot(interval, nows, t, n - 1);
    }
  }

  // --- how many starts fit in a window ---------------------------------------------------

  function Ceil(x: real): int { -((-x).Floor) }

  /** Positions of the instants that fall in the half-open window `[from, to)`. */
  ghost function InWindow(t: seq<real>, from: real, to: real): set<nat> {
    set i: nat | i < |t| && from <= t[i] < to
  }

  lemma {:induction false} SpacedApart(interval: real, t: seq<real>, i: nat, j: nat)
    requires forall k :: 0 < k < |t| ==> t[k] >= t[k - 1] + interval
    requires i <= j < |t|
    ensures t[j] >= t[i] + Spans(j - i, interval)
    decreases j - i
  {
    hide Spans;
    OneMoreSpan(interval, j - i);
    if i < j {
      SpacedApart(interval, t, i, j - 1);
    }
  }

  lemma {:induction false} SizeOfRange(s: set<nat>, lo: int, hi: int)
    requires forall i :: i in s ==> lo <= i < hi
    requires lo <= hi
    ensures |s| <= hi - lo
    decreases hi - lo
  {
    if lo == hi {
      assert s == {};
    } else {
      SizeOfRange(s - {hi - 1}, lo, hi - 1);
    }
  }

  /** Intervals of `1 / rate` that fit strictly into `l` are fewer than ceil(l * rate). */
  lemma SpansThatFit(k: int, l: real, rate: real)
    requires rate > 0.0
    requires Spans(k, 1.0 / rate) < l
    ensures k < Ceil(l * rate)
  {
    var x := 1.0 / rate;
    assert x * rate == 1.0;
    assert Spans(k, x) * rate == k as real * (x * rate);
    assert (l - Spans(k, x)) * rate > 0.0;
  }

  /** Slots one interval apart: a window of length `l` holds at most ceil(l * rate). */
  lemma WindowHoldsAtMost(rate: real, t: seq<real>, from: real, l: real)
    requires rate > 0.0 && l > 0.0
    requires forall k :: 0 < k < |t| ==> t[k] >= t[k - 1] + 1.0 / rate
    ensures |InWindow(t, from, from + l)| <= Ceil(l * rate)
  {
    var s := InWindow(t, from, from + l);
    if s == {} {
      assert l * rate > 0.0;
    } else {
      hide Spans, Ceil;
      var lo := Least(s);
      var bound := Ceil(l * rate);
      assert lo in s;
      forall i | i in s ensures lo <= i < lo + bound {
        SpacedApart(1.0 / rate, t, lo, i);
        SpansThatFit(i - lo, l, rate);
      }
      SizeOfRange(s, lo, lo + bound);
    }
  }

  ghost function Least(s: set<nat>): (m: nat)
    requires s != {}
    ensures m in s && forall i :: i in s ==> m <= i
    decreases |s|
  {
    var x :| x in s;
    var rest := s - {x};
    assert s == rest + {x};
    if rest == {} then x
    else
      var m := Least(rest);
      if x < m then x else m
  }

  /** Request starts: one per slot, never before it, at most `d` after it. */
  ghost predicate StartsLag(rate: real, nows: seq<real>, starts: seq<real>, d: real)
    requires rate > 0.0
  {
    && |starts| == |nows|
    && forall i :: 0 <= i < |starts| ==>
                     Slot(1.0 / rate, nows, i) <= starts[i] <= Slot(1.0 / rate, nows, i) + d
  }

  /** A window of starts reaches back `d` further into the slots. */
  lemma StartsToSlots(interval: real, nows: seq<real>, starts: seq<real>, d: real, from: real, to: real)
    requires |starts| == |nows|
    requires forall i :: 0 <= i < |starts| ==> Slot(interval, nows, i) <= starts[i] <= Slot(interval, nows, i) + d
    ensures |InWindow(starts, from, to)| <= |InWindow(Slots(interval, nows), from - d, to)|
  {
    hide Slot;
    SubsetSize(InWindow(starts, from, to), InWindow(Slots(interval, nows), from - d, to));
  }

  /** Any one-second window holds at most ceil((1 + d) * rate) starts, for any number
      of callers; with `d = 0` these are the slots themselves. */
  lemma SlidingWindowBound(rate: real, nows: seq<real>, starts: seq<real>, d: real, from: real)
    requires rate > 0.0 && d >= 0.0 && StartsLag(rate, nows, starts, d)
    ensures |InWindow(starts, from, from + 1.0)| <= Ceil((1.0 + d) * rate)
  {
    hide Slot, InWindow, Slots, Feasible;
    Reciprocal(rate);
    SlotsAreOptimal(1.0 / rate, nows);
    StartsToSlots(1.0 / rate, nows, starts, d, from, from + 1.0);
    SlotWindow(rate, nows, from - d, 1.0 + d);
    assert from - d + (1.0 + d) == from + 1.0;
  }

  /** Slots alone: any window of length `l` holds at most ceil(l * rate) of them. */
  lemma SlotWindow(rate: real, nows: seq<real>, from: real, l: real)
    requires rate > 0.0 && l > 0.0
    ensures |InWindow(Slots(1.0 / rate, nows), from, from + l)| <= Ceil(l * rate)
  {
    hide Slot, Ceil;
    Reciprocal(rate);
    SlotsAreOptimal(1.0 / rate, nows);
    WindowHoldsAtMost(rate, Slots(1.0 / rate, nows), from, l);
  }

  lemma Reciprocal(rate: real)
    requires rate > 0.0
    ensures 1.0 / rate > 0.0 && rate * (1.0 / rate) == 1.0
  {
  }

  // --- exactly when the documented bound holds -----------------------------------------------

  /** A run, and a one-second window, with more starts than the rate. */
  ghost predicate Exceeds(rate: real, d: real, nows: seq<real>, starts: seq<real>, from: real)
    requires rate > 0.0
  {
    StartsLag(rate, nows, starts, d) && |InWindow(starts, from, from + 1.0)| as real > rate
  }

  predicate IsWhole(x: real) { x.Floor as real == x }

  /** "Never more than `rate` starts in any one-second window" holds of every run if
      and only if starts do not lag their slots and the rate is a whole number. */
  lemma DocumentedBoundIff(rate: real, d: real)
    requires rate > 0.0 && d >= 0.0
    ensures (forall nows, starts, from :: !Exceeds(rate, d, nows, starts, from)) <==> d == 0.0 && IsWhole(rate)
  {
    hide StartsLag, Ceil, IsWhole;
    if d == 0.0 && IsWhole(rate) {
      forall nows, starts, from ensures !Exceeds(rate, d, nows, starts, from) {
        if StartsLag(rate, nows, starts, d) {
          SlidingWindowBound(rate, nows, starts, d, from);
          WholeCeil(rate, d);
        }
      }
    } else if !IsWhole(rate) {
      FractionalRateExceeds(rate, d);
    } else {
      LaggingStartExceeds(rate, d);
    }
  }

  lemma WholeCeil(rate: real, d: real)
    requires d == 0.0 && IsWhole(rate)
    ensures Ceil((1.0 + d) * rate) as real == rate
  {
    var k := rate.Floor;
    assert 1.0 + d == 1.0;
    assert rate == k as real;
    assert (-(k as real)).Floor == -k;
  }

  /** Everyone arrives at time 0: the slots are the multiples of the interval. */
  lemma {:induction false} BurstSlots(rate: real, count: nat, n: nat)
    requires rate > 0.0 && n < count
    ensures Slot(1.0 / rate, seq(count, i => 0.0), n) == Spans(n, 1.0 / rate) >= 0.0
  {
    hide Slot, Spans;
    var nows := seq(count, i => 0.0);
    Reciprocal(rate);
    SlotUnfolds(1.0 / rate, nows, n);
    OneMoreSpan(1.0 / rate, n);
    if n > 0 {
      BurstSlots(rate, count, n - 1);
    }
  }

  lemma SpansBelowOne(n: int, rate: real)
    requires rate > 0.0
    ensures n as real < rate ==> Spans(n, 1.0 / rate) < 1.0
    ensures n as real == rate ==> Spans(n, 1.0 / rate) == 1.0
  {
    var x := 1.0 / rate;
    Reciprocal(rate);
    if n as real < rate {
      Product(rate - n as real, x);
      assert (rate - n as real) * x == rate * x - n as real * x;
    }
  }

  lemma Product(a: real, b: real)
    requires a > 0.0 && b > 0.0
    ensures a * b > 0.0
  {
  }

  lemma FractionalRateExceeds(rate: real, d: real)
    requires rate > 0.0 && d >= 0.0 && !IsWhole(rate)
    ensures exists nows, starts, from :: Exceeds(rate, d, nows, starts, from)
  {
    hide Slot, Spans;
    var count := rate.Floor + 1;
    var nows := seq(count, i => 0.0);
    var starts := Slots(1.0 / rate, nows);
    forall i | 0 <= i < count ensures 0.0 <= starts[i] < 1.0 {
      BurstSlots(rate, count, i);
      SpansBelowOne(i, rate);
    }
    AllInWindow(starts, 0.0);
    assert Exceeds(rate, d, nows, starts, 0.0);
  }

  lemma {:induction false} AllInWindow(t: seq<real>, from: real)
    requires forall i :: 0 <= i < |t| ==> from <= t[i] < from + 1.0
    ensures |InWindow(t, from, from + 1.0)| == |t|
  {
    var to := from + 1.0;
    if t == [] {
      assert InWindow(t, from, to) == {};
    } else {
      var n := |t| - 1;
      AllInWindow(t[..n], from);
      OneMoreInWindow(t, from, to);
    }
  }

  lemma OneMoreInWindow(t: seq<real>, from: real, to: real)
    requires t != [] && from <= t[|t| - 1] < to
    ensures |InWindow(t, from, to)| == |InWindow(t[..|t| - 1], from, to)| + 1
  {
    var n := |t| - 1;
    assert InWindow(t, from, to) == InWindow(t[..n], from, to) + {n};
  }

  /** The first starts late, the one after a full second does not. */
  lemma LaggingStartExceeds(rate: real, d: real)
    requires rate > 0.0 && d > 0.0 && IsWhole(rate)
    ensures exists nows, starts, from :: Exceeds(rate, d, nows, starts, from)
  {
    hide Slot, Spans;
    var x := 1.0 / rate;
    Reciprocal(rate);
    var late := if d < x then d else x;
    var last := rate.Floor;
    var nows := seq(last + 1, i => 0.0);
    var slots := Slots(x, nows);
    var starts := slots[0 := late];
    OneMoreSpan(x, 1);
    BurstSlots(rate, last + 1, 0);
    forall i | 0 <= i <= last ensures late <= starts[i] < late + 1.0 {
      SpansBelowOne(i, rate);
      BurstSlots(rate, last + 1, i);
      if i > 0 {
        OneMoreSpan(x, i);
        BurstSlots(rate, last + 1, i - 1);
      } else {
        OneMoreSpan(x, last);
        SpansBelowOne(last, rate);
        BurstSlots(rate, last + 1, last - 1);
      }
    }
    AllInWindow(starts, late);
    assert Exceeds(rate, d, nows, starts, late);
  }
}
