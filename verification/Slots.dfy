/** Slot reservation: the one-variable rule both pacers use, and the closed form
    over the whole arrival history that it computes. */
module Slots {

  /** When the next reservation may start; nothing is reserved before time 0. */
  function NextFree(arrivals: seq<int>, interval: nat): int
  {
    if arrivals == [] then 0 else Slot(arrivals, interval, |arrivals| - 1) + interval
  }

  /** The instant reserved for the k-th arrival: its own, or when the slot
      before it ends. */
  function Slot(arrivals: seq<int>, interval: nat, k: nat): int
    requires k < |arrivals|
    decreases k
  {
    var free := if k == 0 then 0 else Slot(arrivals, interval, k - 1) + interval;
    if arrivals[k] < free then free else arrivals[k]
  }

  predicate Timely(arrivals: seq<int>)
  {
    forall i :: 0 <= i < |arrivals| ==> arrivals[i] >= 0
  }

  /** What arrival j alone would force on arrival k. */
  function Pressure(arrivals: seq<int>, interval: nat, j: nat, k: nat): int
    requires j <= k < |arrivals|
  {
    arrivals[j] + (k - j) * interval
  }

  lemma PressureStep(arrivals: seq<int>, interval: nat, j: nat, k: nat)
    requires j <= k && k + 1 < |arrivals|
    ensures Pressure(arrivals, interval, j, k + 1) == Pressure(arrivals, interval, j, k) + interval
  {
    assert (k + 1 - j) * interval == (k - j) * interval + interval;
  }

  /** The k-th reserved instant is the maximum over j <= k of
      arrival(j) + (k - j) * interval. */
  lemma {:induction false} ClosedForm(arrivals: seq<int>, interval: nat, k: nat) returns (at: nat)
    requires Timely(arrivals) && k < |arrivals|
    ensures at <= k && Slot(arrivals, interval, k) == Pressure(arrivals, interval, at, k)
    ensures forall j :: 0 <= j <= k ==> Pressure(arrivals, interval, j, k) <= Slot(arrivals, interval, k)
  {
    if k == 0 {
      at := 0;
    } else {
      at := ClosedForm(arrivals, interval, k - 1);
      forall j | 0 <= j < k
        ensures Pressure(arrivals, interval, j, k) == Pressure(arrivals, interval, j, k - 1) + interval
      {
        PressureStep(arrivals, interval, j, k - 1);
      }
      if arrivals[k] >= Slot(arrivals, interval, k - 1) + interval {
        at := k;
      }
    }
  }

  /** No request leaves before it arrived or within an interval of the one before. */
  ghost predicate Respects(arrivals: seq<int>, interval: nat, times: seq<int>)
  {
    && |times| == |arrivals|
    && (forall k :: 0 <= k < |times| ==> times[k] >= arrivals[k] && times[k] >= 0)
    && forall k :: 0 < k < |times| ==> times[k] >= times[k - 1] + interval
  }

  ghost function Reserved(arrivals: seq<int>, interval: nat): seq<int>
  {
    seq(|arrivals|, k requires 0 <= k < |arrivals| => Slot(arrivals, interval, k))
  }

  /** The reserved instants are the earliest such schedule. */
  lemma EarliestSchedule(arrivals: seq<int>, interval: nat, times: seq<int>, k: nat)
    requires Timely(arrivals) && k < |arrivals|
    ensures Respects(arrivals, interval, Reserved(arrivals, interval))
    ensures Respects(arrivals, interval, times) ==> Slot(arrivals, interval, k) <= times[k]
  {
    forall i | 0 < i < |arrivals| ensures Slot(arrivals, interval, i) >= Slot(arrivals, interval, i - 1) + interval {
    }
    if Respects(arrivals, interval, times) {
      NoneEarlier(arrivals, interval, times, k);
    }
  }

  lemma {:induction false} NoneEarlier(arrivals: seq<int>, interval: nat, times: seq<int>, k: nat)
    requires Respects(arrivals, interval, times) && k < |arrivals|
    ensures Slot(arrivals, interval, k) <= times[k]
  {
    if k > 0 {
      NoneEarlier(arrivals, interval, times, k - 1);
    }
  }

  /** Reservations only depend on the arrivals up to their own. */
  lemma {:induction false} SlotOfPrefix(arrivals: seq<int>, more: seq<int>, interval: nat, k: nat)
    requires k < |arrivals|
    ensures Slot(arrivals + more, interval, k) == Slot(arrivals, interval, k)
  {
    if k > 0 {
      SlotOfPrefix(arrivals, more, interval, k - 1);
    }
  }

  /** Reservations lie at least their distance times the interval apart. */
  lemma {:induction false} SlotsSpaced(arrivals: seq<int>, interval: nat, i: nat, k: nat)
    requires i <= k < |arrivals|
    ensures Slot(arrivals, interval, k) >= Slot(arrivals, interval, i) + (k - i) * interval
  {
    if i < k {
      SlotsSpaced(arrivals, interval, i, k - 1);
      assert (k - i) * interval == (k - 1 - i) * interval + interval;
    }
  }

  ghost function InWindow(arrivals: seq<int>, interval: nat, from: int, width: nat): set<int>
  {
    set k | 0 <= k < |arrivals| && from <= Slot(arrivals, interval, k) <= from + width
  }

  lemma RangeSize(lo: int, hi: int, s: set<int>)
    requires forall k :: k in s ==> lo <= k <= hi
    ensures |s| <= if hi < lo then 0 else hi - lo + 1
    decreases hi - lo
  {
    if hi < lo {
      assert forall k :: k !in s;
      assert s == {};
    } else {
      RangeSize(lo, hi - 1, s - {hi});
      assert s <= (s - {hi}) + {hi};
    }
  }

  lemma ProductMonotone(a: nat, b: nat, c: nat)
    requires a <= b
    ensures a * c <= b * c
  {
    assert (b - a) * c >= 0;
  }

  lemma DivisionBound(n: nat, interval: nat, width: nat)
    requires interval > 0 && n * interval <= width
    ensures n <= width / interval
  {
    if n >= width / interval + 1 {
      ProductMonotone(width / interval + 1, n, interval);
      assert false;
    }
  }

  /** Any closed window of a given width holds at most width/interval + 1
      reservations, however the requests arrived. */
  lemma WindowBound(arrivals: seq<int>, interval: nat, from: int, width: nat)
    requires interval > 0
    ensures |InWindow(arrivals, interval, from, width)| <= width / interval + 1
  {
    var s := InWindow(arrivals, interval, from, width);
    if some :| some in s {
      var first := Least(s, 0, some);
      forall k | k in s ensures first <= k <= first + width / interval {
        SlotsSpaced(arrivals, interval, first, k);
        DivisionBound(k - first, interval, width);
      }
      RangeSize(first, first + width / interval, s);
    } else {
      assert forall k :: k !in s;
      assert s == {};
    }
  }

  /** The least member at or above a bound below which there is none. */
  function Least(s: set<int>, from: int, some: int): (m: int)
    requires some in s && from <= some && forall k :: k in s ==> from <= k
    ensures m in s && forall k :: k in s ==> m <= k
    decreases some - from
  {
    if from in s then from else Least(s, from + 1, some)
  }
}
