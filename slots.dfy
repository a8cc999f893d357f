/** The free-slot computation as a specification: the candidates the loop
    of getAvailability walks through, the free ones among them, and what
    the result is promised to be. */
module Slots {
  import opened Intervals
  import opened Busy

  /** The slot tried on iteration `k` of the loop, where
      `t == workStart + k * slot`. */
  function Candidate(workStart: Instant, slot: int, k: nat): Interval {
    Interval(workStart + k * slot, workStart + k * slot + slot)
  }

  /** How many iterations the loop makes: the number of whole slots that
      fit between `workStart` and `workEnd`. */
  function SlotCount(workStart: Instant, workEnd: Instant, slot: int): nat
    requires slot > 0
  {
    if workEnd < workStart then 0 else (workEnd - workStart) / slot
  }

  /** The free candidates among the first `n`, in the order the loop
      appends them. */
  function FreeAmong(workStart: Instant, slot: int, busy: seq<CleanEntry>, n: nat): seq<Interval> {
    if n == 0 then []
    else
      var c := Candidate(workStart, slot, n - 1);
      FreeAmong(workStart, slot, busy, n - 1) + (if Blocked(c, busy) then [] else [c])
  }

  /** The free slots of the working window. */
  function FreeSlots(workStart: Instant, workEnd: Instant, slot: int, busy: seq<CleanEntry>): seq<Interval>
    requires slot > 0
  {
    FreeAmong(workStart, slot, busy, SlotCount(workStart, workEnd, slot))
  }

  /** Multiplying by a non-negative factor preserves `<=`. */
  lemma MulMono(a: int, b: int, c: int)
    requires a <= b && c >= 0
    ensures a * c <= b * c
  {
  }

  /** The loop condition `t + slot <= workEnd` holds on iteration `k`
      exactly when `k` is below the slot count: the loop stops before a
      partial trailing slot. */
  lemma FitsIffBelowCount(workStart: Instant, workEnd: Instant, slot: int, k: nat)
    requires slot > 0
    ensures Candidate(workStart, slot, k).end <= workEnd <==> k < SlotCount(workStart, workEnd, slot)
  {
    var n := SlotCount(workStart, workEnd, slot);
    assert (k + 1) * slot == k * slot + slot;
    MulMono(0, k, slot);
    if workStart <= workEnd {
      var w := workEnd - workStart;
      assert n * slot <= w < (n + 1) * slot;
      if k < n {
        MulMono(k + 1, n, slot);
      } else {
        MulMono(n + 1, k + 1, slot);
      }
    }
  }

  /** Earlier candidates end no later than later ones start. */
  lemma CandidatesOrdered(workStart: Instant, slot: int, i: nat, j: nat)
    requires slot > 0 && i < j
    ensures Candidate(workStart, slot, i).end <= Candidate(workStart, slot, j).start
  {
    assert (i + 1) * slot == i * slot + slot;
    MulMono(i + 1, j, slot);
  }

  /** Everything appended is an unblocked candidate of an earlier
      iteration. */
  lemma {:induction false} FreeAmongSound(workStart: Instant, slot: int, busy: seq<CleanEntry>, n: nat)
    ensures forall x :: x in FreeAmong(workStart, slot, busy, n) ==>
      (exists k :: 0 <= k < n && x == Candidate(workStart, slot, k)) && !Blocked(x, busy)
  {
    if n > 0 {
      FreeAmongSound(workStart, slot, busy, n - 1);
    }
  }

  /** Every unblocked candidate of an earlier iteration was appended. */
  lemma {:induction false} FreeAmongComplete(workStart: Instant, slot: int, busy: seq<CleanEntry>, n: nat)
    ensures forall k :: 0 <= k < n && !Blocked(Candidate(workStart, slot, k), busy) ==>
      Candidate(workStart, slot, k) in FreeAmong(workStart, slot, busy, n)
  {
    if n > 0 {
      FreeAmongComplete(workStart, slot, busy, n - 1);
    }
  }

  /** The loop only appends: what it has after `m` iterations is a prefix
      of what it has after `n >= m`. */
  lemma {:induction false} FreeAmongPrefix(workStart: Instant, slot: int, busy: seq<CleanEntry>, m: nat, n: nat)
    requires m <= n
    ensures FreeAmong(workStart, slot, busy, m) <= FreeAmong(workStart, slot, busy, n)
  {
    if m < n {
      FreeAmongPrefix(workStart, slot, busy, m, n - 1);
    }
  }

  /** Each interval ends no later than every later one starts. */
  predicate Chained(r: seq<Interval>) {
    forall i, j :: 0 <= i < j < |r| ==> r[i].end <= r[j].start
  }

  /** Starts strictly increase and no two intervals overlap. */
  predicate Increasing(r: seq<Interval>) {
    forall i, j :: 0 <= i < j < |r| ==> r[i].start < r[j].start && !Overlaps(r[i], r[j])
  }

  /** Every interval lasts exactly `slot`. */
  predicate AllLast(r: seq<Interval>, slot: int) {
    forall i :: 0 <= i < |r| ==> r[i].end - r[i].start == slot
  }

  /** Every interval lies within `[workStart, workEnd]`. */
  predicate AllWithin(r: seq<Interval>, workStart: Instant, workEnd: Instant) {
    forall i :: 0 <= i < |r| ==> workStart <= r[i].start && r[i].end <= workEnd
  }

  /** No interval overlaps a busy entry whose two boundaries parse. */
  ghost predicate AvoidsBusy(r: seq<Interval>, busy: seq<CleanEntry>) {
    forall x, s, e :: x in r && BusyEntry(At(s), At(e)) in busy ==> !Overlaps(x, Interval(s, e))
  }

  /** Each interval starts where the previous one ends. */
  predicate Contiguous(r: seq<Interval>) {
    forall k :: 0 < k < |r| ==> r[k - 1].end == r[k].start
  }

  /** What the loop has appended is in chronological order and pairwise
      disjoint. */
  lemma {:induction false} FreeAmongChained(workStart: Instant, slot: int, busy: seq<CleanEntry>, n: nat)
    requires slot > 0
    ensures Chained(FreeAmong(workStart, slot, busy, n))
  {
    if n > 0 {
      var prev := FreeAmong(workStart, slot, busy, n - 1);
      var c := Candidate(workStart, slot, n - 1);
      FreeAmongChained(workStart, slot, busy, n - 1);
      FreeAmongSound(workStart, slot, busy, n - 1);
      forall i | 0 <= i < |prev|
        ensures prev[i].end <= c.start
      {
        assert prev[i] in prev;
        var k :| 0 <= k < n - 1 && prev[i] == Candidate(workStart, slot, k);
        CandidatesOrdered(workStart, slot, k, n - 1);
      }
      var r := FreeAmong(workStart, slot, busy, n);
      forall i, j | 0 <= i < j < |r|
        ensures r[i].end <= r[j].start
      {
        assert r[i] == prev[i];
        if j < |prev| {
          assert r[j] == prev[j];
          assert prev[i].end <= prev[j].start;
        } else {
          assert r[j] == c;
        }
      }
    }
  }

  /** Completeness and soundness together: a slot is returned exactly when
      it is one of the candidates that fit in the window and no busy entry
      blocks it. */
  lemma FreeSlotsExactlyUnblocked(workStart: Instant, workEnd: Instant, slot: int, busy: seq<CleanEntry>)
    requires slot > 0
    ensures forall x :: x in FreeSlots(workStart, workEnd, slot, busy) <==>
      (exists k :: 0 <= k < SlotCount(workStart, workEnd, slot) && x == Candidate(workStart, slot, k)) && !Blocked(x, busy)
  {
    var n := SlotCount(workStart, workEnd, slot);
    FreeAmongSound(workStart, slot, busy, n);
    FreeAmongComplete(workStart, slot, busy, n);
  }

  /** Every returned slot lasts exactly one slot length. */
  lemma SlotsHaveDuration(workStart: Instant, workEnd: Instant, slot: int, busy: seq<CleanEntry>)
    requires slot > 0
    ensures AllLast(FreeSlots(workStart, workEnd, slot, busy), slot)
  {
    var r := FreeSlots(workStart, workEnd, slot, busy);
    FreeAmongSound(workStart, slot, busy, SlotCount(workStart, workEnd, slot));
    forall i | 0 <= i < |r|
      ensures r[i].end - r[i].start == slot
    {
      assert r[i] in r;
    }
  }

  /** Every returned slot lies wholly inside the working window. */
  lemma SlotsInsideWindow(workStart: Instant, workEnd: Instant, slot: int, busy: seq<CleanEntry>)
    requires slot > 0
    ensures AllWithin(FreeSlots(workStart, workEnd, slot, busy), workStart, workEnd)
  {
    var r := FreeSlots(workStart, workEnd, slot, busy);
    var n := SlotCount(workStart, workEnd, slot);
    FreeAmongSound(workStart, slot, busy, n);
    forall i | 0 <= i < |r|
      ensures workStart <= r[i].start && r[i].end <= workEnd
    {
      assert r[i] in r;
      var k :| 0 <= k < n && r[i] == Candidate(workStart, slot, k);
      MulMono(0, k, slot);
      FitsIffBelowCount(workStart, workEnd, slot, k);
    }
  }

  /** The returned slots are strictly increasing in start and pairwise
      non-overlapping. */
  lemma SlotsOrdered(workStart: Instant, workEnd: Instant, slot: int, busy: seq<CleanEntry>)
    requires slot > 0
    ensures Chained(FreeSlots(workStart, workEnd, slot, busy))
    ensures Increasing(FreeSlots(workStart, workEnd, slot, busy))
  {
    var r := FreeSlots(workStart, workEnd, slot, busy);
    FreeAmongChained(workStart, slot, busy, SlotCount(workStart, workEnd, slot));
    SlotsHaveDuration(workStart, workEnd, slot, busy);
    forall i, j | 0 <= i < j < |r|
      ensures r[i].start < r[j].start && !Overlaps(r[i], r[j])
    {
      assert r[i].end <= r[j].start;
      assert r[i].end - r[i].start == slot;
    }
  }

  /** No returned slot overlaps any busy interval whose two boundaries
      parse. */
  lemma SlotsAvoidBusy(workStart: Instant, workEnd: Instant, slot: int, busy: seq<CleanEntry>)
    requires slot > 0
    ensures AvoidsBusy(FreeSlots(workStart, workEnd, slot, busy), busy)
  {
    var r := FreeSlots(workStart, workEnd, slot, busy);
    FreeAmongSound(workStart, slot, busy, SlotCount(workStart, workEnd, slot));
    forall x, s, e | x in r && BusyEntry(At(s), At(e)) in busy
      ensures !Overlaps(x, Interval(s, e))
    {
      var i :| 0 <= i < |busy| && busy[i] == BusyEntry(At(s), At(e));
      assert !Conflicts(x, busy[i]);
    }
  }

  /** Adding one busy interval to the list removes a free slot exactly when
      the two overlap under the half-open test: in particular an interval
      that only touches the slot leaves it free. */
  lemma AddedEntryRemovesSlotIff(workStart: Instant, workEnd: Instant, slot: int, busy: seq<CleanEntry>, k: nat, s: Instant, e: Instant)
    requires slot > 0
    requires Candidate(workStart, slot, k) in FreeSlots(workStart, workEnd, slot, busy)
    ensures Candidate(workStart, slot, k) in FreeSlots(workStart, workEnd, slot, busy + [BusyEntry(At(s), At(e))])
      <==> !Overlaps(Candidate(workStart, slot, k), Interval(s, e))
  {
    var c := Candidate(workStart, slot, k);
    var more: seq<CleanEntry> := busy + [BusyEntry(At(s), At(e))];
    FreeSlotsExactlyUnblocked(workStart, workEnd, slot, busy);
    FreeSlotsExactlyUnblocked(workStart, workEnd, slot, more);
    assert !Blocked(c, busy);
    if Overlaps(c, Interval(s, e)) {
      assert Conflicts(c, more[|busy|]);
    } else {
      forall i | 0 <= i < |more|
        ensures !Conflicts(c, more[i])
      {
        if i < |busy| {
          assert more[i] == busy[i];
        }
      }
    }
  }

  /** With no busy interval every candidate is returned, back to back. */
  lemma {:induction false} FreeAmongNoBusy(workStart: Instant, slot: int, n: nat)
    ensures |FreeAmong(workStart, slot, [], n)| == n
    ensures forall k :: 0 <= k < n ==> FreeAmong(workStart, slot, [], n)[k] == Candidate(workStart, slot, k)
  {
    if n > 0 {
      FreeAmongNoBusy(workStart, slot, n - 1);
    }
  }

  /** With no busy interval the result holds the slot count of slots,
      the k-th being candidate k, each starting where the previous ends. */
  lemma NoBusyAllSlots(workStart: Instant, workEnd: Instant, slot: int)
    requires slot > 0
    ensures |FreeSlots(workStart, workEnd, slot, [])| == SlotCount(workStart, workEnd, slot)
    ensures forall k :: 0 <= k < SlotCount(workStart, workEnd, slot) ==>
      FreeSlots(workStart, workEnd, slot, [])[k] == Candidate(workStart, slot, k)
    ensures Contiguous(FreeSlots(workStart, workEnd, slot, []))
  {
    var r := FreeSlots(workStart, workEnd, slot, []);
    FreeAmongNoBusy(workStart, slot, SlotCount(workStart, workEnd, slot));
    forall k | 0 < k < |r|
      ensures r[k - 1].end == r[k].start
    {
      assert k * slot == (k - 1) * slot + slot;
    }
  }

  /** A slot longer than the window leaves nothing to offer. */
  lemma TooLongIsEmpty(workStart: Instant, workEnd: Instant, slot: int, busy: seq<CleanEntry>)
    requires slot > 0 && slot > workEnd - workStart
    ensures FreeSlots(workStart, workEnd, slot, busy) == []
  {
  }

  /** When every candidate is blocked the loop appends nothing. */
  lemma {:induction false} AllBlockedNoneFree(workStart: Instant, slot: int, busy: seq<CleanEntry>, n: nat)
    requires forall k :: 0 <= k < n ==> Blocked(Candidate(workStart, slot, k), busy)
    ensures FreeAmong(workStart, slot, busy, n) == []
  {
    if n > 0 {
      AllBlockedNoneFree(workStart, slot, busy, n - 1);
    }
  }

  /** A busy interval covering the whole window leaves nothing to offer. */
  lemma FullyBusyIsEmpty(workStart: Instant, workEnd: Instant, slot: int, busy: seq<CleanEntry>, s: Instant, e: Instant)
    requires slot > 0
    requires BusyEntry(At(s), At(e)) in busy && s <= workStart && workEnd <= e
    ensures FreeSlots(workStart, workEnd, slot, busy) == []
  {
    var n := SlotCount(workStart, workEnd, slot);
    var i :| 0 <= i < |busy| && busy[i] == BusyEntry(At(s), At(e));
    forall k | 0 <= k < n
      ensures Blocked(Candidate(workStart, slot, k), busy)
    {
      FitsIffBelowCount(workStart, workEnd, slot, k);
      MulMono(0, k, slot);
      assert Conflicts(Candidate(workStart, slot, k), busy[i]);
    }
    AllBlockedNoneFree(workStart, slot, busy, n);
  }

  /** The result depends on the busy list only through which candidates
      it blocks. */
  lemma {:induction false} SameBlockingSameFreeAmong(workStart: Instant, slot: int, busy1: seq<CleanEntry>, busy2: seq<CleanEntry>, n: nat)
    requires forall k :: 0 <= k < n ==>
      Blocked(Candidate(workStart, slot, k), busy1) == Blocked(Candidate(workStart, slot, k), busy2)
    ensures FreeAmong(workStart, slot, busy1, n) == FreeAmong(workStart, slot, busy2, n)
  {
    if n > 0 {
      SameBlockingSameFreeAmong(workStart, slot, busy1, busy2, n - 1);
    }
  }

  /** Some busy interval whose two boundaries parse contains instant `t`. */
  ghost predicate CoveredAt(busy: seq<CleanEntry>, t: Instant) {
    exists s, e :: BusyEntry(At(s), At(e)) in busy && s <= t < e
  }

  /** Busy intervals that together cover every instant of the window, such
      as back-to-back meetings, leave nothing to offer. */
  lemma CoveredWindowIsEmpty(workStart: Instant, workEnd: Instant, slot: int, busy: seq<CleanEntry>)
    requires slot > 0
    requires forall t :: workStart <= t < workEnd ==> CoveredAt(busy, t)
    ensures FreeSlots(workStart, workEnd, slot, busy) == []
  {
    var n := SlotCount(workStart, workEnd, slot);
    forall k | 0 <= k < n
      ensures Blocked(Candidate(workStart, slot, k), busy)
    {
      var c := Candidate(workStart, slot, k);
      FitsIffBelowCount(workStart, workEnd, slot, k);
      MulMono(0, k, slot);
      assert workStart <= c.start < workEnd;
      assert CoveredAt(busy, c.start);
      var s, e :| BusyEntry(At(s), At(e)) in busy && s <= c.start < e;
      var i :| 0 <= i < |busy| && busy[i] == BusyEntry(At(s), At(e));
      assert Conflicts(c, busy[i]);
    }
    AllBlockedNoneFree(workStart, slot, busy, n);
  }

  /** Which entries the busy list holds is all that matters: reordering it
      or repeating entries changes nothing. */
  lemma SameEntriesSameSlots(workStart: Instant, workEnd: Instant, slot: int, busy1: seq<CleanEntry>, busy2: seq<CleanEntry>)
    requires slot > 0
    requires forall b :: b in busy1 <==> b in busy2
    ensures FreeSlots(workStart, workEnd, slot, busy1) == FreeSlots(workStart, workEnd, slot, busy2)
  {
    var n := SlotCount(workStart, workEnd, slot);
    forall k | 0 <= k < n
      ensures Blocked(Candidate(workStart, slot, k), busy1) == Blocked(Candidate(workStart, slot, k), busy2)
    {
      BlockedBySameEntries(Candidate(workStart, slot, k), busy1, busy2);
    }
    SameBlockingSameFreeAmong(workStart, slot, busy1, busy2, n);
  }
}
