/** getAvailability once the working window is fixed and the busy list has
    been fetched: the clean-up of the busy list, the loop that walks the
    window slot by slot, and worked examples of what it returns. */
module Availability {
  import opened Intervals
  import opened Busy
  import opened Slots

  const MsPerMinute: int := 60 * 1000
  const MsPerHour: int := 60 * MsPerMinute

  /** The duration getAvailability uses when none is passed. */
  const DefaultDurationMinutes: int := 30

  /** Opening and closing hours of the working window, local time. */
  const OpeningHour: int := 9
  const ClosingHour: int := 18

  datatype Window = Window(workStart: Instant, workEnd: Instant)

  /** The working window: 09:00 and 18:00 on the requested day, read at
      the UTC offset the time zone is rendered with. `dayStart` is 00:00 UTC
      on the requested date and `offsetMinutes` the offset east of UTC. */
  function WorkWindow(dayStart: Instant, offsetMinutes: int): (w: Window)
    ensures w.workEnd - w.workStart == (ClosingHour - OpeningHour) * MsPerHour
    ensures w.workStart + offsetMinutes * MsPerMinute - dayStart == OpeningHour * MsPerHour
  {
    var shift := offsetMinutes * MsPerMinute;
    Window(dayStart + OpeningHour * MsPerHour - shift, dayStart + ClosingHour * MsPerHour - shift)
  }

  /** What getAvailability returns for a window, the busy list as fetched
      and a duration in minutes, 30 when none is passed. */
  function Availability(workStart: Instant, workEnd: Instant, raw: seq<BusyEntry>,
                        durationMinutes: int := DefaultDurationMinutes): seq<Interval>
    requires durationMinutes > 0
  {
    FreeSlots(workStart, workEnd, durationMinutes * MsPerMinute, CleanBusy(raw))
  }

  /** The free-slot computation of getAvailability: clean the busy list,
      then step `t` through the window one slot at a time and append every
      slot that no busy entry overlaps. */
  method GetAvailability(workStart: Instant, workEnd: Instant, raw: seq<BusyEntry>,
                         durationMinutes: int := DefaultDurationMinutes)
    returns (free: seq<Interval>)
    requires durationMinutes > 0
    ensures free == Availability(workStart, workEnd, raw, durationMinutes)
    ensures AllLast(free, durationMinutes * MsPerMinute)
    ensures AllWithin(free, workStart, workEnd)
    ensures Chained(free) && Increasing(free)
    ensures AvoidsBusy(free, CleanBusy(raw))
  {
    var busy := CleanBusy(raw);
    var slot := durationMinutes * 60 * 1000;
    free := [];
    var t := workStart;
    ghost var k: nat := 0;
    while t + slot <= workEnd
      invariant t == workStart + k * slot
      invariant k <= SlotCount(workStart, workEnd, slot)
      invariant free == FreeAmong(workStart, slot, busy, k)
      decreases workEnd - t
    {
      FitsIffBelowCount(workStart, workEnd, slot, k);
      var slotStart := t;
      var slotEnd := t + slot;
      var overlaps := Blocked(Interval(slotStart, slotEnd), busy);
      if !overlaps {
        free := free + [Interval(slotStart, slotEnd)];
      }
      t := t + slot;
      k := k + 1;
    }
    FitsIffBelowCount(workStart, workEnd, slot, k);
    SlotsHaveDuration(workStart, workEnd, slot, busy);
    SlotsInsideWindow(workStart, workEnd, slot, busy);
    SlotsOrdered(workStart, workEnd, slot, busy);
    SlotsAvoidBusy(workStart, workEnd, slot, busy);
  }

  /** A busy entry missing a boundary is dropped by the clean-up, so it does
      not change the result, wherever it stands in the list. */
  lemma AvailabilityIgnoresMalformed(workStart: Instant, workEnd: Instant, durationMinutes: int,
                                     pre: seq<BusyEntry>, b: BusyEntry, post: seq<BusyEntry>)
    requires durationMinutes > 0 && !HasBounds(b)
    ensures Availability(workStart, workEnd, pre + [b] + post, durationMinutes)
         == Availability(workStart, workEnd, pre + post, durationMinutes)
  {
    CleanBusyDropsMalformed(pre, b, post);
  }

  /** A busy entry with an unparsable boundary survives the clean-up but
      does not change the result either. */
  lemma AvailabilityIgnoresUnparsable(workStart: Instant, workEnd: Instant, durationMinutes: int,
                                      pre: seq<BusyEntry>, b: BusyEntry, post: seq<BusyEntry>)
    requires durationMinutes > 0
    requires HasBounds(b) && (b.start == Unparsable || b.end == Unparsable)
    ensures Availability(workStart, workEnd, pre + [b] + post, durationMinutes)
         == Availability(workStart, workEnd, pre + post, durationMinutes)
  {
    var slot := durationMinutes * MsPerMinute;
    CleanBusyConcat(pre + [b], post);
    CleanBusyConcat(pre, [b]);
    CleanBusyConcat(pre, post);
    var c: CleanEntry := b;
    assert CleanBusy([b]) == [c];
    var with := CleanBusy(pre + [b] + post);
    var without := CleanBusy(pre + post);
    assert with == CleanBusy(pre) + [c] + CleanBusy(post);
    var n := SlotCount(workStart, workEnd, slot);
    forall k | 0 <= k < n
      ensures Blocked(Candidate(workStart, slot, k), with) == Blocked(Candidate(workStart, slot, k), without)
    {
      BlockedIgnoresUnparsable(Candidate(workStart, slot, k), CleanBusy(pre), c, CleanBusy(post));
    }
    SameBlockingSameFreeAmong(workStart, slot, with, without, n);
  }

  /** With no busy interval the result holds `(workEnd - workStart) / slot`
      slots, rounded down. */
  lemma NoBusyCount(workStart: Instant, workEnd: Instant, durationMinutes: int)
    requires durationMinutes > 0 && workStart <= workEnd
    ensures |Availability(workStart, workEnd, [], durationMinutes)| == (workEnd - workStart) / (durationMinutes * MsPerMinute)
  {
    assert CleanBusy([]) == [];
    NoBusyAllSlots(workStart, workEnd, durationMinutes * MsPerMinute);
  }

  /** A 09:00 to 18:00 day with the default 30-minute duration and nothing
      busy offers 18 slots, from 09:00 to 09:30 through 17:30 to 18:00. */
  lemma DefaultDayOffersEighteenSlots(dayStart: Instant, offsetMinutes: int)
    ensures var w := WorkWindow(dayStart, offsetMinutes);
      var r := Availability(w.workStart, w.workEnd, []);
      && |r| == 18
      && r[0] == Interval(w.workStart, w.workStart + 30 * MsPerMinute)
      && r[17] == Interval(w.workEnd - 30 * MsPerMinute, w.workEnd)
  {
    var w := WorkWindow(dayStart, offsetMinutes);
    var slot := DefaultDurationMinutes * MsPerMinute;
    assert CleanBusy([]) == [];
    assert SlotCount(w.workStart, w.workEnd, slot) == 18;
    NoBusyAllSlots(w.workStart, w.workEnd, slot);
  }

  /** A meeting from 09:00 to 10:00 removes the slots 09:00 to 09:30 and
      09:30 to 10:00; the first free slot is 10:00 to 10:30. */
  lemma MorningMeetingExample(dayStart: Instant, offsetMinutes: int)
    ensures var w := WorkWindow(dayStart, offsetMinutes);
      var meeting := BusyEntry(At(w.workStart), At(w.workStart + 60 * MsPerMinute));
      var r := Availability(w.workStart, w.workEnd, [meeting]);
      && |r| > 0
      && r[0] == Interval(w.workStart + 60 * MsPerMinute, w.workStart + 90 * MsPerMinute)
      && Interval(w.workStart, w.workStart + 30 * MsPerMinute) !in r
      && Interval(w.workStart + 30 * MsPerMinute, w.workStart + 60 * MsPerMinute) !in r
  {
    var w := WorkWindow(dayStart, offsetMinutes);
    var meeting := BusyEntry(At(w.workStart), At(w.workStart + 60 * MsPerMinute));
    var slot := DefaultDurationMinutes * MsPerMinute;
    var busy := CleanBusy([meeting]);
    var n := SlotCount(w.workStart, w.workEnd, slot);
    assert n == 18;
    assert busy == [meeting];
    assert FreeAmong(w.workStart, slot, busy, 1) == [];
    assert FreeAmong(w.workStart, slot, busy, 2) == [];
    assert FreeAmong(w.workStart, slot, busy, 3) == [Candidate(w.workStart, slot, 2)];
    FreeAmongPrefix(w.workStart, slot, busy, 3, n);
    FreeSlotsExactlyUnblocked(w.workStart, w.workEnd, slot, busy);
    assert Blocked(Candidate(w.workStart, slot, 0), busy);
    assert Blocked(Candidate(w.workStart, slot, 1), busy);
  }

  /** A meeting from 09:30 to 10:00 touches the slot 09:00 to 09:30 at its
      end and the slot 10:00 to 10:30 at its start; both stay free. */
  lemma TouchingMeetingExample(dayStart: Instant, offsetMinutes: int)
    ensures var w := WorkWindow(dayStart, offsetMinutes);
      var meeting := BusyEntry(At(w.workStart + 30 * MsPerMinute), At(w.workStart + 60 * MsPerMinute));
      var r := Availability(w.workStart, w.workEnd, [meeting]);
      && |r| > 1
      && r[0] == Interval(w.workStart, w.workStart + 30 * MsPerMinute)
      && r[1] == Interval(w.workStart + 60 * MsPerMinute, w.workStart + 90 * MsPerMinute)
  {
    var w := WorkWindow(dayStart, offsetMinutes);
    var meeting := BusyEntry(At(w.workStart + 30 * MsPerMinute), At(w.workStart + 60 * MsPerMinute));
    var slot := DefaultDurationMinutes * MsPerMinute;
    var busy := CleanBusy([meeting]);
    var n := SlotCount(w.workStart, w.workEnd, slot);
    assert n == 18;
    assert busy == [meeting];
    assert FreeAmong(w.workStart, slot, busy, 1) == [Candidate(w.workStart, slot, 0)];
    assert FreeAmong(w.workStart, slot, busy, 2) == [Candidate(w.workStart, slot, 0)];
    assert FreeAmong(w.workStart, slot, busy, 3) == [Candidate(w.workStart, slot, 0), Candidate(w.workStart, slot, 2)];
    FreeAmongPrefix(w.workStart, slot, busy, 3, n);
  }

  /** Back-to-back meetings from 09:00 to 13:00 and from 13:00 to 18:00
      leave the day with no free slot. */
  lemma BackToBackMeetingsExample(dayStart: Instant, offsetMinutes: int)
    ensures var w := WorkWindow(dayStart, offsetMinutes);
      var morning := BusyEntry(At(w.workStart), At(w.workStart + 4 * MsPerHour));
      var afternoon := BusyEntry(At(w.workStart + 4 * MsPerHour), At(w.workEnd));
      Availability(w.workStart, w.workEnd, [morning, afternoon]) == []
  {
    var w := WorkWindow(dayStart, offsetMinutes);
    var morning := BusyEntry(At(w.workStart), At(w.workStart + 4 * MsPerHour));
    var afternoon := BusyEntry(At(w.workStart + 4 * MsPerHour), At(w.workEnd));
    var busy := CleanBusy([morning, afternoon]);
    forall t | w.workStart <= t < w.workEnd
      ensures CoveredAt(busy, t)
    {
      if t < w.workStart + 4 * MsPerHour {
        assert morning in busy;
      } else {
        assert afternoon in busy;
      }
    }
    CoveredWindowIsEmpty(w.workStart, w.workEnd, DefaultDurationMinutes * MsPerMinute, busy);
  }
}
