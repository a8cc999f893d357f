/** Busy entries as the calendar backend reports them, the clean-up that
    drops entries without both boundaries, and the test deciding whether a
    candidate slot conflicts with the busy list. */
module Busy {
  import opened Intervals

  /** One boundary of a busy entry as delivered: absent (missing, null or
      the empty string, all falsy), present but not a date the runtime can
      parse (`getTime` yields NaN), or a parsed instant. */
  datatype Stamp = Absent | Unparsable | At(ms: Instant)

  datatype BusyEntry = BusyEntry(start: Stamp, end: Stamp)

  /** The clean-up filter: both boundaries are truthy. */
  predicate HasBounds(b: BusyEntry) {
    b.start != Absent && b.end != Absent
  }

  /** Entries that survive the clean-up. */
  type CleanEntry = b: BusyEntry | HasBounds(b) witness BusyEntry(Unparsable, Unparsable)

  /** The `.filter(...).map(...)` clean-up of the busy list: keeps exactly
      the entries with both boundaries. */
  function CleanBusy(raw: seq<BusyEntry>): (r: seq<CleanEntry>)
    ensures forall b: BusyEntry :: b in r <==> b in raw && HasBounds(b)
    ensures |r| <= |raw|
  {
    if raw == [] then []
    else if HasBounds(raw[0]) then var b: CleanEntry := raw[0]; [b] + CleanBusy(raw[1..])
    else CleanBusy(raw[1..])
  }

  /** The clean-up is a filter: it distributes over concatenation, so it
      keeps the surviving entries in their original order. */
  lemma {:induction false} CleanBusyConcat(a: seq<BusyEntry>, b: seq<BusyEntry>)
    ensures CleanBusy(a + b) == CleanBusy(a) + CleanBusy(b)
  {
    if a != [] {
      assert (a + b)[1..] == a[1..] + b;
      CleanBusyConcat(a[1..], b);
    } else {
      assert a + b == b;
    }
  }

  /** An entry missing a boundary leaves the cleaned list unchanged,
      wherever it stands. */
  lemma CleanBusyDropsMalformed(pre: seq<BusyEntry>, b: BusyEntry, post: seq<BusyEntry>)
    requires !HasBounds(b)
    ensures CleanBusy(pre + [b] + post) == CleanBusy(pre + post)
  {
    assert CleanBusy([b]) == [];
    calc {
      CleanBusy(pre + [b] + post);
      { CleanBusyConcat(pre + [b], post); }
      CleanBusy(pre + [b]) + CleanBusy(post);
      { CleanBusyConcat(pre, [b]); }
      CleanBusy(pre) + CleanBusy(post);
      { CleanBusyConcat(pre, post); }
      CleanBusy(pre + post);
    }
  }

  /** The `.some` callback: both boundaries go through `getTime`; an
      unparsable one is NaN, and every comparison with NaN is false. */
  predicate Conflicts(slot: Interval, b: CleanEntry) {
    match (b.start, b.end)
    case (At(s), At(e)) => Overlaps(slot, Interval(s, e))
    case _ => false
  }

  /** `busy.some(...)`: the slot conflicts with at least one entry. */
  function Blocked(slot: Interval, busy: seq<CleanEntry>): (r: bool)
    ensures r <==> exists i :: 0 <= i < |busy| && Conflicts(slot, busy[i])
  {
    if busy == [] then false else Conflicts(slot, busy[0]) || Blocked(slot, busy[1..])
  }

  /** Only which entries the list holds matters: order and duplicates do
      not change whether a slot is blocked. */
  lemma BlockedBySameEntries(slot: Interval, busy1: seq<CleanEntry>, busy2: seq<CleanEntry>)
    requires forall b :: b in busy1 <==> b in busy2
    ensures Blocked(slot, busy1) == Blocked(slot, busy2)
  {
    if Blocked(slot, busy1) {
      var i :| 0 <= i < |busy1| && Conflicts(slot, busy1[i]);
      assert busy1[i] in busy2;
    }
    if Blocked(slot, busy2) {
      var i :| 0 <= i < |busy2| && Conflicts(slot, busy2[i]);
      assert busy2[i] in busy1;
    }
  }

  /** An entry with an unparsable boundary survives the clean-up but never
      blocks a slot. */
  lemma BlockedIgnoresUnparsable(slot: Interval, pre: seq<CleanEntry>, b: CleanEntry, post: seq<CleanEntry>)
    requires b.start == Unparsable || b.end == Unparsable
    ensures Blocked(slot, pre + [b] + post) == Blocked(slot, pre + post)
  {
    var whole := pre + [b] + post;
    if Blocked(slot, whole) {
      var i :| 0 <= i < |whole| && Conflicts(slot, whole[i]);
      assert i != |pre|;
      if i < |pre| {
        assert (pre + post)[i] == whole[i];
      } else {
        assert (pre + post)[i - 1] == whole[i];
      }
    }
    if Blocked(slot, pre + post) {
      var i :| 0 <= i < |pre + post| && Conflicts(slot, (pre + post)[i]);
      if i < |pre| {
        assert whole[i] == (pre + post)[i];
      } else {
        assert whole[i + 1] == (pre + post)[i];
      }
    }
  }
}
