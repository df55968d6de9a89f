/**
 * The raw inotify record stream of one wake-up and its coalescing into one
 * event mask per watch descriptor (the `event_masks[event->wd] |= event->mask`
 * accumulation of work_loop).
 */
module Events {
  import opened Inotify

  /** One raw inotify record: the watch it is for and its event bits. */
  datatype Record = Record(wd: int, mask: Mask)

  /** `mask & IN_IGNORED != 0`: the watch itself is gone and must be re-established. */
  predicate Invalidated(mask: Mask) {
    IN_IGNORED_BIT in mask
  }

  /** `masks[wd]`, where a missing key reads as the empty mask (std::unordered_map::operator[]). */
  function MaskOf(masks: map<int, Mask>, wd: int): (m: Mask) {
    if wd in masks then masks[wd] else {}
  }

  /** The event masks after folding in `records`, oldest first. */
  function Coalesce(records: seq<Record>): (masks: map<int, Mask>) {
    if records == [] then map[]
    else
      var masks := Coalesce(records[..|records| - 1]);
      var r := records[|records| - 1];
      masks[r.wd := MaskOf(masks, r.wd) + r.mask]
  }

  /** Some record of `records` is for watch `wd`. */
  ghost predicate Mentions(records: seq<Record>, wd: int) {
    exists i :: 0 <= i < |records| && records[i].wd == wd
  }

  /** Some record of `records` is for watch `wd` and carries `bit`. */
  ghost predicate MentionsBit(records: seq<Record>, wd: int, bit: Bit) {
    exists i :: 0 <= i < |records| && records[i].wd == wd && bit in records[i].mask
  }

  /** The coalesced map has a key for exactly the descriptors the records mention. */
  lemma {:induction false} CoalesceKeys(records: seq<Record>, wd: int)
    ensures wd in Coalesce(records) <==> Mentions(records, wd)
  {
    if records != [] {
      var front := records[..|records| - 1];
      CoalesceKeys(front, wd);
      if Mentions(front, wd) {
        var i :| 0 <= i < |front| && front[i].wd == wd;
        assert records[i].wd == wd;
      }
      if Mentions(records, wd) && records[|records| - 1].wd != wd {
        var i :| 0 <= i < |records| && records[i].wd == wd;
        assert front[i].wd == wd;
      }
    }
  }

  /**
   * A coalesced mask carries a bit exactly when some raw record for that
   * descriptor carries it: nothing is lost and nothing is invented.
   */
  lemma {:induction false} CoalesceBits(records: seq<Record>, wd: int, bit: Bit)
    ensures bit in MaskOf(Coalesce(records), wd) <==> MentionsBit(records, wd, bit)
  {
    if records != [] {
      var front := records[..|records| - 1];
      CoalesceBits(front, wd, bit);
      if MentionsBit(front, wd, bit) {
        var i :| 0 <= i < |front| && front[i].wd == wd && bit in front[i].mask;
        assert records[i] == front[i];
      }
      var r := records[|records| - 1];
      if MentionsBit(records, wd, bit) && !(r.wd == wd && bit in r.mask) {
        var i :| 0 <= i < |records| && records[i].wd == wd && bit in records[i].mask;
        assert front[i] == records[i];
      }
    }
  }

  /** A descriptor's coalesced mask is invalidated exactly when one of its raw records was. */
  lemma CoalesceInvalidated(records: seq<Record>, wd: int)
    requires wd in Coalesce(records)
    ensures Invalidated(Coalesce(records)[wd]) <==> MentionsBit(records, wd, IN_IGNORED_BIT)
  {
    CoalesceBits(records, wd, IN_IGNORED_BIT);
  }

  /**
   * Coalescing depends only on which records arrived: neither their order nor
   * how often one repeats changes the result.
   */
  lemma CoalesceIgnoresOrderAndRepeats(r1: seq<Record>, r2: seq<Record>)
    requires forall r :: r in r1 <==> r in r2
    ensures Coalesce(r1) == Coalesce(r2)
  {
    forall wd
      ensures wd in Coalesce(r1) <==> wd in Coalesce(r2)
    {
      CoalesceKeys(r1, wd);
      CoalesceKeys(r2, wd);
      if Mentions(r1, wd) {
        var i :| 0 <= i < |r1| && r1[i].wd == wd;
        assert r1[i] in r2;
      }
      if Mentions(r2, wd) {
        var i :| 0 <= i < |r2| && r2[i].wd == wd;
        assert r2[i] in r1;
      }
    }
    forall wd, bit: Bit
      ensures bit in MaskOf(Coalesce(r1), wd) <==> bit in MaskOf(Coalesce(r2), wd)
    {
      CoalesceBits(r1, wd, bit);
      CoalesceBits(r2, wd, bit);
      if MentionsBit(r1, wd, bit) {
        var i :| 0 <= i < |r1| && r1[i].wd == wd && bit in r1[i].mask;
        assert r1[i] in r2;
      }
      if MentionsBit(r2, wd, bit) {
        var i :| 0 <= i < |r2| && r2[i].wd == wd && bit in r2[i].mask;
        assert r2[i] in r1;
      }
    }
    forall wd | wd in Coalesce(r1)
      ensures Coalesce(r1)[wd] == Coalesce(r2)[wd]
    {
      assert MaskOf(Coalesce(r1), wd) == MaskOf(Coalesce(r2), wd);
    }
  }

  /**
   * The coalescing loop of work_loop: one mask per descriptor mentioned in
   * the wake-up, the OR of all the raw masks recorded for it.
   */
  method CoalesceEvents(records: seq<Record>) returns (masks: map<int, Mask>)
    ensures masks == Coalesce(records)
    ensures forall wd :: wd in masks <==> Mentions(records, wd)
    ensures forall wd, bit: Bit :: wd in masks ==> (bit in masks[wd] <==> MentionsBit(records, wd, bit))
  {
    masks := map[];
    for i := 0 to |records|
      invariant masks == Coalesce(records[..i])
    {
      var r := records[i];
      assert records[..i + 1][..i] == records[..i];
      masks := masks[r.wd := MaskOf(masks, r.wd) + r.mask];
    }
    assert records[..|records|] == records;
    forall wd
      ensures wd in masks <==> Mentions(records, wd)
    {
      CoalesceKeys(records, wd);
    }
    forall wd, bit: Bit | wd in masks
      ensures bit in masks[wd] <==> MentionsBit(records, wd, bit)
    {
      CoalesceBits(records, wd, bit);
    }
  }
}
