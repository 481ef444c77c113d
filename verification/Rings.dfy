/** Positions of an endless stream laid out in a ring of slots. */
module Rings {
  import opened Arithmetic

  function SlotOf(k: nat, slots: nat): (i: nat)
    requires slots > 0
    ensures i < slots
  {
    InRing(k, slots);
    k % slots
  }

  lemma InRing(k: nat, slots: nat)
    requires slots > 0
    ensures k % slots < slots
  {
  }

  /** Positions fewer than a whole ring apart never share a slot. */
  lemma OwnSlot(k: nat, n: nat, slots: nat)
    requires slots > 0 && k < n < k + slots
    ensures SlotOf(k, slots) != SlotOf(n, slots)
  {
    if k % slots == n % slots {
      var a, b := k / slots, n / slots;
      assert k == slots * a + k % slots && n == slots * b + n % slots;
      if a < b {
        Grows(slots, a, b);
      } else if b < a {
        Grows(slots, b, a);
      }
      assert false;
    }
  }

  /** A whole ring further on is the same slot. */
  lemma SameSlot(k: nat, slots: nat)
    requires slots > 0
    ensures SlotOf(k + slots, slots) == SlotOf(k, slots)
  {
    var a := k / slots;
    QuotientIsUnique(k + slots, slots, a + 1, k % slots);
  }

  /** Going on by one, and starting over behind the last slot. */
  lemma NextSlot(k: nat, slots: nat)
    requires slots > 0
    ensures SlotOf(k + 1, slots) == if SlotOf(k, slots) + 1 == slots then 0 else SlotOf(k, slots) + 1
    ensures SlotOf(k + 1, slots) == (SlotOf(k, slots) + 1) % slots
  {
    NextRemainder(k, slots);
    if k % slots + 1 == slots {
      QuotientIsUnique(slots, slots, 1, 0);
    } else {
      QuotientIsUnique(k % slots + 1, slots, 0, k % slots + 1);
    }
  }

  lemma FirstSlot(slots: nat)
    requires slots > 0
    ensures SlotOf(0, slots) == 0
  {
  }
}
