/** Match offsets as a position slot and a number of extra bits. */
module PositionSlots {
  import opened Shifts

  const SLOTS: nat := 51

  function ExtraBits(slot: nat): nat {
    if slot == 0 then 0 else if slot == 1 then 0 else if slot == 2 then 0 else
    if slot == 3 then 0 else if slot == 4 then 1 else if slot == 5 then 1 else
    if slot == 6 then 2 else if slot == 7 then 2 else if slot == 8 then 3 else
    if slot == 9 then 3 else if slot == 10 then 4 else if slot == 11 then 4 else
    if slot == 12 then 5 else if slot == 13 then 5 else if slot == 14 then 6 else
    if slot == 15 then 6 else if slot == 16 then 7 else if slot == 17 then 7 else
    if slot == 18 then 8 else if slot == 19 then 8 else if slot == 20 then 9 else
    if slot == 21 then 9 else if slot == 22 then 10 else if slot == 23 then 10 else
    if slot == 24 then 11 else if slot == 25 then 11 else if slot == 26 then 12 else
    if slot == 27 then 12 else if slot == 28 then 13 else if slot == 29 then 13 else
    if slot == 30 then 14 else if slot == 31 then 14 else if slot == 32 then 15 else
    if slot == 33 then 15 else if slot == 34 then 16 else if slot == 35 then 16 else
    if slot == 36 then 17 else if slot == 37 then 17 else if slot == 38 then 17 else
    if slot == 39 then 17 else if slot == 40 then 17 else if slot == 41 then 17 else
    if slot == 42 then 17 else if slot == 43 then 17 else if slot == 44 then 17 else
    if slot == 45 then 17 else if slot == 46 then 17 else if slot == 47 then 17 else
    if slot == 48 then 17 else if slot == 49 then 17 else
    17
  }

  function PositionBase(slot: nat): nat {
    if slot == 0 then 0 else if slot == 1 then 1 else if slot == 2 then 2 else
    if slot == 3 then 3 else if slot == 4 then 4 else if slot == 5 then 6 else
    if slot == 6 then 8 else if slot == 7 then 12 else if slot == 8 then 16 else
    if slot == 9 then 24 else if slot == 10 then 32 else if slot == 11 then 48 else
    if slot == 12 then 64 else if slot == 13 then 96 else if slot == 14 then 128 else
    if slot == 15 then 192 else if slot == 16 then 256 else if slot == 17 then 384 else
    if slot == 18 then 512 else if slot == 19 then 768 else if slot == 20 then 1024 else
    if slot == 21 then 1536 else if slot == 22 then 2048 else if slot == 23 then 3072 else
    if slot == 24 then 4096 else if slot == 25 then 6144 else if slot == 26 then 8192 else
    if slot == 27 then 12288 else if slot == 28 then 16384 else if slot == 29 then 24576 else
    if slot == 30 then 32768 else if slot == 31 then 49152 else if slot == 32 then 65536 else
    if slot == 33 then 98304 else if slot == 34 then 131072 else if slot == 35 then 196608 else
    if slot == 36 then 262144 else if slot == 37 then 393216 else if slot == 38 then 524288 else
    if slot == 39 then 655360 else if slot == 40 then 786432 else if slot == 41 then 917504 else
    if slot == 42 then 1048576 else if slot == 43 then 1179648 else if slot == 44 then 1310720 else
    if slot == 45 then 1441792 else if slot == 46 then 1572864 else if slot == 47 then 1703936 else
    if slot == 48 then 1835008 else if slot == 49 then 1966080 else
    2097152
  }

  // How many positions a slot has.
  function SlotSize(slot: nat): (n: nat)
    ensures n >= 1
  {
    ShlPositive(1, ExtraBits(slot));
    Shl(1, ExtraBits(slot))
  }

  /** The slots of the table follow one another without gap or overlap. */
  lemma NextSlot(slot: nat)
    requires slot + 1 < SLOTS
    ensures PositionBase(slot + 1) == PositionBase(slot) + SlotSize(slot)
  {
    hide Shl;
    Powers();
  }

  lemma {:induction false} BaseMono(s: nat, t: nat)
    requires s < t < SLOTS
    ensures PositionBase(s) + SlotSize(s) <= PositionBase(t)
    decreases t
  {
    hide PositionBase, SlotSize;
    NextSlot(t - 1);
    if s < t - 1 {
      BaseMono(s, t - 1);
    }
  }

  /** No position has two slots. */
  lemma SlotUnique(s: nat, v: nat, t: nat, u: nat)
    requires s < SLOTS && t < SLOTS && v < SlotSize(s) && u < SlotSize(t)
    requires PositionBase(s) + v == PositionBase(t) + u
    ensures s == t && v == u
  {
    hide PositionBase, SlotSize;
    if s < t {
      BaseMono(s, t);
    } else if t < s {
      BaseMono(t, s);
    }
  }

  /** Every position below the end of a slot has a slot up to there. */
  lemma {:induction false} SlotExists(p: nat, last: nat) returns (s: nat)
    requires last < SLOTS && p < PositionBase(last) + SlotSize(last)
    ensures s <= last && PositionBase(s) <= p < PositionBase(s) + SlotSize(s)
    decreases last
  {
    hide PositionBase, SlotSize;
    if PositionBase(last) <= p {
      s := last;
    } else {
      FirstSlot();
      NextSlot(last - 1);
      s := SlotExists(p, last - 1);
    }
  }

  lemma FirstSlot()
    ensures PositionBase(0) == 0
  {
  }

  // The number of slots LZXinit gives a window of 2^window bytes.
  function PosnSlots(window: nat): nat {
    if window == 20 then 42 else if window == 21 then 50 else 2 * window
  }

  /** A window has exactly the slots for the positions below its size, so no offset
      coded with them reaches back further than the window. */
  lemma SlotsFitWindow(window: nat, slot: nat, v: nat)
    requires 15 <= window <= 21
    ensures PosnSlots(window) < SLOTS && PositionBase(PosnSlots(window)) == Shl(1, window)
    ensures slot < PosnSlots(window) && v < SlotSize(slot) ==> PositionBase(slot) + v < Shl(1, window)
  {
    WindowSizes(window);
    if slot < PosnSlots(window) {
      BaseMono(slot, PosnSlots(window));
    }
  }

  lemma WindowSizes(window: nat)
    requires 15 <= window <= 21
    ensures PosnSlots(window) < SLOTS && PositionBase(PosnSlots(window)) == Shl(1, window)
  {
    hide Shl;
    Powers();
    Double(17, 1);
    Double(18, 1);
    Double(19, 1);
    Double(20, 1);
  }
}
