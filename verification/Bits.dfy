/** Byte registers and the masks of a device descriptor. */
module Bits {

  predicate Has(register: bv8, mask: bv8) { register & mask != 0 }

  function With(register: bv8, mask: bv8): bv8 { register | mask }

  function Without(register: bv8, mask: bv8): bv8 { register & !mask }

  /** The writable bits from value, the others from the register. */
  function Merged(register: bv8, value: bv8, writable: bv8): bv8 {
    (register & !writable) | (value & writable)
  }

  /** Position of the lowest set bit, 8 if there is none. */
  function Lowest(mask: bv8): (k: nat)
    ensures k <= 8
  {
    if mask == 0 then 8 else LowestWithin(mask, 7)
  }

  function LowestWithin(mask: bv8, room: nat): (k: nat)
    ensures k <= room
  {
    if room == 0 || mask & 1 != 0 then 0 else 1 + LowestWithin(mask >> 1, room - 1)
  }

  /** The bits under a mask, moved down to bit 0. */
  function Field(register: bv8, mask: bv8): bv8 {
    (register & mask) >> Lowest(mask)
  }

  lemma ClearedAlike(flags: bv8, enabled: bv8, group: bv8)
    ensures Without(flags, group) & enabled == Without(flags & enabled, group)
  {
  }

  lemma ClearedLess(flags: bv8, group: bv8)
    requires group != 0 && flags & group == group
    ensures Without(flags, group) as nat < flags as nat
  {
    assert Without(flags, group) < flags;
  }

  lemma LowestZero(mask: bv8)
    ensures mask & 1 != 0 ==> Lowest(mask) == 0
    ensures mask & 1 == 0 ==> Lowest(mask) >= 1
  {
    if mask & 1 == 0 && mask != 0 {
      assert LowestWithin(mask, 7) == 1 + LowestWithin(mask >> 1, 6);
    }
  }

  lemma ShiftedLess(value: bv8, n: nat)
    requires 1 <= n <= 8
    ensures value >> n <= value >> 1
  {
    if n == 2 {
    } else if n == 3 {
    } else if n == 4 {
    } else if n == 5 {
    } else if n == 6 {
    } else if n == 7 {
    } else if n == 8 {
    }
  }

  /** A value moved under a mask comes back as no greater one, and as itself exactly if it is 0
      or a mask from bit 0 on covers it. */
  lemma FieldOfItself(value: bv8, mask: bv8)
    ensures Field(value, mask) <= value
    ensures Field(value, mask) == value <==> value == 0 || (mask & 1 == 1 && value & mask == value)
  {
    LowestZero(mask);
    if mask & 1 == 0 {
      ShiftedLess(value & mask, Lowest(mask));
      assert (value & mask) >> 1 <= value >> 1;
      assert value != 0 ==> value >> 1 < value;
    } else {
      assert (value & mask) >> 0 == value & mask <= value;
    }
    hide Lowest;
  }

  lemma LowestExact(mask: bv8)
    ensures Lowest(mask)
            == if mask & 0x01 != 0 then 0 else if mask & 0x02 != 0 then 1 else if mask & 0x04 != 0 then 2
               else if mask & 0x08 != 0 then 3 else if mask & 0x10 != 0 then 4 else if mask & 0x20 != 0 then 5
               else if mask & 0x40 != 0 then 6 else if mask & 0x80 != 0 then 7 else 8
  {
    assert Lowest(mask) == if mask == 0 then 8 else LowestWithin(mask, 7);
    LowestStep(mask, 7);
    LowestStep(mask >> 1, 6);
    LowestStep(mask >> 2, 5);
    LowestStep(mask >> 3, 4);
    LowestStep(mask >> 4, 3);
    LowestStep(mask >> 5, 2);
    LowestStep(mask >> 6, 1);
    assert LowestWithin(mask >> 7, 0) == 0;
    hide LowestWithin;
  }

  lemma LowestStep(mask: bv8, room: nat)
    requires room > 0
    ensures LowestWithin(mask, room) == if mask & 1 != 0 then 0 else 1 + LowestWithin(mask >> 1, room - 1)
  {
  }

  /** Merging leaves the bits that are not writable and takes the others from the value. */
  lemma MergedKeeps(register: bv8, value: bv8, writable: bv8, mask: bv8)
    requires mask & writable == 0
    ensures Has(Merged(register, value, writable), mask) == Has(register, mask)
  {
    assert Merged(register, value, writable) & mask == register & mask;
    hide Merged;
  }

  lemma MergedTakes(register: bv8, value: bv8, writable: bv8, mask: bv8)
    requires mask & !writable == 0
    ensures Has(Merged(register, value, writable), mask) == Has(value, mask)
  {
    assert Merged(register, value, writable) & mask == value & mask;
    hide Merged;
  }

  lemma MergedBits(register: bv8, value: bv8, writable: bv8, mask: bv8)
    ensures mask & writable == 0 ==> Has(Merged(register, value, writable), mask) == Has(register, mask)
    ensures mask & !writable == 0 ==> Has(Merged(register, value, writable), mask) == Has(value, mask)
  {
    hide Has, Merged;
    if mask & writable == 0 {
      MergedKeeps(register, value, writable, mask);
    }
    if mask & !writable == 0 {
      MergedTakes(register, value, writable, mask);
    }
  }

  lemma WithoutBits(register: bv8, mask: bv8, other: bv8)
    ensures !Has(Without(register, mask), mask)
    ensures other & mask == 0 ==> Has(Without(register, mask), other) == Has(register, other)
  {
    if other & mask == 0 {
      assert Without(register, mask) & other == register & other;
    }
  }
}
