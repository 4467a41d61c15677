/** `Endian::Details::swap_helper`: the bit operations behind a byte swap. */
module EndianBits {
  function Joined4(b0: bv8, b1: bv8, b2: bv8, b3: bv8): bv32 {
    (b0 as bv32) | ((b1 as bv32) << 8) | ((b2 as bv32) << 16) | ((b3 as bv32) << 24)
  }

  function Joined8(low: bv32, high: bv32): bv64 {
    (low as bv64) | ((high as bv64) << 32)
  }

  /** `swap_helper` on two, four and eight bytes. */
  function Swap16(data: bv16): bv16 {
    ((data >> 8) & 0xFF) | ((data << 8) & 0xFF00)
  }

  function Swap32(data: bv32): bv32 {
    ((data & 0xFF000000) >> 24) | ((data & 0x00FF0000) >> 8) | ((data & 0xFF) << 24) | ((data & 0xFF00) << 8)
  }

  function Swap64(data: bv64): bv64 {
    var low, high := (data & 0xFFFFFFFF) as bv32, (data >> 32) as bv32;
    Joined8(Swap32(high), Swap32(low))
  }

  lemma Swap2Reverses(b0: bv8, b1: bv8)
    ensures Swap16((b0 as bv16) | ((b1 as bv16) << 8)) == (b1 as bv16) | ((b0 as bv16) << 8)
  {
  }

  lemma Swap4Reverses(b0: bv8, b1: bv8, b2: bv8, b3: bv8)
    ensures Swap32(Joined4(b0, b1, b2, b3)) == Joined4(b3, b2, b1, b0)
  {
  }

  lemma LowHalf(low: bv32, high: bv32)
    ensures (Joined8(low, high) & 0xFFFFFFFF) as bv32 == low
  {
  }

  lemma HighHalf(low: bv32, high: bv32)
    ensures (Joined8(low, high) >> 32) as bv32 == high
  {
  }

  /** Eight bytes, four and four: the halves change places, and each is reversed. */
  lemma Swap8Reverses(low: bv32, high: bv32)
    ensures Swap64(Joined8(low, high)) == Joined8(Swap32(high), Swap32(low))
  {
    LowHalf(low, high);
    HighHalf(low, high);
  }
}
