// Bytes, and the few facts about their bits that loops over bytes need.
module Bits {

  type byte = x: int | 0 <= x < 256

  lemma BitsOfByte(x: byte)
    ensures (x as bv8) as int == x
  {
    // The solver is quick on sixteen values at a time.
    match x / 16 {
      case 0 => case 1 => case 2 => case 3 => case 4 => case 5 => case 6 => case 7 =>
      case 8 => case 9 => case 10 => case 11 => case 12 => case 13 => case 14 => case _ =>
    }
  }

  lemma XorZeroBits(x: bv8, y: bv8)
    ensures x ^ y == 0 <==> x == y
  {
  }

  // Two bytes have no differing bit exactly when they are equal.
  lemma XorZero(x: byte, y: byte)
    ensures (x as bv8) ^ (y as bv8) == 0 <==> x == y
  {
    BitsOfByte(x);
    BitsOfByte(y);
    XorZeroBits(x as bv8, y as bv8);
  }

  lemma OrZero(x: bv8, y: bv8)
    ensures x | y == 0 <==> x == 0 && y == 0
  {
  }
}
