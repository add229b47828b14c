/** Conversions between bytes and numbers. */
module Bytes {

  lemma {:induction false} IntToByteToInt(i: nat)
    requires i < 256
    ensures (i as bv8) as nat == i
  {
    BinaryDigits(i);
  }

  lemma {:induction false} BinaryDigits(i: nat)
    requires i < 256
    ensures i == i / 128 % 2 * 128 + i / 64 % 2 * 64 + i / 32 % 2 * 32 + i / 16 % 2 * 16
                 + i / 8 % 2 * 8 + i / 4 % 2 * 4 + i / 2 % 2 * 2 + i % 2
  {
    assert i / 2 / 2 == i / 4 && i / 4 / 2 == i / 8 && i / 8 / 2 == i / 16 && i / 16 / 2 == i / 32
        && i / 32 / 2 == i / 64 && i / 64 / 2 == i / 128 && i / 128 < 2;
    Halve(i);
    Halve(i / 2);
    Halve(i / 4);
    Halve(i / 8);
    Halve(i / 16);
    Halve(i / 32);
    Halve(i / 64);
  }

  lemma {:induction false} Halve(i: nat)
    ensures i == 2 * (i / 2) + i % 2
  {
  }
}
