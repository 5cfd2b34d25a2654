/** Bytes as numbers. The solver goes through the values bit by bit, which is cheap over small ranges. */
module ByteNumbers {
  lemma Range0(x: int)
    requires 0 <= x < 32
    ensures (x as bv8) as int == x
  {
  }

  lemma Range1(x: int)
    requires 32 <= x < 64
    ensures (x as bv8) as int == x
  {
  }

  lemma Range2(x: int)
    requires 64 <= x < 96
    ensures (x as bv8) as int == x
  {
  }

  lemma Range3(x: int)
    requires 96 <= x < 128
    ensures (x as bv8) as int == x
  {
  }

  lemma Range4(x: int)
    requires 128 <= x < 160
    ensures (x as bv8) as int == x
  {
  }

  lemma Range5(x: int)
    requires 160 <= x < 192
    ensures (x as bv8) as int == x
  {
  }

  lemma Range6(x: int)
    requires 192 <= x < 224
    ensures (x as bv8) as int == x
  {
  }

  lemma Range7(x: int)
    requires 224 <= x < 256
    ensures (x as bv8) as int == x
  {
  }

  /** A number below 256 is the number of its byte. */
  lemma ByteRoundTrip(x: int)
    requires 0 <= x < 256
    ensures (x as bv8) as int == x
  {
    if x < 32 {
      Range0(x);
    } else if x < 64 {
      Range1(x);
    } else if x < 96 {
      Range2(x);
    } else if x < 128 {
      Range3(x);
    } else if x < 160 {
      Range4(x);
    } else if x < 192 {
      Range5(x);
    } else if x < 224 {
      Range6(x);
    } else {
      Range7(x);
    }
  }
}
