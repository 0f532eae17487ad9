/** Facts about single machine words, apart from everything that would distract from them. */
module Words {
  lemma Widened(x: bv8, y: bv8)
    requires x as bv32 == y as bv32
    ensures x == y
  {
  }

  lemma NarrowByte(b: int)
    requires 0 <= b < 256
    ensures (b as bv8) as int == b
  {
    if b < 64 {
      if b < 16 {
      } else if b < 32 {
      } else if b < 48 {
      } else {
      }
    } else if b < 128 {
      if b < 80 {
      } else if b < 96 {
      } else if b < 112 {
      } else {
      }
    } else if b < 192 {
    } else {
    }
  }

  lemma Recovered(x: bv32)
    ensures (x as int) as bv32 == x
  {
  }

  lemma WordsEqual(x: bv32, y: bv32)
    requires x as nat == y as nat
    ensures x == y
  {
    Recovered(x);
    Recovered(y);
  }

  lemma SmallWord(v: bv32)
    requires v < 0x1_0000
    ensures v as int < 0x1_0000
  {
    assert (v as bv16) as bv32 == v;
    assert (v as bv16) as int < 0x1_0000;
  }
}
