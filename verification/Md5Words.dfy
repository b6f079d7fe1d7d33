/** The word operations of MD5 bit by bit. */
module Md5Words {
  import opened Bytes
  import opened Md5

  /** Bit k of a word, the low-order bit first. */
  predicate Bit(x: word, k: word)
    requires k < 32
  {
    (x >> k) & 1 == 1
  }

  lemma AndBit(x: word, y: word, k: word)
    requires k < 32
    ensures Bit(And(x, y), k) == (Bit(x, k) && Bit(y, k))
  {
  }

  lemma OrBit(x: word, y: word, k: word)
    requires k < 32
    ensures Bit(Or(x, y), k) == (Bit(x, k) || Bit(y, k))
  {
  }

  lemma NotBit(x: word, k: word)
    requires k < 32
    ensures Bit(Not(x), k) == !Bit(x, k)
  {
  }

  lemma XorParts(x: word, y: word)
    ensures Xor(x, y) == Or(And(x, Not(y)), And(Not(x), y))
  {
  }

  lemma XorBit(x: word, y: word, k: word)
    requires k < 32
    ensures Bit(Xor(x, y), k) == (Bit(x, k) != Bit(y, k))
  {
    hide Bit, And, Or, Xor, Not;
    XorParts(x, y);
    NotBit(x, k);
    NotBit(y, k);
    AndBit(x, Not(y), k);
    AndBit(Not(x), y, k);
    OrBit(And(x, Not(y)), And(Not(x), y), k);
  }

  /** Section 3.4: F selects y or z by the bits of x, G selects x or y by those of z, H is the parity
      and I is y xor (x or not z). */
  lemma TruthTables(x: word, y: word, z: word, k: word)
    requires k < 32
    ensures Bit(F(x, y, z), k) == if Bit(x, k) then Bit(y, k) else Bit(z, k)
    ensures Bit(G(x, y, z), k) == if Bit(z, k) then Bit(x, k) else Bit(y, k)
    ensures Bit(H(x, y, z), k) == (Bit(x, k) != (Bit(y, k) != Bit(z, k)))
    ensures Bit(I(x, y, z), k) == (Bit(y, k) != (Bit(x, k) || !Bit(z, k)))
  {
    hide Bit, And, Or, Xor, Not;
    NotBit(x, k);
    NotBit(z, k);
    AndBit(x, y, k);
    AndBit(Not(x), z, k);
    OrBit(And(x, y), And(Not(x), z), k);
    AndBit(x, z, k);
    AndBit(y, Not(z), k);
    OrBit(And(x, z), And(y, Not(z)), k);
    XorBit(x, y, k);
    XorBit(Xor(x, y), z, k);
    OrBit(x, Not(z), k);
    XorBit(y, Or(x, Not(z)), k);
  }

  /** Bit k of x is s places further up in r, past bit 31 from the other end. */
  predicate Moved(x: word, r: word, s: word, k: word)
    requires k < 32 && s < 32
  {
    Bit(r, if k < 32 - s then k + s else k - (32 - s)) == Bit(x, k)
  }

  lemma FirstShifts(x: word, k: word)
    requires k < 32
    ensures Moved(x, (x << 7) | (x >> 25), 7, k) && Moved(x, (x << 12) | (x >> 20), 12, k)
    ensures Moved(x, (x << 17) | (x >> 15), 17, k) && Moved(x, (x << 22) | (x >> 10), 22, k)
  {
  }

  /** Rotate, for the shift amounts of round 1. */
  lemma RotateRound1(x: word, k: word)
    requires k < 32
    ensures Moved(x, Rotate(x, 7), 7, k) && Moved(x, Rotate(x, 12), 12, k)
    ensures Moved(x, Rotate(x, 17), 17, k) && Moved(x, Rotate(x, 22), 22, k)
  {
    hide Moved;
    FirstShifts(x, k);
    assert Rotate(x, 7) == (x << 7) | (x >> 25);
    assert Rotate(x, 12) == (x << 12) | (x >> 20);
    assert Rotate(x, 17) == (x << 17) | (x >> 15);
    assert Rotate(x, 22) == (x << 22) | (x >> 10);
  }

  lemma SecondShifts(x: word, k: word)
    requires k < 32
    ensures Moved(x, (x << 5) | (x >> 27), 5, k) && Moved(x, (x << 9) | (x >> 23), 9, k)
    ensures Moved(x, (x << 14) | (x >> 18), 14, k) && Moved(x, (x << 20) | (x >> 12), 20, k)
  {
  }

  /** Rotate, for the shift amounts of round 2. */
  lemma RotateRound2(x: word, k: word)
    requires k < 32
    ensures Moved(x, Rotate(x, 5), 5, k) && Moved(x, Rotate(x, 9), 9, k)
    ensures Moved(x, Rotate(x, 14), 14, k) && Moved(x, Rotate(x, 20), 20, k)
  {
    hide Moved;
    SecondShifts(x, k);
    assert Rotate(x, 5) == (x << 5) | (x >> 27);
    assert Rotate(x, 9) == (x << 9) | (x >> 23);
    assert Rotate(x, 14) == (x << 14) | (x >> 18);
    assert Rotate(x, 20) == (x << 20) | (x >> 12);
  }

  lemma ThirdShifts(x: word, k: word)
    requires k < 32
    ensures Moved(x, (x << 4) | (x >> 28), 4, k) && Moved(x, (x << 11) | (x >> 21), 11, k)
    ensures Moved(x, (x << 16) | (x >> 16), 16, k) && Moved(x, (x << 23) | (x >> 9), 23, k)
  {
  }

  /** Rotate, for the shift amounts of round 3. */
  lemma RotateRound3(x: word, k: word)
    requires k < 32
    ensures Moved(x, Rotate(x, 4), 4, k) && Moved(x, Rotate(x, 11), 11, k)
    ensures Moved(x, Rotate(x, 16), 16, k) && Moved(x, Rotate(x, 23), 23, k)
  {
    hide Moved;
    ThirdShifts(x, k);
    assert Rotate(x, 4) == (x << 4) | (x >> 28);
    assert Rotate(x, 11) == (x << 11) | (x >> 21);
    assert Rotate(x, 16) == (x << 16) | (x >> 16);
    assert Rotate(x, 23) == (x << 23) | (x >> 9);
  }

  lemma FourthShifts(x: word, k: word)
    requires k < 32
    ensures Moved(x, (x << 6) | (x >> 26), 6, k) && Moved(x, (x << 10) | (x >> 22), 10, k)
    ensures Moved(x, (x << 15) | (x >> 17), 15, k) && Moved(x, (x << 21) | (x >> 11), 21, k)
  {
  }

  /** Rotate, for the shift amounts of round 4. */
  lemma RotateRound4(x: word, k: word)
    requires k < 32
    ensures Moved(x, Rotate(x, 6), 6, k) && Moved(x, Rotate(x, 10), 10, k)
    ensures Moved(x, Rotate(x, 15), 15, k) && Moved(x, Rotate(x, 21), 21, k)
  {
    hide Moved;
    FourthShifts(x, k);
    assert Rotate(x, 6) == (x << 6) | (x >> 26);
    assert Rotate(x, 10) == (x << 10) | (x >> 22);
    assert Rotate(x, 15) == (x << 15) | (x >> 17);
    assert Rotate(x, 21) == (x << 21) | (x >> 11);
  }

  lemma InitialBytes()
    ensures Encode(INIT) == [
      0x01, 0x23, 0x45, 0x67, 0x89, 0xab, 0xcd, 0xef, 0xfe, 0xdc, 0xba, 0x98, 0x76, 0x54, 0x32, 0x10
    ]
  {
  }
}
