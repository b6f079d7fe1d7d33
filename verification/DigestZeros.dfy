/** The digest in hexadecimal, and what its leading zeros say about the digest. */
module DigestZeros {
  import opened Bytes
  import opened Md5Sum
  import opened Treasure

  /** The character of a hexadecimal digit, from 0 to 9 and a to f. */
  function Character(d: int): int {
    if d < 10 then 48 + d else 97 + (d - 10)
  }

  /** Each byte is spelled by two digits, the high one first. */
  lemma {:induction false} HexAt(s: Text, k: nat)
    requires k < |s|
    ensures Hex(s)[2 * k] == Character(s[k] / 16) && Hex(s)[2 * k + 1] == Character(s[k] % 16)
  {
    if k > 0 {
      HexAt(s[1..], k - 1);
    }
  }

  /** Digit k of a digest, the high one of each byte first. */
  function DigitAt(s: Text, k: nat): int
    requires k < 2 * |s|
  {
    if k % 2 == 0 then s[k / 2] / 16 else s[k / 2] % 16
  }

  lemma DigitCharacter(s: Text, k: nat)
    requires k < 2 * |s|
    ensures Hex(s)[k] == Character(DigitAt(s, k))
  {
    hide Hex;
    HexAt(s, k / 2);
    assert k == 2 * (k / 2) + k % 2;
  }

  /** The zeros the hunt counts are the zero digits a digest starts with. */
  lemma ZerosAreDigits(s: Text, n: nat)
    requires n <= 2 * |s|
    ensures LeadingZeros(Hex(s)) >= n <==> forall k :: 0 <= k < n ==> DigitAt(s, k) == 0
  {
    hide Hex, LeadingZeros, DigitAt;
    forall k | 0 <= k < 2 * |s| ensures Hex(s)[k] == ZERO <==> DigitAt(s, k) == 0 {
      DigitCharacter(s, k);
    }
  }

}
