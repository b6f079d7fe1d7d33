/** MD5: the digest of RFC 1321, and the block function that computes it. */
module Md5 {
  import opened Bytes

  /** A word of the digest, and a counter that wraps around at 2^32. */
  type word = bv32

  const WORD := 0x1_0000_0000
  type count = n: int | 0 <= n < 0x1_0000_0000

  function Add(x: word, y: word): word { x + y }

  /** Circular shift to the left. */
  function Rotate(x: word, s: nat): word
    requires s < 32
  {
    (x << s) | (x >> (32 - s))
  }

  // ---- section 3.4 of RFC 1321 --------------------------------------------------------

  function And(x: word, y: word): word { x & y }

  function Or(x: word, y: word): word { x | y }

  function Xor(x: word, y: word): word { x ^ y }

  function Not(x: word): word { !x }

  function F(x: word, y: word, z: word): word { Or(And(x, y), And(Not(x), z)) }

  function G(x: word, y: word, z: word): word { Or(And(x, z), And(y, Not(z))) }

  function H(x: word, y: word, z: word): word { Xor(Xor(x, y), z) }

  function I(x: word, y: word, z: word): word { Xor(y, Or(x, Not(z))) }

  /** The auxiliary functions, round by round. */
  function Auxiliary(round: nat, x: word, y: word, z: word): word {
    if round == 0 then F(x, y, z) else if round == 1 then G(x, y, z) else if round == 2 then H(x, y, z)
    else I(x, y, z)
  }

  /** Which message word operation i uses. */
  function MessageIndex(i: nat): (k: nat)
    ensures i < 64 ==> k < 16
  {
    if i < 16 then i
    else if i < 32 then (5 * i + 1) % 16
    else if i < 48 then (3 * i + 5) % 16
    else 7 * i % 16
  }

  /** How far operation i shifts. */
  function ShiftAmount(i: nat): (s: nat)
    ensures s < 32
  {
    if i < 16 then [7, 12, 17, 22][i % 4]
    else if i < 32 then [5, 9, 14, 20][i % 4]
    else if i < 48 then [4, 11, 16, 23][i % 4]
    else [6, 10, 15, 21][i % 4]
  }

  datatype Table = Table(sin: word, x: nat, rot: nat)

  /** The program's table: sine constants, message indices and shift amounts. */
  function Tab(i: nat): Table
    requires i < 64
  {
    match i
    case 0 => Table(0xd76aa478, 0, 7)
    case 1 => Table(0xe8c7b756, 1, 12)
    case 2 => Table(0x242070db, 2, 17)
    case 3 => Table(0xc1bdceee, 3, 22)
    case 4 => Table(0xf57c0faf, 4, 7)
    case 5 => Table(0x4787c62a, 5, 12)
    case 6 => Table(0xa8304613, 6, 17)
    case 7 => Table(0xfd469501, 7, 22)
    case 8 => Table(0x698098d8, 8, 7)
    case 9 => Table(0x8b44f7af, 9, 12)
    case 10 => Table(0xffff5bb1, 10, 17)
    case 11 => Table(0x895cd7be, 11, 22)
    case 12 => Table(0x6b901122, 12, 7)
    case 13 => Table(0xfd987193, 13, 12)
    case 14 => Table(0xa679438e, 14, 17)
    case 15 => Table(0x49b40821, 15, 22)
    case 16 => Table(0xf61e2562, 1, 5)
    case 17 => Table(0xc040b340, 6, 9)
    case 18 => Table(0x265e5a51, 11, 14)
    case 19 => Table(0xe9b6c7aa, 0, 20)
    case 20 => Table(0xd62f105d, 5, 5)
    case 21 => Table(0x2441453, 10, 9)
    case 22 => Table(0xd8a1e681, 15, 14)
    case 23 => Table(0xe7d3fbc8, 4, 20)
    case 24 => Table(0x21e1cde6, 9, 5)
    case 25 => Table(0xc33707d6, 14, 9)
    case 26 => Table(0xf4d50d87, 3, 14)
    case 27 => Table(0x455a14ed, 8, 20)
    case 28 => Table(0xa9e3e905, 13, 5)
    case 29 => Table(0xfcefa3f8, 2, 9)
    case 30 => Table(0x676f02d9, 7, 14)
    case 31 => Table(0x8d2a4c8a, 12, 20)
    case 32 => Table(0xfffa3942, 5, 4)
    case 33 => Table(0x8771f681, 8, 11)
    case 34 => Table(0x6d9d6122, 11, 16)
    case 35 => Table(0xfde5380c, 14, 23)
    case 36 => Table(0xa4beea44, 1, 4)
    case 37 => Table(0x4bdecfa9, 4, 11)
    case 38 => Table(0xf6bb4b60, 7, 16)
    case 39 => Table(0xbebfbc70, 10, 23)
    case 40 => Table(0x289b7ec6, 13, 4)
    case 41 => Table(0xeaa127fa, 0, 11)
    case 42 => Table(0xd4ef3085, 3, 16)
    case 43 => Table(0x4881d05, 6, 23)
    case 44 => Table(0xd9d4d039, 9, 4)
    case 45 => Table(0xe6db99e5, 12, 11)
    case 46 => Table(0x1fa27cf8, 15, 16)
    case 47 => Table(0xc4ac5665, 2, 23)
    case 48 => Table(0xf4292244, 0, 6)
    case 49 => Table(0x432aff97, 7, 10)
    case 50 => Table(0xab9423a7, 14, 15)
    case 51 => Table(0xfc93a039, 5, 21)
    case 52 => Table(0x655b59c3, 12, 6)
    case 53 => Table(0x8f0ccc92, 3, 10)
    case 54 => Table(0xffeff47d, 10, 15)
    case 55 => Table(0x85845dd1, 1, 21)
    case 56 => Table(0x6fa87e4f, 8, 6)
    case 57 => Table(0xfe2ce6e0, 15, 10)
    case 58 => Table(0xa3014314, 6, 15)
    case 59 => Table(0x4e0811a1, 13, 21)
    case 60 => Table(0xf7537e82, 4, 6)
    case 61 => Table(0xbd3af235, 11, 10)
    case 62 => Table(0x2ad7d2bb, 2, 15)
    case _ => Table(0xeb86d391, 9, 21)
  }

  function FourSum(a: word, f: word, x: word, t: word): word { Add(Add(a, f), Add(x, t)) }

  datatype State = State(a: word, b: word, c: word, d: word)

  const INIT := State(0x67452301, 0xefcdab89, 0x98badcfe, 0x10325476)

  /** b + ((a + f(b, c, d) + x + t) <<< s) */
  function Mixed(round: nat, a: word, b: word, c: word, d: word, x: word, t: word, s: nat): word
    requires s < 32
  {
    Add(b, Rotate(FourSum(a, Auxiliary(round, b, c, d), x, t), s))
  }

  /** Operation i on the four registers A, B, C, D: the standard names a different register
      each time, and updates it in place. */
  function Operation(regs: seq<word>, x: seq<word>, i: nat): (r: seq<word>)
    requires |regs| == 4 && |x| == 16 && i < 64
    ensures |r| == 4
  {
    var a := (4 - i % 4) % 4;
    regs[a := Mixed(i / 16, regs[a], regs[(a + 1) % 4], regs[(a + 2) % 4], regs[(a + 3) % 4], x[MessageIndex(i)],
                    Tab(i).sin, ShiftAmount(i))]
  }

  function Operations(regs: seq<word>, x: seq<word>, n: nat): (r: seq<word>)
    requires |regs| == 4 && |x| == 16 && n <= 64
    ensures |r| == 4
  {
    if n == 0 then regs else Operation(Operations(regs, x, n - 1), x, n - 1)
  }

  function FromBytes(b0: byte, b1: byte, b2: byte, b3: byte): word {
    (b0 as bv32) | ((b1 as bv32) << 8) | ((b2 as bv32) << 16) | ((b3 as bv32) << 24)
  }

  /** The words of a block, low-order byte first. */
  function Word(s: Text, k: nat): word
    requires 4 * k + 4 <= |s|
  {
    FromBytes(s[4 * k], s[4 * k + 1], s[4 * k + 2], s[4 * k + 3])
  }

  function Words(s: Text): (x: seq<word>)
    requires |s| == 64
    ensures |x| == 16 && forall k :: 0 <= k < 16 ==> x[k] == Word(s, k)
  {
    seq(16, k requires 0 <= k < 16 => Word(s, k))
  }

  /** One block. */
  function Compress(st: State, s: Text): State
    requires |s| == 64
  {
    var x := Words(s);
    var r := Operations([st.a, st.b, st.c, st.d], x, 4 * |x|);
    State(Add(st.a, r[0]), Add(st.b, r[1]), Add(st.c, r[2]), Add(st.d, r[3]))
  }

  /** All whole blocks of a text. */
  function Fold(st: State, s: Text): State
    decreases |s|
  {
    hide Compress;
    if |s| < 64 then st else Fold(Compress(st, s[..64]), s[64..])
  }

  /** The k low-order bytes of n, low-order byte first. */
  function LittleEndian(n: nat, k: nat): (s: Text)
    ensures |s| == k
  {
    if k == 0 then [] else [n % 256] + LittleEndian(n / 256, k - 1)
  }

  function Zeros(n: nat): (s: Text)
    ensures |s| == n
  {
    seq(n, i => 0)
  }

  /** What padding puts behind a message whose last block holds r bytes. */
  function Trailer(r: nat, bits: nat): (s: Text)
    requires r < 64
    ensures (r + |s|) % 64 == 0
  {
    [0x80] + Zeros((119 - r) % 64) + LittleEndian(bits, 8)
  }

  /** Sections 3.1 and 3.2: the padded message, given what its length field says. */
  function Padded(message: Text, bits: nat): Text {
    message + Trailer(|message| % 64, bits)
  }

  function LowByte(x: word): byte {
    (x & 0xFF) as int
  }

  /** The bytes of a word, low-order byte first. */
  function WordBytes(x: word): (s: Text)
    ensures |s| == 4
  {
    [LowByte(x), LowByte(x >> 8), LowByte(x >> 16), LowByte(x >> 24)]
  }

  function Encode(st: State): (s: Text)
    ensures |s| == 16
  {
    WordBytes(st.a) + WordBytes(st.b) + WordBytes(st.c) + WordBytes(st.d)
  }

  /** The MD5 digest of a message; the length field holds the 64 low-order bits of its length. */
  function Digest(message: Text): Text {
    Encode(Fold(INIT, Padded(message, 8 * |message| % 0x1_0000_0000_0000_0000)))
  }

  // ---- the table is the standard's ------------------------------------------------------

  lemma TableRound1(i: nat)
    requires 0 <= i < 16
    ensures Tab(i).x == MessageIndex(i) && Tab(i).rot == ShiftAmount(i)
  {
  }

  lemma TableRound2(i: nat)
    requires 16 <= i < 32
    ensures Tab(i).x == MessageIndex(i) && Tab(i).rot == ShiftAmount(i)
  {
  }

  lemma TableRound3(i: nat)
    requires 32 <= i < 48
    ensures Tab(i).x == MessageIndex(i) && Tab(i).rot == ShiftAmount(i)
  {
    hide Tab, MessageIndex, ShiftAmount;
    if i < 40 {
      FirstHalf3(i);
    } else {
      SecondHalf3(i);
    }
  }

  lemma FirstHalf3(i: nat)
    requires 32 <= i < 40
    ensures Tab(i).x == MessageIndex(i) && Tab(i).rot == ShiftAmount(i)
  {
  }

  lemma SecondHalf3(i: nat)
    requires 40 <= i < 48
    ensures Tab(i).x == MessageIndex(i) && Tab(i).rot == ShiftAmount(i)
  {
  }

  lemma TableRound4(i: nat)
    requires 48 <= i < 64
    ensures Tab(i).x == MessageIndex(i) && Tab(i).rot == ShiftAmount(i)
  {
  }

  lemma TableRows(i: nat)
    requires i < 64
    ensures Tab(i).x == MessageIndex(i) && Tab(i).rot == ShiftAmount(i)
  {
    hide Tab, MessageIndex, ShiftAmount;
    if i < 16 {
      TableRound1(i);
    } else if i < 32 {
      TableRound2(i);
    } else if i < 48 {
      TableRound3(i);
    } else {
      TableRound4(i);
    }
  }

  // ---- rotating the variables instead of renaming them -----------------------------------

  /** The registers as the program holds them after n operations: the one it updates next
      always comes first. */
  function Turned(regs: seq<word>, n: nat): State
    requires |regs| == 4
  {
    var a := (4 - n % 4) % 4;
    State(regs[a], regs[(a + 1) % 4], regs[(a + 2) % 4], regs[(a + 3) % 4])
  }

  /** One turn of the program's loop. */
  function Turn(st: State, x: seq<word>, i: nat): State
    requires |x| == 16 && i < 64
  {
    TableRows(i);
    var a := Add(st.a, Auxiliary(i / 16, st.b, st.c, st.d));
    var sum := Add(a, Add(x[Tab(i).x], Tab(i).sin));
    State(st.d, Add(Rotate(sum, Tab(i).rot), st.b), st.b, st.c)
  }

  lemma NextRegister(i: nat)
    ensures var a, z := (4 - i % 4) % 4, (4 - (i + 1) % 4) % 4;
            && z == (a + 3) % 4 && (z + 1) % 4 == a && (z + 2) % 4 == (a + 1) % 4 && (z + 3) % 4 == (a + 2) % 4
            && a != (a + 1) % 4 && a != (a + 2) % 4 && a != (a + 3) % 4
  {
  }

  /** Turning the variables is updating the registers in place. */
  lemma TurnIsOperation(regs: seq<word>, x: seq<word>, i: nat)
    requires |regs| == 4 && |x| == 16 && i < 64
    ensures Turn(Turned(regs, i), x, i) == Turned(Operation(regs, x, i), i + 1)
  {
    hide Auxiliary, Tab, Rotate, MessageIndex, ShiftAmount, Add;
    TableRows(i);
    NextRegister(i);
    var st := Turned(regs, i);
    var f := Auxiliary(i / 16, st.b, st.c, st.d);
    CommuteAdd(st.b, Rotate(FourSum(st.a, f, x[MessageIndex(i)], Tab(i).sin), ShiftAmount(i)));
  }

  lemma CommuteAdd(x: word, y: word)
    ensures Add(x, y) == Add(y, x)
  {
  }

  // ---- blocks come one after the other ------------------------------------------------------

  lemma {:induction false} FoldJoin(st: State, s: Text, t: Text)
    requires |s| % 64 == 0
    ensures Fold(st, s + t) == Fold(Fold(st, s), t)
    decreases |s|
  {
    hide Compress;
    if s == [] {
      assert s + t == t;
    } else {
      assert (s + t)[..64] == s[..64] && (s + t)[64..] == s[64..] + t;
      FoldJoin(Compress(st, s[..64]), s[64..], t);
    }
  }

  // ---- the length field ------------------------------------------------------------------------

  function Pow256(n: nat): (p: nat)
    ensures p > 0
  {
    if n == 0 then 1 else 256 * Pow256(n - 1)
  }

  lemma LowDigit(low: nat, p: nat, high: nat)
    requires p > 0
    ensures (low + 256 * p * high) % 256 == low % 256 && (low + 256 * p * high) / 256 == low / 256 + p * high
  {
    var q := p * high;
    assert 256 * p * high == 256 * q;
  }

  lemma {:induction false} LittleEndianSplit(low: nat, high: nat, j: nat, k: nat)
    requires low < Pow256(j)
    ensures LittleEndian(low + Pow256(j) * high, j + k) == LittleEndian(low, j) + LittleEndian(high, k)
  {
    if j > 0 {
      LowDigit(low, Pow256(j - 1), high);
      LittleEndianSplit(low / 256, high, j - 1, k);
    }
  }

  /** The two words the program writes behind the padding, len << 3 and len >> 29. */
  lemma LengthField(len: count)
    ensures LittleEndian(len * 8 % WORD, 4) + LittleEndian(len / 0x2000_0000, 4) == LittleEndian(8 * len, 8)
  {
    hide LittleEndian, Pow256;
    FourBytes();
    LengthHalves(len);
    LittleEndianSplit(len * 8 % WORD, len / 0x2000_0000, 4, 4);
  }

  lemma FourBytes()
    ensures Pow256(4) == WORD
  {
    assert Pow256(2) == 0x1_0000;
  }

  lemma LengthHalves(len: count)
    ensures len * 8 == len * 8 % WORD + WORD * (len / 0x2000_0000)
  {
  }

  lemma {:induction false} LittleEndianInjective(m: nat, n: nat, k: nat)
    requires m < Pow256(k) && n < Pow256(k) && LittleEndian(m, k) == LittleEndian(n, k)
    ensures m == n
  {
    if k > 0 {
      assert LittleEndian(m, k)[0] == m % 256 && LittleEndian(n, k)[0] == n % 256;
      assert LittleEndian(m, k)[1..] == LittleEndian(m / 256, k - 1);
      assert LittleEndian(n, k)[1..] == LittleEndian(n / 256, k - 1);
      LittleEndianInjective(m / 256, n / 256, k - 1);
    }
  }

  /** What the program digests: its length counter wraps around at 2^32 bytes. */
  function ProgramDigest(message: Text): Text {
    Encode(Fold(INIT, Padded(message, 8 * (|message| % WORD))))
  }

  /** The padded messages agree exactly when the length fields do. */
  lemma LengthFieldDecides(message: Text, m: nat, n: nat)
    requires m < 0x1_0000_0000_0000_0000 && n < 0x1_0000_0000_0000_0000
    ensures Padded(message, m) == Padded(message, n) <==> m == n
  {
    var p, q := Padded(message, m), Padded(message, n);
    assert Pow256(8) == 0x1_0000_0000_0000_0000 by {
      assert Pow256(2) == 0x1_0000;
      assert Pow256(4) == WORD;
      assert Pow256(6) == 0x1_0000_0000_0000;
    }
    assert p[|p| - 8..] == LittleEndian(m, 8) && q[|q| - 8..] == LittleEndian(n, 8);
    if p == q {
      LittleEndianInjective(m, n, 8);
    }
  }

  /** The program pads as the standard does exactly when its wrapped counter still holds the
      61 low-order bits of the length in bytes. */
  lemma PaddingIsStandard(message: Text)
    ensures Padded(message, 8 * (|message| % WORD)) == Padded(message, 8 * |message| % 0x1_0000_0000_0000_0000)
            <==> |message| % 0x2000_0000_0000_0000 < WORD
    ensures |message| < WORD ==> ProgramDigest(message) == Digest(message)
  {
    hide Padded, Encode, Fold;
    var n := |message|;
    LengthFieldDecides(message, 8 * (n % WORD), 8 * n % 0x1_0000_0000_0000_0000);
    BitsModulo(n);
  }

  lemma BitsModulo(n: nat)
    ensures 8 * n % 0x1_0000_0000_0000_0000 == 8 * (n % 0x2000_0000_0000_0000)
    ensures n % WORD == n % 0x2000_0000_0000_0000 <==> n % 0x2000_0000_0000_0000 < WORD
  {
    assert n % WORD == n % 0x2000_0000_0000_0000 % WORD;
  }

  /** At 2^32 bytes the counter has wrapped: the program pads as if the message were empty. */
  lemma PaddingWraps() returns (message: Text)
    ensures |message| == WORD
    ensures Padded(message, 8 * (|message| % WORD)) == Padded(message, 0)
    ensures Padded(message, 8 * (|message| % WORD)) != Padded(message, 8 * |message| % 0x1_0000_0000_0000_0000)
  {
    hide Padded;
    message := seq(WORD, _ => 0);
    PaddingIsStandard(message);
  }
}
