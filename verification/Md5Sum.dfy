/** The streaming program: short reads fill a buffer, whole blocks are digested as they come,
    and the last call pads in place. */
module Md5Sum {
  import opened Bytes
  import opened Md5

  /** A file that is read front to back, in pieces nobody can foresee. */
  class Stream {
    const content: Text
    var position: nat

    constructor (content: Text)
      ensures this.content == content && position == 0
    {
      this.content, position := content, 0;
    }

    ghost predicate Valid()
      reads this
    {
      position <= |content|
    }

    /** fread: at least one byte and at most `max`, unless the file is at its end. */
    method Fread(buf: array<byte>, at: nat, max: nat) returns (n: nat)
      requires Valid() && at + max <= buf.Length
      modifies `position, buf
      ensures Valid() && n <= max && position == old(position) + n
      ensures n == 0 <==> max == 0 || old(position) == |content|
      ensures forall k {:trigger buf[k]} :: 0 <= k < at || at + n <= k < buf.Length ==> buf[k] == old(buf[k])
      ensures buf[at..at + n] == content[old(position)..position]
    {
      var left := |content| - position;
      var most := if max < left then max else left;
      if most == 0 {
        return 0;
      }
      n :| 1 <= n <= most;
      forall k | 0 <= k < n {
        buf[at + k] := content[position + k];
      }
      assert forall j {:trigger buf[j]} :: at <= j < at + n ==> buf[j] == content[position + (j - at)];
      position := position + n;
    }
  }

  /** encode, for one word of the digest. */
  method EncodeWord(output: array<byte>, at: nat, x: word)
    requires at + 4 <= output.Length
    modifies output
    ensures output[at..at + 4] == WordBytes(x)
    ensures forall k {:trigger output[k]} :: 0 <= k < at || at + 4 <= k < output.Length ==> output[k] == old(output[k])
  {
    hide LowByte;
    output[at] := LowByte(x);
    output[at + 1] := LowByte(x >> 8);
    output[at + 2] := LowByte(x >> 16);
    output[at + 3] := LowByte(x >> 24);
  }

  /** encode, for one word of the length. */
  method EncodeCount(output: array<byte>, at: nat, x: count)
    requires at + 4 <= output.Length
    modifies output
    ensures output[at..at + 4] == LittleEndian(x, 4)
    ensures forall k {:trigger output[k]} :: 0 <= k < at || at + 4 <= k < output.Length ==> output[k] == old(output[k])
  {
    output[at] := x % 256;
    output[at + 1] := x / 0x100 % 256;
    output[at + 2] := x / 0x1_0000 % 256;
    output[at + 3] := x / 0x100_0000 % 256;
    EncodedCount(x);
  }

  lemma EncodedCount(x: count)
    ensures LittleEndian(x, 4) == [x % 256, x / 0x100 % 256, x / 0x1_0000 % 256, x / 0x100_0000 % 256]
  {
    assert LittleEndian(x / 0x100_0000, 1) == [x / 0x100_0000 % 256];
    assert x / 0x1_0000 / 256 == x / 0x100_0000;
    assert LittleEndian(x / 0x1_0000, 2) == [x / 0x1_0000 % 256, x / 0x100_0000 % 256];
    assert x / 0x100 / 256 == x / 0x1_0000;
    assert LittleEndian(x / 0x100, 3) == [x / 0x100 % 256, x / 0x1_0000 % 256, x / 0x100_0000 % 256];
  }

  /** decode: the sixteen words of the block at `at`. */
  method DecodeBlock(p: array<byte>, at: nat) returns (x: array<word>)
    requires at + 64 <= p.Length
    ensures fresh(x) && x.Length == 16 && x[..] == Words(p[at..at + 64])
  {
    hide FromBytes;
    x := new word[16];
    var k := 0;
    while k < 16
      invariant 0 <= k <= 16
      invariant forall j {:trigger x[j]} :: 0 <= j < k ==> x[j] == Word(p[at..at + 64], j)
    {
      x[k] := FromBytes(p[at + 4 * k], p[at + 4 * k + 1], p[at + 4 * k + 2], p[at + 4 * k + 3]);
      k := k + 1;
    }
  }

  /** The sixty-four turns of one block. */
  method DigestBlock(st: State, p: array<byte>, at: nat) returns (next: State)
    requires at + 64 <= p.Length
    ensures next == Compress(st, p[at..at + 64])
  {
    hide Tab, Auxiliary, Rotate, Operation, MessageIndex, ShiftAmount, Turn, Add;
    ghost var s := p[at..at + 64];
    var x := DecodeBlock(p, at);
    var a, b, c, d := st.a, st.b, st.c, st.d;
    var i := 0;
    ghost var regs := [a, b, c, d];
    while i < 64
      invariant 0 <= i <= 64 && x[..] == Words(s)
      invariant State(a, b, c, d) == Turned(Operations(regs, x[..], i), i)
    {
      OperationsStep(regs, x[..], i);
      a, b, c, d := TurnVariables(State(a, b, c, d), x, i);
      i := i + 1;
    }
    next := State(Add(st.a, a), Add(st.b, b), Add(st.c, c), Add(st.d, d));
    CompressEnd(st, s, a, b, c, d);
  }

  method MixF(b: word, c: word, d: word) returns (f: word)
    ensures f == F(b, c, d)
  {
    hide And, Or, Not;
    f := Or(And(b, c), And(Not(b), d));
  }

  method MixG(b: word, c: word, d: word) returns (f: word)
    ensures f == G(b, c, d)
  {
    hide And, Or, Not;
    f := Or(And(b, d), And(c, Not(d)));
  }

  method MixH(b: word, c: word, d: word) returns (f: word)
    ensures f == H(b, c, d)
  {
    hide Xor;
    f := Xor(Xor(b, c), d);
  }

  method MixI(b: word, c: word, d: word) returns (f: word)
    ensures f == I(b, c, d)
  {
    hide Or, Xor, Not;
    f := Xor(c, Or(b, Not(d)));
  }

  /** The switch over the rounds. */
  method MixRound(round: nat, b: word, c: word, d: word) returns (f: word)
    requires round < 4
    ensures f == Auxiliary(round, b, c, d)
  {
    hide F, G, H, I;
    match round {
      case 0 => f := MixF(b, c, d);
      case 1 => f := MixG(b, c, d);
      case 2 => f := MixH(b, c, d);
      case _ => f := MixI(b, c, d);
    }
  }

  /** The body of the loop over i, statement by statement. */
  method TurnVariables(st: State, x: array<word>, i: nat) returns (a: word, b: word, c: word, d: word)
    requires x.Length == 16 && i < 64
    ensures State(a, b, c, d) == Turn(st, x[..], i)
  {
    hide Tab, Rotate, MessageIndex, ShiftAmount, Add, Auxiliary;
    a, b, c, d := st.a, st.b, st.c, st.d;
    TableRows(i);
    var t := Tab(i);
    var f := MixRound(i / 16, b, c, d);
    a := Add(a, f);
    a := Add(a, Add(x[t.x], t.sin));
    a := Rotate(a, t.rot);
    a := Add(a, b);
    var tmp := d;
    d := c;
    c := b;
    b := a;
    a := tmp;
  }

  lemma OperationsStep(regs: seq<word>, x: seq<word>, i: nat)
    requires |regs| == 4 && |x| == 16 && i < 64
    ensures Turn(Turned(Operations(regs, x, i), i), x, i) == Turned(Operations(regs, x, i + 1), i + 1)
  {
    hide Operation, Turn;
    TurnIsOperation(Operations(regs, x, i), x, i);
  }

  lemma CompressEnd(st: State, s: Text, a: word, b: word, c: word, d: word)
    requires |s| == 64
    requires State(a, b, c, d) == Turned(Operations([st.a, st.b, st.c, st.d], Words(s), 64), 64)
    ensures State(Add(st.a, a), Add(st.b, b), Add(st.c, c), Add(st.d, d)) == Compress(st, s)
  {
    hide Operations, Add;
    assert |Words(s)| == 16;
  }

  // ---- padding in place -----------------------------------------------------------

  /** Only a call with an empty or ragged piece pads and finishes. */
  predicate Finishes(len: nat) {
    len % 64 != 0 || len == 0
  }

  function PadLength(len: nat): nat {
    if len % 64 < 56 then 56 - len % 64 else 120 - len % 64
  }

  /** memset, and the byte that marks the end of the message. */
  method MarkEnd(p: array<byte>, len: nat, i: nat)
    requires 0 < i && len + i <= p.Length
    modifies p
    ensures p[..len] == old(p[..len]) && p[len..len + i] == [0x80] + Zeros(i - 1)
  {
    forall k | len <= k < len + i {
      p[k] := 0;
    }
    p[len] := 0x80;
  }

  /** The two words that count the bits. */
  method WriteLength(p: array<byte>, end: nat, total: count)
    requires end + 8 <= p.Length
    modifies p
    ensures p[..end] == old(p[..end]) && p[end..end + 8] == LittleEndian(8 * total, 8)
  {
    hide LittleEndian;
    EncodeCount(p, end, total * 8 % WORD);
    ghost var field := p[end..end + 4];
    EncodeCount(p, end + 4, total / 0x2000_0000);
    assert p[end..end + 4] == field;
    LengthField(total);
    assert p[end..end + 8] == p[end..end + 4] + p[end + 4..end + 8];
  }

  lemma PaddedPieces(message: Text, bits: nat)
    requires Finishes(|message|)
    ensures Padded(message, bits) == message + ([0x80] + Zeros(PadLength(|message|) - 1)) + LittleEndian(bits, 8)
  {
  }

  /** The padding and the length field, written behind the piece into the caller's buffer;
      the result does not count the eight bytes of the length field. */
  method PadInPlace(p: array<byte>, len: nat, total: count) returns (end: nat)
    requires Finishes(len) && len + PadLength(len) + 8 <= p.Length
    modifies p
    ensures end == len + PadLength(len)
    ensures p[..end + 8] == Padded(old(p[..len]), 8 * total)
  {
    hide Padded, LittleEndian, Zeros;
    var i := len % 64;
    if i < 56 {
      i := 56 - i;
    } else {
      i := 120 - i;
    }
    PaddedPieces(p[..len], 8 * total);
    MarkEnd(p, len, i);
    end := len + i;
    ghost var body := p[..end];
    assert body == p[..len] + p[len..end];
    WriteLength(p, end, total);
    assert p[..end + 8] == p[..end] + p[end..end + 8];
  }

  lemma FoldNext(st: State, s: Text, q: nat)
    requires q % 64 == 0 && q + 64 <= |s|
    ensures Fold(st, s[..q + 64]) == Compress(Fold(st, s[..q]), s[q..q + 64])
  {
    hide Compress;
    assert s[..q + 64] == s[..q] + s[q..q + 64];
    FoldJoin(st, s[..q], s[q..q + 64]);
    var b := s[q..q + 64];
    assert b[..64] == b && b[64..] == [];
    assert Fold(Compress(Fold(st, s[..q]), b), []) == Compress(Fold(st, s[..q]), b);
  }

  /** The loop over the blocks. It stops behind the block that holds the last counted byte, so
      the eight uncounted bytes of the length field are digested too. */
  method DigestBlocks(st: State, p: array<byte>, len: nat, ghost full: nat) returns (next: State)
    requires full % 64 == 0 && full < len + 64 && len <= full <= p.Length
    ensures next == Fold(st, p[..full])
  {
    hide Compress, Fold;
    next := st;
    var q := 0;
    ghost var s := p[..full];
    FoldNothing(st);
    assert s[..0] == [];
    while q < len
      invariant q % 64 == 0 && 0 <= q <= full && next == Fold(st, s[..q])
    {
      assert q + 64 <= full;
      FoldNext(st, s, q);
      assert p[q..q + 64] == s[q..q + 64];
      next := DigestBlock(next, p, q);
      q := q + 64;
    }
    assert q == full && s[..q] == s;
  }

  lemma FoldNothing(st: State)
    ensures Fold(st, []) == st
  {
  }

  // ---- one call ------------------------------------------------------------------

  class Md5State {
    var len: count
    var state: State

    constructor ()
      ensures len == 0 && state == INIT
    {
      len, state := 0, INIT;
    }
  }

  ghost function StateOf(s: Md5State?): State
    reads s
  {
    if s == null then INIT else s.state
  }

  ghost function LengthOf(s: Md5State?): count
    reads s
  {
    if s == null then 0 else s.len
  }

  /** encode, for the digest. */
  method EncodeState(output: array<byte>, st: State)
    requires output.Length == 16
    modifies output
    ensures output[..] == Md5.Encode(st)
  {
    hide WordBytes;
    EncodeWord(output, 0, st.a);
    ghost var a := output[0..4];
    EncodeWord(output, 4, st.b);
    assert output[0..4] == a;
    ghost var b := output[4..8];
    EncodeWord(output, 8, st.c);
    assert output[0..4] == a && output[4..8] == b;
    ghost var c := output[8..12];
    EncodeWord(output, 12, st.d);
    assert output[0..4] == a && output[4..8] == b && output[8..12] == c;
    assert output[..] == output[0..4] + output[4..8] + output[8..12] + output[12..16];
  }

  /** md5: digests a piece. A finishing call pads, returns the digest and drops the state. */
  method Md5Call(p: array<byte>, len: nat, digest: array<byte>, given: Md5State?) returns (s: Md5State?)
    requires len <= p.Length && len < WORD && digest.Length == 16 && digest != p
    requires Finishes(len) ==> len + PadLength(len) + 8 <= p.Length
    modifies p, digest, given
    ensures !Finishes(len) ==>
              && s != null && (s == given || fresh(s))
              && StateOf(s) == Fold(old(StateOf(given)), old(p[..len]))
              && LengthOf(s) == (old(LengthOf(given)) + len) % WORD
    ensures Finishes(len) ==>
              && s == null
              && digest[..] == Md5.Encode(Fold(old(StateOf(given)),
                   Padded(old(p[..len]), 8 * ((old(LengthOf(given)) + len) % WORD))))
  {
    hide Fold, Compress, Padded;
    s := given;
    if s == null {
      s := new Md5State();
    }
    s.len := (s.len + len) % WORD;
    if len % 64 != 0 || len == 0 {
      var end := PadInPlace(p, len, s.len);
      ghost var full := end + 8;
      PaddedWhole(len);
      var next := DigestBlocks(s.state, p, end, full);
      s.state := next;
      EncodeState(digest, next);
      return null;
    } else {
      var next := DigestBlocks(s.state, p, len, len);
      s.state := next;
    }
  }

  lemma PaddedWhole(len: nat)
    ensures (len + PadLength(len) + 8) % 64 == 0
  {
  }

  // ---- the program ----------------------------------------------------------------

  function Hex(s: Text): (h: Text)
    ensures |h| == 2 * |s|
  {
    if s == [] then [] else [HexDigit(s[0] / 16), HexDigit(s[0] % 16)] + Hex(s[1..])
  }

  /** What the program has digested and what it still holds make up what it has read. */
  ghost predicate Progress(content: Text, position: nat, done: Text, held: Text, s: Md5State?)
    reads s
  {
    && position <= |content| && content[..position] == done + held
    && |done| % 64 == 0 && StateOf(s) == Fold(INIT, done) && LengthOf(s) == |done| % WORD
  }

  lemma PieceDigested(content: Text, position: nat, done: Text, held: Text)
    requires position <= |content| && content[..position] == done + held && |done| % 64 == 0 && |held| % 64 == 0
    ensures Fold(INIT, done + held) == Fold(Fold(INIT, done), held)
    ensures content[..position] == (done + held) + [] && |done + held| % 64 == 0
  {
    hide Compress;
    FoldJoin(INIT, done, held);
  }

  /** The last piece, padded on its own, ends the padded whole. */
  lemma LastPiece(content: Text, done: Text, held: Text, bits: nat)
    requires content == done + held && |done| % 64 == 0
    ensures Fold(Fold(INIT, done), Padded(held, bits)) == Fold(INIT, Padded(content, bits))
  {
    hide Compress, Fold, Padded;
    PaddedBehind(done, held, bits);
    FoldJoin(INIT, done, Padded(held, bits));
  }

  /** Whole blocks in front leave the padding alone. */
  lemma PaddedBehind(done: Text, held: Text, bits: nat)
    requires |done| % 64 == 0
    ensures Padded(done + held, bits) == done + Padded(held, bits) && |Padded(held, bits)| % 64 == 0
  {
    hide Trailer;
    assert |done + held| % 64 == |held| % 64;
    var t := Trailer(|held| % 64, bits);
    assert (done + held) + t == done + (held + t);
  }

  /** One read, appended to what the buffer holds; nothing is read only at the end of the file. */
  method Refill(fd: Stream, buf: array<byte>, n: nat, ghost done: Text) returns (total: nat)
    requires fd.Valid() && n < 128 * 64 <= buf.Length && fd.content[..fd.position] == done + buf[..n]
    modifies fd`position, buf
    ensures fd.Valid() && n <= total <= 128 * 64 && fd.content[..fd.position] == done + buf[..total]
    ensures if total == n then fd.position == old(fd.position) == |fd.content| else fd.position > old(fd.position)
  {
    ghost var held := buf[..n];
    var i := fd.Fread(buf, n, 128 * 64 - n);
    total := n + i;
    assert buf[..n] == held;
    assert buf[..total] == held + buf[n..total];
    assert fd.content[..fd.position] == fd.content[..old(fd.position)] + fd.content[old(fd.position)..fd.position];
  }

  lemma WrappedSum(a: nat, b: nat)
    ensures (a % WORD + b) % WORD == (a + b) % WORD
  {
  }

  /** sum: however the file is split by short reads, the result is the digest of its whole
      content, and for content below 2^32 bytes that is the MD5 digest. No read asks for no
      bytes, so none is mistaken for the end of the file. */
  method Sum(fd: Stream) returns (hash: Text)
    requires fd.position == 0
    modifies fd`position
    ensures hash == Hex(ProgramDigest(fd.content))
    ensures |fd.content| < WORD ==> hash == Hex(Digest(fd.content))
  {
    hide Fold, Compress, Padded, Encode;
    var buf := new byte[256 * 64];
    var digest := new byte[16];
    var s: Md5State? := null;
    var n: nat := 0;
    ghost var done: Text := [];
    FoldNothing(INIT);
    assert fd.content[..0] == done + buf[..0];
    while true
      invariant fd.Valid() && n < 128 * 64 && (n == 0 || n % 64 != 0)
      invariant s == null || fresh(s)
      invariant Progress(fd.content, fd.position, done, buf[..n], s)
      decreases |fd.content| - fd.position
    {
      var total := Refill(fd, buf, n, done);
      if total == n {
        break;
      }
      n := total;
      if n % 64 != 0 {
        continue;
      }
      PieceDigested(fd.content, fd.position, done, buf[..n]);
      WrappedSum(|done|, n);
      done := done + buf[..n];
      s := Md5Call(buf, n, digest, s);
      n := 0;
      assert buf[..n] == [];
    }
    assert fd.content[..fd.position] == fd.content;
    WrappedSum(|done|, n);
    ghost var bits := 8 * (|fd.content| % WORD);
    LastPiece(fd.content, done, buf[..n], bits);
    s := Md5Call(buf, n, digest, s);
    assert digest[..] == Md5.Encode(Fold(INIT, Padded(fd.content, bits))) == ProgramDigest(fd.content);
    hash := Hex(digest[..]);
    PaddingIsStandard(fd.content);
  }
}
