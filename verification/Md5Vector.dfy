/** A test of section A.5 of RFC 1321, operation by operation: the digest of the alphabet. */
module Md5Vector {
  import opened Bytes
  import opened Md5
  import opened Md5Sum

  /** "abcdefghijklmnopqrstuvwxyz" */
  function Alphabet(): Text {
    seq(26, k requires 0 <= k < 26 => 97 + k)
  }

  /** The sixteen words of the one block it is padded to. */
  predicate AlphabetBlock(x: seq<word>) {
    && |x| == 16
    && x[0] == 0x64636261 && x[1] == 0x68676665 && x[2] == 0x6c6b6a69 && x[3] == 0x706f6e6d
    && x[4] == 0x74737271 && x[5] == 0x78777675 && x[6] == 0x00807a79 && x[14] == 0x000000d0
    && x[7] == 0 && x[8] == 0 && x[9] == 0 && x[10] == 0 && x[11] == 0 && x[12] == 0 && x[13] == 0 && x[15] == 0
  }

  /** The variables of the program's loop after n turns. */
  function Turns(st: State, x: seq<word>, n: nat): State
    requires |x| == 16 && n <= 64
  {
    if n == 0 then st else Turn(Turns(st, x, n - 1), x, n - 1)
  }

  lemma {:induction false} TurnsAreOperations(st: State, x: seq<word>, n: nat)
    requires |x| == 16 && n <= 64
    ensures Turns(st, x, n) == Turned(Operations([st.a, st.b, st.c, st.d], x, n), n)
  {
    hide Turn, Operation;
    if n > 0 {
      TurnsAreOperations(st, x, n - 1);
      OperationsStep([st.a, st.b, st.c, st.d], x, n - 1);
    }
  }

  lemma NoTurn(st: State, x: seq<word>)
    requires |x| == 16
    ensures Turns(st, x, 0) == st
  {
  }

  /** One turn more, with word m, constant t and shift s. */
  lemma OneMore(st: State, x: seq<word>, i: nat, now: State, m: word, t: word, s: nat, v: word) returns (next: State)
    requires |x| == 16 && i < 64 && now == Turns(st, x, i)
    requires x[MessageIndex(i)] == m && Tab(i).sin == t && ShiftAmount(i) == s < 32
    requires v == Mixed(i / 16, now.a, now.b, now.c, now.d, m, t, s)
    ensures next == Turns(st, x, i + 1) == State(now.d, v, now.b, now.c)
  {
    hide Tab, MessageIndex, ShiftAmount, Auxiliary, Rotate, Add;
    TableRows(i);
    next := Turn(now, x, i);
    CommuteAdd(now.b, Rotate(FourSum(now.a, Auxiliary(i / 16, now.b, now.c, now.d), m, t), s));
  }

  lemma FirstMixes()
    ensures Mixed(0, 0x67452301, 0xefcdab89, 0x98badcfe, 0x10325476, 0x64636261, 0xd76aa478, 7) == 0xd6d117a6
    ensures Mixed(0, 0x10325476, 0xd6d117a6, 0xefcdab89, 0x98badcfe, 0x68676665, 0xe8c7b756, 12) == 0xaab1aaaa
    ensures Mixed(0, 0x98badcfe, 0xaab1aaaa, 0xd6d117a6, 0xefcdab89, 0x6c6b6a69, 0x242070db, 17) == 0x227d8cf1
    ensures Mixed(0, 0xefcdab89, 0x227d8cf1, 0xaab1aaaa, 0xd6d117a6, 0x706f6e6d, 0xc1bdceee, 22) == 0x4503b812
    ensures Mixed(0, 0xd6d117a6, 0x4503b812, 0x227d8cf1, 0xaab1aaaa, 0x74737271, 0xf57c0faf, 7) == 0xfe15f787
    ensures Mixed(0, 0xaab1aaaa, 0xfe15f787, 0x4503b812, 0x227d8cf1, 0x78777675, 0x4787c62a, 12) == 0xa811b278
    ensures Mixed(0, 0x227d8cf1, 0xa811b278, 0xfe15f787, 0x4503b812, 0x00807a79, 0xa8304613, 17) == 0xb71122fc
    ensures Mixed(0, 0x4503b812, 0xb71122fc, 0xa811b278, 0xfe15f787, 0x00000000, 0xfd469501, 22) == 0xda9bbb0d
  {
  }

  lemma SecondMixes()
    ensures Mixed(0, 0xfe15f787, 0xda9bbb0d, 0xb71122fc, 0xa811b278, 0x00000000, 0x698098d8, 7) == 0xae752899
    ensures Mixed(0, 0xa811b278, 0xae752899, 0xda9bbb0d, 0xb71122fc, 0x00000000, 0x8b44f7af, 12) == 0x2bbe757f
    ensures Mixed(0, 0xb71122fc, 0x2bbe757f, 0xae752899, 0xda9bbb0d, 0x00000000, 0xffff5bb1, 17) == 0x7d4bd80b
    ensures Mixed(0, 0xda9bbb0d, 0x7d4bd80b, 0x2bbe757f, 0xae752899, 0x00000000, 0x895cd7be, 22) == 0x56cfa5cb
    ensures Mixed(0, 0xae752899, 0x56cfa5cb, 0x7d4bd80b, 0x2bbe757f, 0x00000000, 0x6b901122, 7) == 0x1754a316
    ensures Mixed(0, 0x2bbe757f, 0x1754a316, 0x56cfa5cb, 0x7d4bd80b, 0x00000000, 0xfd987193, 12) == 0x85567d90
    ensures Mixed(0, 0x7d4bd80b, 0x85567d90, 0x1754a316, 0x56cfa5cb, 0x000000d0, 0xa679438e, 17) == 0x00df74d5
    ensures Mixed(0, 0x56cfa5cb, 0x00df74d5, 0x85567d90, 0x1754a316, 0x00000000, 0x49b40821, 22) == 0x608d6b7e
  {
  }

  lemma ThirdMixes()
    ensures Mixed(1, 0x1754a316, 0x608d6b7e, 0x00df74d5, 0x85567d90, 0x68676665, 0xf61e2562, 5) == 0x2d8071cc
    ensures Mixed(1, 0x85567d90, 0x2d8071cc, 0x608d6b7e, 0x00df74d5, 0x00807a79, 0xc040b340, 9) == 0x5dcee119
    ensures Mixed(1, 0x00df74d5, 0x5dcee119, 0x2d8071cc, 0x608d6b7e, 0x00000000, 0x265e5a51, 14) == 0xedfe7e4b
    ensures Mixed(1, 0x608d6b7e, 0xedfe7e4b, 0x5dcee119, 0x2d8071cc, 0x64636261, 0xe9b6c7aa, 20) == 0x4c2145b3
    ensures Mixed(1, 0x2d8071cc, 0x4c2145b3, 0xedfe7e4b, 0x5dcee119, 0x78777675, 0xd62f105d, 5) == 0x570c43e0
    ensures Mixed(1, 0x5dcee119, 0x570c43e0, 0x4c2145b3, 0xedfe7e4b, 0x00000000, 0x02441453, 9) == 0x977efd2a
    ensures Mixed(1, 0xedfe7e4b, 0x977efd2a, 0x570c43e0, 0x4c2145b3, 0x00000000, 0xd8a1e681, 14) == 0xc28ab49d
    ensures Mixed(1, 0x4c2145b3, 0xc28ab49d, 0x977efd2a, 0x570c43e0, 0x74737271, 0xe7d3fbc8, 20) == 0xc9f162d4
  {
  }

  lemma FourthMixes()
    ensures Mixed(1, 0x570c43e0, 0xc9f162d4, 0xc28ab49d, 0x977efd2a, 0x00000000, 0x21e1cde6, 5) == 0x25bfae3b
    ensures Mixed(1, 0x977efd2a, 0x25bfae3b, 0xc9f162d4, 0xc28ab49d, 0x000000d0, 0xc33707d6, 9) == 0x89980104
    ensures Mixed(1, 0xc28ab49d, 0x89980104, 0x25bfae3b, 0xc9f162d4, 0x706f6e6d, 0xf4d50d87, 14) == 0xf8c8365f
    ensures Mixed(1, 0xc9f162d4, 0xf8c8365f, 0x89980104, 0x25bfae3b, 0x00000000, 0x455a14ed, 20) == 0xe6d3b398
    ensures Mixed(1, 0x25bfae3b, 0xe6d3b398, 0xf8c8365f, 0x89980104, 0x00000000, 0xa9e3e905, 5) == 0xf54d8710
    ensures Mixed(1, 0x89980104, 0xf54d8710, 0xe6d3b398, 0xf8c8365f, 0x6c6b6a69, 0xfcefa3f8, 9) == 0x927b72e2
    ensures Mixed(1, 0xf8c8365f, 0x927b72e2, 0xf54d8710, 0xe6d3b398, 0x00000000, 0x676f02d9, 14) == 0x2e69afc7
    ensures Mixed(1, 0xe6d3b398, 0x2e69afc7, 0x927b72e2, 0xf54d8710, 0x00000000, 0x8d2a4c8a, 20) == 0xaeb35766
  {
  }

  lemma FifthMixes()
    ensures Mixed(2, 0xf54d8710, 0xaeb35766, 0x2e69afc7, 0x927b72e2, 0x78777675, 0xfffa3942, 4) == 0xb4bf680e
    ensures Mixed(2, 0x927b72e2, 0xb4bf680e, 0xaeb35766, 0x2e69afc7, 0x00000000, 0x8771f681, 11) == 0x4c8ffa80
    ensures Mixed(2, 0x2e69afc7, 0x4c8ffa80, 0xb4bf680e, 0xaeb35766, 0x00000000, 0x6d9d6122, 16) == 0x2361ed0a
    ensures Mixed(2, 0xaeb35766, 0x2361ed0a, 0x4c8ffa80, 0xb4bf680e, 0x000000d0, 0xfde5380c, 23) == 0x06a5e211
    ensures Mixed(2, 0xb4bf680e, 0x06a5e211, 0x2361ed0a, 0x4c8ffa80, 0x68676665, 0xa4beea44, 4) == 0xb9c0c733
    ensures Mixed(2, 0x4c8ffa80, 0xb9c0c733, 0x06a5e211, 0x2361ed0a, 0x74737271, 0x4bdecfa9, 11) == 0xf1e6dc7a
    ensures Mixed(2, 0x2361ed0a, 0xf1e6dc7a, 0xb9c0c733, 0x06a5e211, 0x00000000, 0xf6bb4b60, 16) == 0x23a9451b
    ensures Mixed(2, 0x06a5e211, 0x23a9451b, 0xf1e6dc7a, 0xb9c0c733, 0x00000000, 0xbebfbc70, 23) == 0x8d41bf99
  {
  }

  lemma SixthMixes()
    ensures Mixed(2, 0xb9c0c733, 0x8d41bf99, 0x23a9451b, 0xf1e6dc7a, 0x00000000, 0x289b7ec6, 4) == 0xa3e88ead
    ensures Mixed(2, 0xf1e6dc7a, 0xa3e88ead, 0x8d41bf99, 0x23a9451b, 0x64636261, 0xeaa127fa, 11) == 0x02c0b11c
    ensures Mixed(2, 0x23a9451b, 0x02c0b11c, 0xa3e88ead, 0x8d41bf99, 0x706f6e6d, 0xd4ef3085, 16) == 0x66f6468d
    ensures Mixed(2, 0x8d41bf99, 0x66f6468d, 0x02c0b11c, 0xa3e88ead, 0x00807a79, 0x04881d05, 23) == 0x90a35af5
    ensures Mixed(2, 0xa3e88ead, 0x90a35af5, 0x66f6468d, 0x02c0b11c, 0x00000000, 0xd9d4d039, 4) == 0xb5d41f9c
    ensures Mixed(2, 0x02c0b11c, 0xb5d41f9c, 0x90a35af5, 0x66f6468d, 0x00000000, 0xe6db99e5, 11) == 0xa04b4904
    ensures Mixed(2, 0x66f6468d, 0xa04b4904, 0xb5d41f9c, 0x90a35af5, 0x00000000, 0x1fa27cf8, 16) == 0x703d54d8
    ensures Mixed(2, 0x90a35af5, 0x703d54d8, 0xa04b4904, 0xb5d41f9c, 0x6c6b6a69, 0xc4ac5665, 23) == 0x71d10367
  {
  }

  lemma SeventhMixes()
    ensures Mixed(3, 0xb5d41f9c, 0x71d10367, 0x703d54d8, 0xa04b4904, 0x64636261, 0xf4292244, 6) == 0xfc32dd6e
    ensures Mixed(3, 0xa04b4904, 0xfc32dd6e, 0x71d10367, 0x703d54d8, 0x00000000, 0x432aff97, 10) == 0x65456b34
    ensures Mixed(3, 0x703d54d8, 0x65456b34, 0xfc32dd6e, 0x71d10367, 0x000000d0, 0xab9423a7, 15) == 0xb35602cb
    ensures Mixed(3, 0x71d10367, 0xb35602cb, 0x65456b34, 0xfc32dd6e, 0x78777675, 0xfc93a039, 21) == 0x33edb197
    ensures Mixed(3, 0xfc32dd6e, 0x33edb197, 0xb35602cb, 0x65456b34, 0x00000000, 0x655b59c3, 6) == 0xc1e942f1
    ensures Mixed(3, 0x65456b34, 0xc1e942f1, 0x33edb197, 0xb35602cb, 0x706f6e6d, 0x8f0ccc92, 10) == 0xd9bb987c
    ensures Mixed(3, 0xb35602cb, 0xd9bb987c, 0xc1e942f1, 0x33edb197, 0x00000000, 0xffeff47d, 15) == 0x23a68048
    ensures Mixed(3, 0x33edb197, 0x23a68048, 0xd9bb987c, 0xc1e942f1, 0x68676665, 0x85845dd1, 21) == 0x83877d1b
  {
  }

  lemma EighthMixes()
    ensures Mixed(3, 0xc1e942f1, 0x83877d1b, 0x23a68048, 0xd9bb987c, 0x00000000, 0x6fa87e4f, 6) == 0x0077c208
    ensures Mixed(3, 0xd9bb987c, 0x0077c208, 0x83877d1b, 0x23a68048, 0x00000000, 0xfe2ce6e0, 10) == 0x847fc2e7
    ensures Mixed(3, 0x23a68048, 0x847fc2e7, 0x0077c208, 0x83877d1b, 0x00807a79, 0xa3014314, 15) == 0xa3e2247f
    ensures Mixed(3, 0x83877d1b, 0xa3e2247f, 0x847fc2e7, 0x0077c208, 0x00000000, 0x4e0811a1, 21) == 0x5e6bc930
    ensures Mixed(3, 0x0077c208, 0x5e6bc930, 0xa3e2247f, 0x847fc2e7, 0x74737271, 0xf7537e82, 6) == 0x708ed9c2
    ensures Mixed(3, 0x847fc2e7, 0x708ed9c2, 0x5e6bc930, 0xa3e2247f, 0x00000000, 0xbd3af235, 10) == 0x2baf1354
    ensures Mixed(3, 0xa3e2247f, 0x2baf1354, 0x708ed9c2, 0x5e6bc930, 0x6c6b6a69, 0x2ad7d2bb, 15) == 0xd38f1e7f
    ensures Mixed(3, 0x5e6bc930, 0xd38f1e7f, 0x2baf1354, 0x708ed9c2, 0x00000000, 0xeb86d391, 21) == 0x1116e6d8
  {
  }

  lemma FirstEight(x: seq<word>) returns (r: State)
    requires AlphabetBlock(x)
    ensures r == Turns(INIT, x, 8) == State(0xfe15f787, 0xda9bbb0d, 0xb71122fc, 0xa811b278)
  {
    hide Mixed, Turns;
    FirstMixes();
    NoTurn(INIT, x);
    r := INIT;
    r := OneMore(INIT, x, 0, r, 0x64636261, 0xd76aa478, 7, 0xd6d117a6);
    r := OneMore(INIT, x, 1, r, 0x68676665, 0xe8c7b756, 12, 0xaab1aaaa);
    r := OneMore(INIT, x, 2, r, 0x6c6b6a69, 0x242070db, 17, 0x227d8cf1);
    r := OneMore(INIT, x, 3, r, 0x706f6e6d, 0xc1bdceee, 22, 0x4503b812);
    r := OneMore(INIT, x, 4, r, 0x74737271, 0xf57c0faf, 7, 0xfe15f787);
    r := OneMore(INIT, x, 5, r, 0x78777675, 0x4787c62a, 12, 0xa811b278);
    r := OneMore(INIT, x, 6, r, 0x00807a79, 0xa8304613, 17, 0xb71122fc);
    r := OneMore(INIT, x, 7, r, 0x00000000, 0xfd469501, 22, 0xda9bbb0d);
  }

  lemma SecondEight(x: seq<word>) returns (r: State)
    requires AlphabetBlock(x)
    ensures r == Turns(INIT, x, 16) == State(0x1754a316, 0x608d6b7e, 0x00df74d5, 0x85567d90)
  {
    hide Mixed, Turns;
    SecondMixes();
    r := FirstEight(x);
    r := OneMore(INIT, x, 8, r, 0x00000000, 0x698098d8, 7, 0xae752899);
    r := OneMore(INIT, x, 9, r, 0x00000000, 0x8b44f7af, 12, 0x2bbe757f);
    r := OneMore(INIT, x, 10, r, 0x00000000, 0xffff5bb1, 17, 0x7d4bd80b);
    r := OneMore(INIT, x, 11, r, 0x00000000, 0x895cd7be, 22, 0x56cfa5cb);
    r := OneMore(INIT, x, 12, r, 0x00000000, 0x6b901122, 7, 0x1754a316);
    r := OneMore(INIT, x, 13, r, 0x00000000, 0xfd987193, 12, 0x85567d90);
    r := OneMore(INIT, x, 14, r, 0x000000d0, 0xa679438e, 17, 0x00df74d5);
    r := OneMore(INIT, x, 15, r, 0x00000000, 0x49b40821, 22, 0x608d6b7e);
  }

  lemma ThirdEight(x: seq<word>) returns (r: State)
    requires AlphabetBlock(x)
    ensures r == Turns(INIT, x, 24) == State(0x570c43e0, 0xc9f162d4, 0xc28ab49d, 0x977efd2a)
  {
    hide Mixed, Turns;
    ThirdMixes();
    r := SecondEight(x);
    r := OneMore(INIT, x, 16, r, 0x68676665, 0xf61e2562, 5, 0x2d8071cc);
    r := OneMore(INIT, x, 17, r, 0x00807a79, 0xc040b340, 9, 0x5dcee119);
    r := OneMore(INIT, x, 18, r, 0x00000000, 0x265e5a51, 14, 0xedfe7e4b);
    r := OneMore(INIT, x, 19, r, 0x64636261, 0xe9b6c7aa, 20, 0x4c2145b3);
    r := OneMore(INIT, x, 20, r, 0x78777675, 0xd62f105d, 5, 0x570c43e0);
    r := OneMore(INIT, x, 21, r, 0x00000000, 0x02441453, 9, 0x977efd2a);
    r := OneMore(INIT, x, 22, r, 0x00000000, 0xd8a1e681, 14, 0xc28ab49d);
    r := OneMore(INIT, x, 23, r, 0x74737271, 0xe7d3fbc8, 20, 0xc9f162d4);
  }

  lemma FourthEight(x: seq<word>) returns (r: State)
    requires AlphabetBlock(x)
    ensures r == Turns(INIT, x, 32) == State(0xf54d8710, 0xaeb35766, 0x2e69afc7, 0x927b72e2)
  {
    hide Mixed, Turns;
    FourthMixes();
    r := ThirdEight(x);
    r := OneMore(INIT, x, 24, r, 0x00000000, 0x21e1cde6, 5, 0x25bfae3b);
    r := OneMore(INIT, x, 25, r, 0x000000d0, 0xc33707d6, 9, 0x89980104);
    r := OneMore(INIT, x, 26, r, 0x706f6e6d, 0xf4d50d87, 14, 0xf8c8365f);
    r := OneMore(INIT, x, 27, r, 0x00000000, 0x455a14ed, 20, 0xe6d3b398);
    r := OneMore(INIT, x, 28, r, 0x00000000, 0xa9e3e905, 5, 0xf54d8710);
    r := OneMore(INIT, x, 29, r, 0x6c6b6a69, 0xfcefa3f8, 9, 0x927b72e2);
    r := OneMore(INIT, x, 30, r, 0x00000000, 0x676f02d9, 14, 0x2e69afc7);
    r := OneMore(INIT, x, 31, r, 0x00000000, 0x8d2a4c8a, 20, 0xaeb35766);
  }

  lemma FifthEight(x: seq<word>) returns (r: State)
    requires AlphabetBlock(x)
    ensures r == Turns(INIT, x, 40) == State(0xb9c0c733, 0x8d41bf99, 0x23a9451b, 0xf1e6dc7a)
  {
    hide Mixed, Turns;
    FifthMixes();
    r := FourthEight(x);
    r := OneMore(INIT, x, 32, r, 0x78777675, 0xfffa3942, 4, 0xb4bf680e);
    r := OneMore(INIT, x, 33, r, 0x00000000, 0x8771f681, 11, 0x4c8ffa80);
    r := OneMore(INIT, x, 34, r, 0x00000000, 0x6d9d6122, 16, 0x2361ed0a);
    r := OneMore(INIT, x, 35, r, 0x000000d0, 0xfde5380c, 23, 0x06a5e211);
    r := OneMore(INIT, x, 36, r, 0x68676665, 0xa4beea44, 4, 0xb9c0c733);
    r := OneMore(INIT, x, 37, r, 0x74737271, 0x4bdecfa9, 11, 0xf1e6dc7a);
    r := OneMore(INIT, x, 38, r, 0x00000000, 0xf6bb4b60, 16, 0x23a9451b);
    r := OneMore(INIT, x, 39, r, 0x00000000, 0xbebfbc70, 23, 0x8d41bf99);
  }

  lemma SixthEight(x: seq<word>) returns (r: State)
    requires AlphabetBlock(x)
    ensures r == Turns(INIT, x, 48) == State(0xb5d41f9c, 0x71d10367, 0x703d54d8, 0xa04b4904)
  {
    hide Mixed, Turns;
    SixthMixes();
    r := FifthEight(x);
    r := OneMore(INIT, x, 40, r, 0x00000000, 0x289b7ec6, 4, 0xa3e88ead);
    r := OneMore(INIT, x, 41, r, 0x64636261, 0xeaa127fa, 11, 0x02c0b11c);
    r := OneMore(INIT, x, 42, r, 0x706f6e6d, 0xd4ef3085, 16, 0x66f6468d);
    r := OneMore(INIT, x, 43, r, 0x00807a79, 0x04881d05, 23, 0x90a35af5);
    r := OneMore(INIT, x, 44, r, 0x00000000, 0xd9d4d039, 4, 0xb5d41f9c);
    r := OneMore(INIT, x, 45, r, 0x00000000, 0xe6db99e5, 11, 0xa04b4904);
    r := OneMore(INIT, x, 46, r, 0x00000000, 0x1fa27cf8, 16, 0x703d54d8);
    r := OneMore(INIT, x, 47, r, 0x6c6b6a69, 0xc4ac5665, 23, 0x71d10367);
  }

  lemma SeventhEight(x: seq<word>) returns (r: State)
    requires AlphabetBlock(x)
    ensures r == Turns(INIT, x, 56) == State(0xc1e942f1, 0x83877d1b, 0x23a68048, 0xd9bb987c)
  {
    hide Mixed, Turns;
    SeventhMixes();
    r := SixthEight(x);
    r := OneMore(INIT, x, 48, r, 0x64636261, 0xf4292244, 6, 0xfc32dd6e);
    r := OneMore(INIT, x, 49, r, 0x00000000, 0x432aff97, 10, 0x65456b34);
    r := OneMore(INIT, x, 50, r, 0x000000d0, 0xab9423a7, 15, 0xb35602cb);
    r := OneMore(INIT, x, 51, r, 0x78777675, 0xfc93a039, 21, 0x33edb197);
    r := OneMore(INIT, x, 52, r, 0x00000000, 0x655b59c3, 6, 0xc1e942f1);
    r := OneMore(INIT, x, 53, r, 0x706f6e6d, 0x8f0ccc92, 10, 0xd9bb987c);
    r := OneMore(INIT, x, 54, r, 0x00000000, 0xffeff47d, 15, 0x23a68048);
    r := OneMore(INIT, x, 55, r, 0x68676665, 0x85845dd1, 21, 0x83877d1b);
  }

  lemma EighthEight(x: seq<word>) returns (r: State)
    requires AlphabetBlock(x)
    ensures r == Turns(INIT, x, 64) == State(0x708ed9c2, 0x1116e6d8, 0xd38f1e7f, 0x2baf1354)
  {
    hide Mixed, Turns;
    EighthMixes();
    r := SeventhEight(x);
    r := OneMore(INIT, x, 56, r, 0x00000000, 0x6fa87e4f, 6, 0x0077c208);
    r := OneMore(INIT, x, 57, r, 0x00000000, 0xfe2ce6e0, 10, 0x847fc2e7);
    r := OneMore(INIT, x, 58, r, 0x00807a79, 0xa3014314, 15, 0xa3e2247f);
    r := OneMore(INIT, x, 59, r, 0x00000000, 0x4e0811a1, 21, 0x5e6bc930);
    r := OneMore(INIT, x, 60, r, 0x74737271, 0xf7537e82, 6, 0x708ed9c2);
    r := OneMore(INIT, x, 61, r, 0x00000000, 0xbd3af235, 10, 0x2baf1354);
    r := OneMore(INIT, x, 62, r, 0x6c6b6a69, 0x2ad7d2bb, 15, 0xd38f1e7f);
    r := OneMore(INIT, x, 63, r, 0x00000000, 0xeb86d391, 21, 0x1116e6d8);
  }

  lemma AlphabetWords()
    ensures FromBytes(97, 98, 99, 100) == 0x64636261 && FromBytes(101, 102, 103, 104) == 0x68676665
    ensures FromBytes(105, 106, 107, 108) == 0x6c6b6a69 && FromBytes(109, 110, 111, 112) == 0x706f6e6d
    ensures FromBytes(113, 114, 115, 116) == 0x74737271 && FromBytes(117, 118, 119, 120) == 0x78777675
    ensures FromBytes(121, 122, 128, 0) == 0x00807a79 && FromBytes(0, 0, 0, 0) == 0
    ensures FromBytes(208, 0, 0, 0) == 0x000000d0
  {
  }

  lemma LengthBytes(n: nat)
    requires n == 208
    ensures LittleEndian(n, 8) == [208] + Zeros(7)
  {
    assert LittleEndian(0, 1) == [0] && LittleEndian(0, 3) == [0, 0, 0];
    assert LittleEndian(0, 5) == [0, 0, 0, 0, 0] && LittleEndian(0, 7) == Zeros(7);
  }

  /** The byte at k of the padded alphabet. */
  function ByteAt(k: nat): byte
    requires k < 64
  {
    if k < 26 then 97 + k else if k == 26 then 128 else if k == 56 then 208 else 0
  }

  lemma PaddedBytes() returns (p: Text)
    ensures p == Padded(Alphabet(), 208) && |p| == 64 && forall k :: 0 <= k < 64 ==> p[k] == ByteAt(k)
  {
    hide LittleEndian;
    p := Padded(Alphabet(), 208);
    LengthBytes(208);
    assert p == Alphabet() + ([128] + Zeros(29) + ([208] + Zeros(7)));
  }

  lemma AlphabetPadded() returns (p: Text)
    ensures p == Padded(Alphabet(), 208) && |p| == 64 && AlphabetBlock(Words(p))
  {
    hide FromBytes, Words, Padded, Alphabet;
    p := PaddedBytes();
    AlphabetWords();
  }

  lemma FinalSums()
    ensures Add(0x67452301, 0x708ed9c2) == 0xd7d3fcc3 && Add(0xefcdab89, 0x1116e6d8) == 0x00e49261
    ensures Add(0x98badcfe, 0xd38f1e7f) == 0x6c49fb7d && Add(0x10325476, 0x2baf1354) == 0x3be167ca
  {
  }

  lemma FinalBytes()
    ensures WordBytes(0xd7d3fcc3) == [0xc3, 0xfc, 0xd3, 0xd7] && WordBytes(0x00e49261) == [0x61, 0x92, 0xe4, 0x00]
    ensures WordBytes(0x6c49fb7d) == [0x7d, 0xfb, 0x49, 0x6c] && WordBytes(0x3be167ca) == [0xca, 0x67, 0xe1, 0x3b]
  {
  }

  lemma CompressIs(p: Text, r: State)
    requires |p| == 64 && r == Turns(INIT, Words(p), 64)
    ensures Compress(INIT, p) == State(Add(INIT.a, r.a), Add(INIT.b, r.b), Add(INIT.c, r.c), Add(INIT.d, r.d))
  {
    hide Turns, Operations, Words, Add;
    TurnsAreOperations(INIT, Words(p), 64);
  }

  lemma OneBlock(p: Text)
    requires |p| == 64
    ensures Fold(INIT, p) == Compress(INIT, p)
  {
    hide Compress;
    assert p[..64] == p && p[64..] == [];
    assert Fold(Compress(INIT, p), []) == Compress(INIT, p);
  }

  lemma AlphabetState() returns (p: Text)
    ensures p == Padded(Alphabet(), 208)
    ensures Fold(INIT, p) == State(0xd7d3fcc3, 0x00e49261, 0x6c49fb7d, 0x3be167ca)
  {
    hide Turns, Compress, Padded, Words, Fold, Add, Alphabet, AlphabetBlock;
    p := AlphabetPadded();
    var r := EighthEight(Words(p));
    CompressIs(p, r);
    FinalSums();
    OneBlock(p);
  }

  /** Its digest is c3fcd3d76192e4007dfb496cca67e13b. */
  lemma AlphabetDigest()
    ensures Digest(Alphabet()) == [
      0xc3, 0xfc, 0xd3, 0xd7, 0x61, 0x92, 0xe4, 0x00, 0x7d, 0xfb, 0x49, 0x6c, 0xca, 0x67, 0xe1, 0x3b
    ]
  {
    hide WordBytes, Padded, Fold;
    var p := AlphabetState();
    FinalBytes();
    assert |Alphabet()| == 26;
  }
}
