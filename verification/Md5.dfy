/** The MD5 compression function as section 3.4 of RFC 1321 defines it, written as a
    loop over 64 operations [abcd k s i] that moves four registers. */
module Md5Spec {
  import opened Words
  import opened BlockStream

  datatype Regs = Regs(a: word, b: word, c: word, d: word)

  const H0 := Regs(0x67452301, 0xefcdab89, 0x98badcfe, 0x10325476)

  function F(x: word, y: word, z: word): word { (x & y) | (!x & z) }

  function G(x: word, y: word, z: word): word { (x & z) | (y & !z) }

  function H(x: word, y: word, z: word): word { x ^ y ^ z }

  function I(x: word, y: word, z: word): word { y ^ (x | !z) }

  function Ft(i: nat, x: word, y: word, z: word): word {
    if i < 16 then F(x, y, z) else if i < 32 then G(x, y, z) else if i < 48 then H(x, y, z) else I(x, y, z)
  }

  /** The index of the message word that operation i uses. */
  function K(i: nat): (k: nat)
    ensures k < 16
  {
    if i < 16 then i % 16 else if i < 32 then (5 * i + 1) % 16 else if i < 48 then (3 * i + 5) % 16 else 7 * i % 16
  }

  /** The rotation of operation i. */
  function S(i: nat): (s: word)
    ensures 0 < s < 32
  {
    var j := i % 4;
    if i < 16 then (if j == 0 then 7 else if j == 1 then 12 else if j == 2 then 17 else 22)
    else if i < 32 then (if j == 0 then 5 else if j == 1 then 9 else if j == 2 then 14 else 20)
    else if i < 48 then (if j == 0 then 4 else if j == 1 then 11 else if j == 2 then 16 else 23)
    else (if j == 0 then 6 else if j == 1 then 10 else if j == 2 then 15 else 21)
  }

  function Entry(j: nat, t0: word, t1: word, t2: word, t3: word): word {
    if j == 0 then t0 else if j == 1 then t1 else if j == 2 then t2 else t3
  }

  /** The table T: entry i is the integer part of 2^32 times |sin(i + 1)|. */
  function T(i: nat): word {
    if i < 16 then T1(i) else if i < 32 then T2(i - 16) else if i < 48 then T3(i - 32) else T4(i - 48)
  }

  function T1(i: nat): word {
    if i < 4 then Entry(i, 0xd76aa478, 0xe8c7b756, 0x242070db, 0xc1bdceee)
    else if i < 8 then Entry(i - 4, 0xf57c0faf, 0x4787c62a, 0xa8304613, 0xfd469501)
    else if i < 12 then Entry(i - 8, 0x698098d8, 0x8b44f7af, 0xffff5bb1, 0x895cd7be)
    else Entry(i - 12, 0x6b901122, 0xfd987193, 0xa679438e, 0x49b40821)
  }

  function T2(i: nat): word {
    if i < 4 then Entry(i, 0xf61e2562, 0xc040b340, 0x265e5a51, 0xe9b6c7aa)
    else if i < 8 then Entry(i - 4, 0xd62f105d, 0x02441453, 0xd8a1e681, 0xe7d3fbc8)
    else if i < 12 then Entry(i - 8, 0x21e1cde6, 0xc33707d6, 0xf4d50d87, 0x455a14ed)
    else Entry(i - 12, 0xa9e3e905, 0xfcefa3f8, 0x676f02d9, 0x8d2a4c8a)
  }

  function T3(i: nat): word {
    if i < 4 then Entry(i, 0xfffa3942, 0x8771f681, 0x6d9d6122, 0xfde5380c)
    else if i < 8 then Entry(i - 4, 0xa4beea44, 0x4bdecfa9, 0xf6bb4b60, 0xbebfbc70)
    else if i < 12 then Entry(i - 8, 0x289b7ec6, 0xeaa127fa, 0xd4ef3085, 0x04881d05)
    else Entry(i - 12, 0xd9d4d039, 0xe6db99e5, 0x1fa27cf8, 0xc4ac5665)
  }

  function T4(i: nat): word {
    if i < 4 then Entry(i, 0xf4292244, 0x432aff97, 0xab9423a7, 0xfc93a039)
    else if i < 8 then Entry(i - 4, 0x655b59c3, 0x8f0ccc92, 0xffeff47d, 0x85845dd1)
    else if i < 12 then Entry(i - 8, 0x6fa87e4f, 0xfe2ce6e0, 0xa3014314, 0x4e0811a1)
    else Entry(i - 12, 0xf7537e82, 0xbd3af235, 0x2ad7d2bb, 0xeb86d391)
  }

  function Sum(a: word, f: word, x: word, t: word): word { a + f + x + t }

  /** Operation i: a = b + ((a + F(b,c,d) + X[k] + T[i]) <<< s), and the registers move. */
  function Step(r: Regs, i: nat, x: word): Regs {
    Regs(r.d, Add(r.b, Rotl(S(i), Sum(r.a, Ft(i, r.b, r.c, r.d), x, T(i)))), r.b, r.c)
  }

  /** The registers after i operations. */
  function Steps(block: seq<word>, h: Regs, i: nat): Regs
    requires |block| == 16
  {
    if i == 0 then h else Step(Steps(block, h, i - 1), i - 1, block[K(i - 1)])
  }

  function AddRegs(h: Regs, r: Regs): Regs {
    Regs(Add(h.a, r.a), Add(h.b, r.b), Add(h.c, r.c), Add(h.d, r.d))
  }

  function Compress(h: Regs, block: Block): Regs {
    AddRegs(h, Steps(LittleEndianWords(block), h, 64))
  }
}

/** The unrolled compression function of tsk/base/md5c.c. */
module Md5Transform {
  import opened Words
  import opened Md5Spec

  /** The function a round applies: F, G, H or I. */
  function RoundFunction(round: nat, x: word, y: word, z: word): word {
    if round == 1 then F(x, y, z) else if round == 2 then G(x, y, z) else if round == 3 then H(x, y, z) else I(x, y, z)
  }

  /** The assignment (a) += f + (x) + (ac) of the macros. */
  function AddTo(a: word, f: word, x: word, ac: word): word { a + (f + x + ac) }

  /** The rotation amounts S11 to S44: they repeat every four operations. */
  function Shift(round: nat, column: nat): (s: word)
    ensures 0 < s < 32
  {
    if round == 1 then (if column == 1 then 7 else if column == 2 then 12 else if column == 3 then 17 else 22)
    else if round == 2 then (if column == 1 then 5 else if column == 2 then 9 else if column == 3 then 14 else 20)
    else if round == 3 then (if column == 1 then 4 else if column == 2 then 11 else if column == 3 then 16 else 23)
    else (if column == 1 then 6 else if column == 2 then 10 else if column == 3 then 15 else 21)
  }

  lemma ShiftIsS(round: nat, column: nat, i: nat)
    requires 1 <= round <= 4 && 16 * (round - 1) <= i < 16 * round
    requires 1 <= column <= 4 && i % 4 == column - 1
    ensures Shift(round, column) == S(i)
  {
  }

  lemma RoundFunctionIsFt(round: nat, i: nat, x: word, y: word, z: word)
    requires 1 <= round <= 4 && 16 * (round - 1) <= i < 16 * round
    ensures RoundFunction(round, x, y, z) == Ft(i, x, y, z)
  {
    hide F, G, H, I;
  }

  /** The macros FF, GG, HH and II: only a changes, and the caller renames the registers. */
  method Operation(round: nat, a: word, b: word, c: word, d: word, x: word, column: nat, ac: word,
                   ghost block: seq<word>, ghost h: Regs, ghost i: nat)
    returns (a': word)
    requires |block| == 16
    requires 1 <= round <= 4 && 16 * (round - 1) <= i < 16 * round
    requires 1 <= column <= 4 && i % 4 == column - 1
    requires Steps(block, h, i) == Regs(a, b, c, d)
    requires x == block[K(i)] && ac == T(i)
    ensures Steps(block, h, i + 1) == Regs(d, a', b, c)
  {
    hide *;
    a' := AddTo(a, RoundFunction(round, b, c, d), x, ac);
    a' := Rotl(Shift(round, column), a');
    a' := Add(a', b);
    RoundFunctionIsFt(round, i, b, c, d);
    ShiftIsS(round, column, i);
    SumsAgree(a, Ft(i, b, c, d), x, ac);
    AddCommutes(b, Rotl(S(i), Sum(a, Ft(i, b, c, d), x, ac)));
    StepsNext(block, h, i);
    StepIs(Regs(a, b, c, d), i, x);
  }

  lemma AddCommutes(x: word, y: word)
    ensures Add(x, y) == Add(y, x)
  {
  }

  lemma StepIs(r: Regs, i: nat, x: word)
    ensures Step(r, i, x) == Regs(r.d, Add(r.b, Rotl(S(i), Sum(r.a, Ft(i, r.b, r.c, r.d), x, T(i)))), r.b, r.c)
  {
    hide Add, Rotl, S, Sum, Ft, T;
  }

  lemma SumsAgree(a: word, f: word, x: word, t: word)
    ensures AddTo(a, f, x, t) == Sum(a, f, x, t)
  {
  }

  lemma StepsNext(block: seq<word>, h: Regs, i: nat)
    requires |block| == 16
    ensures Steps(block, h, i + 1) == Step(Steps(block, h, i), i, block[K(i)])
  {
    hide Step, K;
  }

  /** Four operations, after which every register is back in its own role. */
  method FourOperations(round: nat, ra: word, rb: word, rc: word, rd: word, x1: word, ac1: word, x2: word, ac2: word,
                        x3: word, ac3: word, x4: word, ac4: word, ghost block: seq<word>, ghost h: Regs, ghost i: nat)
    returns (a: word, b: word, c: word, d: word)
    requires |block| == 16
    requires 1 <= round <= 4 && 16 * (round - 1) <= i <= 16 * round - 4 && i % 4 == 0
    requires Steps(block, h, i) == Regs(ra, rb, rc, rd)
    requires x1 == block[K(i)] && ac1 == T(i)
    requires x2 == block[K(i + 1)] && ac2 == T(i + 1)
    requires x3 == block[K(i + 2)] && ac3 == T(i + 2)
    requires x4 == block[K(i + 3)] && ac4 == T(i + 3)
    ensures Steps(block, h, i + 4) == Regs(a, b, c, d)
  {
    hide *;
    a, b, c, d := ra, rb, rc, rd;
    a := Operation(round, a, b, c, d, x1, 1, ac1, block, h, i);
    d := Operation(round, d, a, b, c, x2, 2, ac2, block, h, i + 1);
    c := Operation(round, c, d, a, b, x3, 3, ac3, block, h, i + 2);
    b := Operation(round, b, c, d, a, x4, 4, ac4, block, h, i + 3);
  }

  // The message words and table entries of round 1.

  lemma Group0()
    ensures K(0) == 0 && K(1) == 1 && K(2) == 2 && K(3) == 3
    ensures T(0) == 0xd76aa478 && T(1) == 0xe8c7b756 && T(2) == 0x242070db && T(3) == 0xc1bdceee
  {
  }

  lemma Group4()
    ensures K(4) == 4 && K(5) == 5 && K(6) == 6 && K(7) == 7
    ensures T(4) == 0xf57c0faf && T(5) == 0x4787c62a && T(6) == 0xa8304613 && T(7) == 0xfd469501
  {
  }

  lemma Group8()
    ensures K(8) == 8 && K(9) == 9 && K(10) == 10 && K(11) == 11
    ensures T(8) == 0x698098d8 && T(9) == 0x8b44f7af && T(10) == 0xffff5bb1 && T(11) == 0x895cd7be
  {
  }

  lemma Group12()
    ensures K(12) == 12 && K(13) == 13 && K(14) == 14 && K(15) == 15
    ensures T(12) == 0x6b901122 && T(13) == 0xfd987193 && T(14) == 0xa679438e && T(15) == 0x49b40821
  {
  }

  method Round1(x: seq<word>, ra: word, rb: word, rc: word, rd: word, ghost h: Regs)
    returns (a: word, b: word, c: word, d: word)
    requires |x| == 16 && Steps(x, h, 0) == Regs(ra, rb, rc, rd)
    ensures Steps(x, h, 16) == Regs(a, b, c, d)
  {
    hide *;
    a, b, c, d := ra, rb, rc, rd;
    Group0();
    a, b, c, d := FourOperations(1, a, b, c, d, x[0], 0xd76aa478, x[1], 0xe8c7b756,
                                 x[2], 0x242070db, x[3], 0xc1bdceee, x, h, 0);
    Group4();
    a, b, c, d := FourOperations(1, a, b, c, d, x[4], 0xf57c0faf, x[5], 0x4787c62a,
                                 x[6], 0xa8304613, x[7], 0xfd469501, x, h, 4);
    Group8();
    a, b, c, d := FourOperations(1, a, b, c, d, x[8], 0x698098d8, x[9], 0x8b44f7af,
                                 x[10], 0xffff5bb1, x[11], 0x895cd7be, x, h, 8);
    Group12();
    a, b, c, d := FourOperations(1, a, b, c, d, x[12], 0x6b901122, x[13], 0xfd987193,
                                 x[14], 0xa679438e, x[15], 0x49b40821, x, h, 12);
  }

  // The message words and table entries of round 2.

  lemma Group16()
    ensures K(16) == 1 && K(17) == 6 && K(18) == 11 && K(19) == 0
    ensures T(16) == 0xf61e2562 && T(17) == 0xc040b340 && T(18) == 0x265e5a51 && T(19) == 0xe9b6c7aa
  {
  }

  lemma Group20()
    ensures K(20) == 5 && K(21) == 10 && K(22) == 15 && K(23) == 4
    ensures T(20) == 0xd62f105d && T(21) == 0x02441453 && T(22) == 0xd8a1e681 && T(23) == 0xe7d3fbc8
  {
  }

  lemma Group24()
    ensures K(24) == 9 && K(25) == 14 && K(26) == 3 && K(27) == 8
    ensures T(24) == 0x21e1cde6 && T(25) == 0xc33707d6 && T(26) == 0xf4d50d87 && T(27) == 0x455a14ed
  {
  }

  lemma Group28()
    ensures K(28) == 13 && K(29) == 2 && K(30) == 7 && K(31) == 12
    ensures T(28) == 0xa9e3e905 && T(29) == 0xfcefa3f8 && T(30) == 0x676f02d9 && T(31) == 0x8d2a4c8a
  {
  }

  method Round2(x: seq<word>, ra: word, rb: word, rc: word, rd: word, ghost h: Regs)
    returns (a: word, b: word, c: word, d: word)
    requires |x| == 16 && Steps(x, h, 16) == Regs(ra, rb, rc, rd)
    ensures Steps(x, h, 32) == Regs(a, b, c, d)
  {
    hide *;
    a, b, c, d := ra, rb, rc, rd;
    Group16();
    a, b, c, d := FourOperations(2, a, b, c, d, x[1], 0xf61e2562, x[6], 0xc040b340,
                                 x[11], 0x265e5a51, x[0], 0xe9b6c7aa, x, h, 16);
    Group20();
    a, b, c, d := FourOperations(2, a, b, c, d, x[5], 0xd62f105d, x[10], 0x02441453,
                                 x[15], 0xd8a1e681, x[4], 0xe7d3fbc8, x, h, 20);
    Group24();
    a, b, c, d := FourOperations(2, a, b, c, d, x[9], 0x21e1cde6, x[14], 0xc33707d6,
                                 x[3], 0xf4d50d87, x[8], 0x455a14ed, x, h, 24);
    Group28();
    a, b, c, d := FourOperations(2, a, b, c, d, x[13], 0xa9e3e905, x[2], 0xfcefa3f8,
                                 x[7], 0x676f02d9, x[12], 0x8d2a4c8a, x, h, 28);
  }

  // The message words and table entries of round 3.

  lemma Group32()
    ensures K(32) == 5 && K(33) == 8 && K(34) == 11 && K(35) == 14
    ensures T(32) == 0xfffa3942 && T(33) == 0x8771f681 && T(34) == 0x6d9d6122 && T(35) == 0xfde5380c
  {
  }

  lemma Group36()
    ensures K(36) == 1 && K(37) == 4 && K(38) == 7 && K(39) == 10
    ensures T(36) == 0xa4beea44 && T(37) == 0x4bdecfa9 && T(38) == 0xf6bb4b60 && T(39) == 0xbebfbc70
  {
  }

  lemma Group40()
    ensures K(40) == 13 && K(41) == 0 && K(42) == 3 && K(43) == 6
    ensures T(40) == 0x289b7ec6 && T(41) == 0xeaa127fa && T(42) == 0xd4ef3085 && T(43) == 0x04881d05
  {
  }

  lemma Group44()
    ensures K(44) == 9 && K(45) == 12 && K(46) == 15 && K(47) == 2
    ensures T(44) == 0xd9d4d039 && T(45) == 0xe6db99e5 && T(46) == 0x1fa27cf8 && T(47) == 0xc4ac5665
  {
  }

  method Round3(x: seq<word>, ra: word, rb: word, rc: word, rd: word, ghost h: Regs)
    returns (a: word, b: word, c: word, d: word)
    requires |x| == 16 && Steps(x, h, 32) == Regs(ra, rb, rc, rd)
    ensures Steps(x, h, 48) == Regs(a, b, c, d)
  {
    hide *;
    a, b, c, d := ra, rb, rc, rd;
    Group32();
    a, b, c, d := FourOperations(3, a, b, c, d, x[5], 0xfffa3942, x[8], 0x8771f681,
                                 x[11], 0x6d9d6122, x[14], 0xfde5380c, x, h, 32);
    Group36();
    a, b, c, d := FourOperations(3, a, b, c, d, x[1], 0xa4beea44, x[4], 0x4bdecfa9,
                                 x[7], 0xf6bb4b60, x[10], 0xbebfbc70, x, h, 36);
    Group40();
    a, b, c, d := FourOperations(3, a, b, c, d, x[13], 0x289b7ec6, x[0], 0xeaa127fa,
                                 x[3], 0xd4ef3085, x[6], 0x04881d05, x, h, 40);
    Group44();
    a, b, c, d := FourOperations(3, a, b, c, d, x[9], 0xd9d4d039, x[12], 0xe6db99e5,
                                 x[15], 0x1fa27cf8, x[2], 0xc4ac5665, x, h, 44);
  }

  // The message words and table entries of round 4.

  lemma Group48()
    ensures K(48) == 0 && K(49) == 7 && K(50) == 14 && K(51) == 5
    ensures T(48) == 0xf4292244 && T(49) == 0x432aff97 && T(50) == 0xab9423a7 && T(51) == 0xfc93a039
  {
  }

  lemma Group52()
    ensures K(52) == 12 && K(53) == 3 && K(54) == 10 && K(55) == 1
    ensures T(52) == 0x655b59c3 && T(53) == 0x8f0ccc92 && T(54) == 0xffeff47d && T(55) == 0x85845dd1
  {
  }

  lemma Group56()
    ensures K(56) == 8 && K(57) == 15 && K(58) == 6 && K(59) == 13
    ensures T(56) == 0x6fa87e4f && T(57) == 0xfe2ce6e0 && T(58) == 0xa3014314 && T(59) == 0x4e0811a1
  {
  }

  lemma Group60()
    ensures K(60) == 4 && K(61) == 11 && K(62) == 2 && K(63) == 9
    ensures T(60) == 0xf7537e82 && T(61) == 0xbd3af235 && T(62) == 0x2ad7d2bb && T(63) == 0xeb86d391
  {
  }

  method Round4(x: seq<word>, ra: word, rb: word, rc: word, rd: word, ghost h: Regs)
    returns (a: word, b: word, c: word, d: word)
    requires |x| == 16 && Steps(x, h, 48) == Regs(ra, rb, rc, rd)
    ensures Steps(x, h, 64) == Regs(a, b, c, d)
  {
    hide *;
    a, b, c, d := ra, rb, rc, rd;
    Group48();
    a, b, c, d := FourOperations(4, a, b, c, d, x[0], 0xf4292244, x[7], 0x432aff97,
                                 x[14], 0xab9423a7, x[5], 0xfc93a039, x, h, 48);
    Group52();
    a, b, c, d := FourOperations(4, a, b, c, d, x[12], 0x655b59c3, x[3], 0x8f0ccc92,
                                 x[10], 0xffeff47d, x[1], 0x85845dd1, x, h, 52);
    Group56();
    a, b, c, d := FourOperations(4, a, b, c, d, x[8], 0x6fa87e4f, x[15], 0xfe2ce6e0,
                                 x[6], 0xa3014314, x[13], 0x4e0811a1, x, h, 56);
    Group60();
    a, b, c, d := FourOperations(4, a, b, c, d, x[4], 0xf7537e82, x[11], 0xbd3af235,
                                 x[2], 0x2ad7d2bb, x[9], 0xeb86d391, x, h, 60);
  }

  function AsRegs(state: seq<word>): Regs
    requires |state| == 4
  {
    Regs(state[0], state[1], state[2], state[3])
  }

  /** Decode: little-endian bytes to words. */
  method Decode(input: seq<byte>) returns (output: array<word>)
    requires |input| % 4 == 0
    ensures fresh(output) && output[..] == LittleEndianWords(input)
  {
    var n := |input| / 4;
    output := new word[n];
    var i, j := 0, 0;
    while j < |input|
      invariant j == 4 * i && i <= n && output.Length == n
      invariant output[..i] == LittleEndianWords(input)[..i]
    {
      hide LittleEndianWord;
      output[i] := LittleEndianWord(input[j], input[j + 1], input[j + 2], input[j + 3]);
      i, j := i + 1, j + 4;
    }
  }

  /** Encode: words to little-endian bytes. */
  method Encode(input: seq<word>) returns (output: array<byte>)
    ensures fresh(output) && output[..] == LittleEndianBytes(input)
  {
    hide ByteOf, LittleEndianBytes;
    ghost var spec := LittleEndianBytes(input);
    output := new byte[4 * |input|];
    var i, j := 0, 0;
    while j < output.Length
      invariant j == 4 * i && i <= |input| && output.Length == 4 * |input|
      invariant forall k :: 0 <= k < i ==> SameFour(output[..], spec, k)
    {
      ghost var before := output[..];
      output[j] := ByteOf(input[i], 0);
      output[j + 1] := ByteOf(input[i], 1);
      output[j + 2] := ByteOf(input[i], 2);
      output[j + 3] := ByteOf(input[i], 3);
      LittleEndianBytesAt(input, i);
      forall k | 0 <= k < i ensures SameFour(output[..], spec, k) {
        assert SameFour(before, spec, k);
      }
      i, j := i + 1, j + 4;
    }
    SameByFours(output[..], spec);
  }

  /** Encode and Decode undo each other. */
  lemma EncodeDecode(words: seq<word>)
    ensures LittleEndianWords(LittleEndianBytes(words)) == words
  {
    hide *;
    forall i | 0 <= i < |words| ensures LittleEndianWords(LittleEndianBytes(words))[i] == words[i] {
      DecodedAt(words, i);
    }
  }

  lemma DecodedAt(words: seq<word>, i: nat)
    requires i < |words|
    ensures LittleEndianWords(LittleEndianBytes(words))[i] == words[i]
  {
    WordFromBytes(words[i]);
    LittleEndianBytesAt(words, i);
    hide ByteOf, LittleEndianWord, LittleEndianBytes;
  }

  lemma DecodeEncode(bytes: seq<byte>)
    requires |bytes| % 4 == 0
    ensures LittleEndianBytes(LittleEndianWords(bytes)) == bytes
  {
    var words := LittleEndianWords(bytes);
    forall j | 0 <= j < |bytes| ensures LittleEndianBytes(words)[j] == bytes[j] {
      var i := j / 4;
      BytesFromWord(bytes[4 * i], bytes[4 * i + 1], bytes[4 * i + 2], bytes[4 * i + 3]);
      hide ByteOf, LittleEndianWord;
      assert words[i] == LittleEndianWord(bytes[4 * i], bytes[4 * i + 1], bytes[4 * i + 2], bytes[4 * i + 3]);
    }
  }

  /** MD5Transform: the unrolled form computes the compression function of section 3.4 of
      RFC 1321, for every state and every block. */
  method MD5Transform(state: array<word>, block: Block)
    requires state.Length == 4
    modifies state
    ensures AsRegs(state[..]) == Compress(AsRegs(old(state[..])), block)
  {
    ghost var h := AsRegs(state[..]);
    var x := Decode(block);
    ghost var words := LittleEndianWords(block);
    CompressIs(h, block);
    hide *;
    var a, b, c, d := Operations(x[..], state[0], state[1], state[2], state[3], h);
    AddToState(state, a, b, c, d);
  }

  lemma CompressIs(h: Regs, block: Block)
    ensures Compress(h, block) == AddRegs(h, Steps(LittleEndianWords(block), h, 64))
  {
  }

  method Operations(x: seq<word>, ra: word, rb: word, rc: word, rd: word, ghost h: Regs)
    returns (a: word, b: word, c: word, d: word)
    requires |x| == 16 && h == Regs(ra, rb, rc, rd)
    ensures Steps(x, h, 64) == Regs(a, b, c, d)
  {
    assert Steps(x, h, 0) == h;
    hide *;
    a, b, c, d := Round1(x, ra, rb, rc, rd, h);
    a, b, c, d := Round2(x, a, b, c, d, h);
    a, b, c, d := Round3(x, a, b, c, d, h);
    a, b, c, d := Round4(x, a, b, c, d, h);
  }

  method AddToState(state: array<word>, a: word, b: word, c: word, d: word)
    requires state.Length == 4
    modifies state
    ensures AsRegs(state[..]) == AddRegs(AsRegs(old(state[..])), Regs(a, b, c, d))
  {
    hide Add;
    state[0] := Add(state[0], a);
    state[1] := Add(state[1], b);
    state[2] := Add(state[2], c);
    state[3] := Add(state[3], d);
  }
}
