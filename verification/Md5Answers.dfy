/** Answers of appendix A.5 of RFC 1321, computed from the definition operation by operation. */
module Md5Answers {
  import opened Rfc1321
  import opened Md5Engine

  // ----- one operation after the other --------------------------------------

  /** What an operation gives for this word, shift and constant. */
  predicate Gives(j: nat, a: bv32, b: bv32, c: bv32, d: bv32, w: bv32, s: nat, t: bv32, v: bv32) {
    0 < s < 32 && Operation(a, b, Aux(j, b, c, d), w, s, t) == v
  }

  lemma Turns(j: nat, x: seq<bv32>, a: bv32, b: bv32, c: bv32, d: bv32, w: bv32, s: nat, t: bv32, v: bv32)
    requires |x| == 16 && j < 64
    requires Gives(j, a, b, c, d, w, s, t, v) && x[K[j]] == w && Shift(j) == s && T[j] == t
    requires Named(Steps(INITIAL, j, x), j) == Regs(a, b, c, d)
    ensures Named(Steps(INITIAL, j + 1, x), j + 1) == Regs(d, v, b, c)
  {
    hide Operation, Aux, Shift, T, K, Named, Assign;
    AssignThenRotate(Steps(INITIAL, j, x), j, v);
  }

  lemma EveryTurn(x: seq<bv32>)
    requires |x| == 16
    ensures forall j: nat, a, b, c, d, w, s: nat, t, v ::
      j < 64 && Gives(j, a, b, c, d, w, s, t, v) && x[K[j]] == w && Shift(j) == s && T[j] == t
      && Named(Steps(INITIAL, j, x), j) == Regs(a, b, c, d)
      ==> Named(Steps(INITIAL, j + 1, x), j + 1) == Regs(d, v, b, c)
  {
    hide Gives, Operation, Aux, Shift, Named, Steps;
    forall j: nat, a, b, c, d, w, s: nat, t, v |
      j < 64 && Gives(j, a, b, c, d, w, s, t, v) && x[K[j]] == w && Shift(j) == s && T[j] == t
      && Named(Steps(INITIAL, j, x), j) == Regs(a, b, c, d)
      ensures Named(Steps(INITIAL, j + 1, x), j + 1) == Regs(d, v, b, c)
    {
      Turns(j, x, a, b, c, d, w, s, t, v);
    }
  }

  // ----- the schedule, spelled out --------------------------------------------

  lemma FirstTables()
    ensures K[0] == 0 && K[1] == 1 && K[2] == 2 && K[3] == 3
    ensures K[4] == 4 && K[5] == 5 && K[6] == 6 && K[7] == 7
    ensures K[8] == 8 && K[9] == 9 && K[10] == 10 && K[11] == 11
    ensures K[12] == 12 && K[13] == 13 && K[14] == 14 && K[15] == 15
    ensures Shift(0) == 7 && Shift(1) == 12 && Shift(2) == 17 && Shift(3) == 22
    ensures Shift(4) == 7 && Shift(5) == 12 && Shift(6) == 17 && Shift(7) == 22
    ensures Shift(8) == 7 && Shift(9) == 12 && Shift(10) == 17 && Shift(11) == 22
    ensures Shift(12) == 7 && Shift(13) == 12 && Shift(14) == 17 && Shift(15) == 22
  {
  }

  lemma FirstConstants()
    ensures T[0] == 0xd76aa478 && T[1] == 0xe8c7b756 && T[2] == 0x242070db && T[3] == 0xc1bdceee
    ensures T[4] == 0xf57c0faf && T[5] == 0x4787c62a && T[6] == 0xa8304613 && T[7] == 0xfd469501
    ensures T[8] == 0x698098d8 && T[9] == 0x8b44f7af && T[10] == 0xffff5bb1 && T[11] == 0x895cd7be
    ensures T[12] == 0x6b901122 && T[13] == 0xfd987193 && T[14] == 0xa679438e && T[15] == 0x49b40821
  {
  }

  lemma SecondTables()
    ensures K[16] == 1 && K[17] == 6 && K[18] == 11 && K[19] == 0
    ensures K[20] == 5 && K[21] == 10 && K[22] == 15 && K[23] == 4
    ensures K[24] == 9 && K[25] == 14 && K[26] == 3 && K[27] == 8
    ensures K[28] == 13 && K[29] == 2 && K[30] == 7 && K[31] == 12
    ensures Shift(16) == 5 && Shift(17) == 9 && Shift(18) == 14 && Shift(19) == 20
    ensures Shift(20) == 5 && Shift(21) == 9 && Shift(22) == 14 && Shift(23) == 20
    ensures Shift(24) == 5 && Shift(25) == 9 && Shift(26) == 14 && Shift(27) == 20
    ensures Shift(28) == 5 && Shift(29) == 9 && Shift(30) == 14 && Shift(31) == 20
  {
  }

  lemma SecondConstants()
    ensures T[16] == 0xf61e2562 && T[17] == 0xc040b340 && T[18] == 0x265e5a51 && T[19] == 0xe9b6c7aa
    ensures T[20] == 0xd62f105d && T[21] == 0x02441453 && T[22] == 0xd8a1e681 && T[23] == 0xe7d3fbc8
    ensures T[24] == 0x21e1cde6 && T[25] == 0xc33707d6 && T[26] == 0xf4d50d87 && T[27] == 0x455a14ed
    ensures T[28] == 0xa9e3e905 && T[29] == 0xfcefa3f8 && T[30] == 0x676f02d9 && T[31] == 0x8d2a4c8a
  {
  }

  lemma ThirdTables()
    ensures K[32] == 5 && K[33] == 8 && K[34] == 11 && K[35] == 14
    ensures K[36] == 1 && K[37] == 4 && K[38] == 7 && K[39] == 10
    ensures K[40] == 13 && K[41] == 0 && K[42] == 3 && K[43] == 6
    ensures K[44] == 9 && K[45] == 12 && K[46] == 15 && K[47] == 2
    ensures Shift(32) == 4 && Shift(33) == 11 && Shift(34) == 16 && Shift(35) == 23
    ensures Shift(36) == 4 && Shift(37) == 11 && Shift(38) == 16 && Shift(39) == 23
    ensures Shift(40) == 4 && Shift(41) == 11 && Shift(42) == 16 && Shift(43) == 23
    ensures Shift(44) == 4 && Shift(45) == 11 && Shift(46) == 16 && Shift(47) == 23
  {
  }

  lemma ThirdConstants()
    ensures T[32] == 0xfffa3942 && T[33] == 0x8771f681 && T[34] == 0x6d9d6122 && T[35] == 0xfde5380c
    ensures T[36] == 0xa4beea44 && T[37] == 0x4bdecfa9 && T[38] == 0xf6bb4b60 && T[39] == 0xbebfbc70
    ensures T[40] == 0x289b7ec6 && T[41] == 0xeaa127fa && T[42] == 0xd4ef3085 && T[43] == 0x04881d05
    ensures T[44] == 0xd9d4d039 && T[45] == 0xe6db99e5 && T[46] == 0x1fa27cf8 && T[47] == 0xc4ac5665
  {
  }

  lemma FourthTables()
    ensures K[48] == 0 && K[49] == 7 && K[50] == 14 && K[51] == 5
    ensures K[52] == 12 && K[53] == 3 && K[54] == 10 && K[55] == 1
    ensures K[56] == 8 && K[57] == 15 && K[58] == 6 && K[59] == 13
    ensures K[60] == 4 && K[61] == 11 && K[62] == 2 && K[63] == 9
    ensures Shift(48) == 6 && Shift(49) == 10 && Shift(50) == 15 && Shift(51) == 21
    ensures Shift(52) == 6 && Shift(53) == 10 && Shift(54) == 15 && Shift(55) == 21
    ensures Shift(56) == 6 && Shift(57) == 10 && Shift(58) == 15 && Shift(59) == 21
    ensures Shift(60) == 6 && Shift(61) == 10 && Shift(62) == 15 && Shift(63) == 21
  {
  }

  lemma FourthConstants()
    ensures T[48] == 0xf4292244 && T[49] == 0x432aff97 && T[50] == 0xab9423a7 && T[51] == 0xfc93a039
    ensures T[52] == 0x655b59c3 && T[53] == 0x8f0ccc92 && T[54] == 0xffeff47d && T[55] == 0x85845dd1
    ensures T[56] == 0x6fa87e4f && T[57] == 0xfe2ce6e0 && T[58] == 0xa3014314 && T[59] == 0x4e0811a1
    ensures T[60] == 0xf7537e82 && T[61] == 0xbd3af235 && T[62] == 0x2ad7d2bb && T[63] == 0xeb86d391
  {
  }

  // ----- messages of one block ------------------------------------------------

  lemma PadShort(m: seq<bv8>)
    requires |m| < 56
    ensures var p, bits := Pad(m), LengthBytes(|m|);
      && |p| == 64 && |bits| == 8 && p[|m|] == 0x80
      && (forall k :: 0 <= k < |m| ==> p[k] == m[k])
      && (forall k :: |m| < k < 56 ==> p[k] == 0)
      && (forall k :: 56 <= k < 64 ==> p[k] == bits[k - 56])
  {
    hide LengthBytes;
    PadLength(m);
    LengthIsEight(|m|);
  }

  lemma {:induction false} NoHighBytes(n: nat)
    ensures LittleEndian(0, n) == Zeros(n)
  {
    if n > 0 {
      NoHighBytes(n - 1);
    }
  }

  lemma SmallLength(v: nat)
    requires v < 256
    ensures LittleEndian(v, 8) == [v as bv8, 0, 0, 0, 0, 0, 0, 0]
  {
    NoHighBytes(7);
    FirstByte(v, 7);
    hide LittleEndian;
    assert v % 256 == v && v / 256 == 0;
  }

  lemma FirstByte(v: nat, n: nat)
    ensures LittleEndian(v, n + 1) == [(v % 256) as bv8] + LittleEndian(v / 256, n)
  {
  }

  lemma LengthIsEight(n: nat)
    ensures |LengthBytes(n)| == 8
  {
    LittleEndianLength(8 * n % 0x1_0000_0000_0000_0000, 8);
  }

  /** The byte values decide a word. */
  lemma WordOfBytes(block: seq<bv8>, i: nat, w: bv32)
    requires |block| == 64 && i < 16
    requires block[4 * i] == (w & 0xff) as bv8 && block[4 * i + 1] == ((w >> 8) & 0xff) as bv8
    requires block[4 * i + 2] == ((w >> 16) & 0xff) as bv8 && block[4 * i + 3] == ((w >> 24) & 0xff) as bv8
    ensures Word(block, i) == w
  {
  }

  // ----- the empty message ----------------------------------------------------

  const EMPTY_WORDS: seq<bv32> := [128, 0, 0, 0, 0, 0, 0, 0, 0, 0, 0, 0, 0, 0, 0, 0]

  lemma EmptyWords()
    ensures |EMPTY_WORDS| == 16
    ensures EMPTY_WORDS[0] == 128 && EMPTY_WORDS[1] == 0 && EMPTY_WORDS[2] == 0 && EMPTY_WORDS[3] == 0
    ensures EMPTY_WORDS[4] == 0 && EMPTY_WORDS[5] == 0 && EMPTY_WORDS[6] == 0 && EMPTY_WORDS[7] == 0
    ensures EMPTY_WORDS[8] == 0 && EMPTY_WORDS[9] == 0 && EMPTY_WORDS[10] == 0 && EMPTY_WORDS[11] == 0
    ensures EMPTY_WORDS[12] == 0 && EMPTY_WORDS[13] == 0 && EMPTY_WORDS[14] == 0 && EMPTY_WORDS[15] == 0
  {
  }

  lemma EmptyFirstRound()
    ensures Gives(0, 0x67452301, 0xefcdab89, 0x98badcfe, 0x10325476, 128, 7, 0xd76aa478, 0xa5202774)
    ensures Gives(1, 0x10325476, 0xa5202774, 0xefcdab89, 0x98badcfe, 0, 12, 0xe8c7b756, 0xf59592dd)
    ensures Gives(2, 0x98badcfe, 0xf59592dd, 0xa5202774, 0xefcdab89, 0, 17, 0x242070db, 0xe7f06b23)
    ensures Gives(3, 0xefcdab89, 0xe7f06b23, 0xf59592dd, 0xa5202774, 0, 22, 0xc1bdceee, 0x1b163203)
    ensures Gives(4, 0xa5202774, 0x1b163203, 0xe7f06b23, 0xf59592dd, 0, 7, 0xf57c0faf, 0x32033344)
    ensures Gives(5, 0xf59592dd, 0x32033344, 0x1b163203, 0xe7f06b23, 0, 12, 0x4787c62a, 0x2f35d494)
    ensures Gives(6, 0xe7f06b23, 0x2f35d494, 0x32033344, 0x1b163203, 0, 17, 0xa8304613, 0xf5b158db)
    ensures Gives(7, 0x1b163203, 0xf5b158db, 0x2f35d494, 0x32033344, 0, 22, 0xfd469501, 0x9bc13ce9)
    ensures Gives(8, 0x32033344, 0x9bc13ce9, 0xf5b158db, 0x2f35d494, 0, 7, 0x698098d8, 0x3893b991)
    ensures Gives(9, 0x2f35d494, 0x3893b991, 0x9bc13ce9, 0xf5b158db, 0, 12, 0x8b44f7af, 0xfce4a312)
    ensures Gives(10, 0xf5b158db, 0xfce4a312, 0x3893b991, 0x9bc13ce9, 0, 17, 0xffff5bb1, 0xe1ef0576)
    ensures Gives(11, 0x9bc13ce9, 0xe1ef0576, 0xfce4a312, 0x3893b991, 0, 22, 0x895cd7be, 0x70768a29)
    ensures Gives(12, 0x3893b991, 0x70768a29, 0xe1ef0576, 0xfce4a312, 0, 7, 0x6b901122, 0xf56c7cf1)
    ensures Gives(13, 0xfce4a312, 0xf56c7cf1, 0x70768a29, 0xe1ef0576, 0, 12, 0xfd987193, 0x374943a7)
    ensures Gives(14, 0xe1ef0576, 0x374943a7, 0xf56c7cf1, 0x70768a29, 0, 17, 0xa679438e, 0x5aa53f75)
    ensures Gives(15, 0x70768a29, 0x5aa53f75, 0x374943a7, 0xf56c7cf1, 0, 22, 0x49b40821, 0xd6819c6a)
  {
  }

  lemma EmptySecondRound()
    ensures Gives(16, 0xf56c7cf1, 0xd6819c6a, 0x5aa53f75, 0x374943a7, 0, 5, 0xf61e2562, 0x1c7d7513)
    ensures Gives(17, 0x374943a7, 0x1c7d7513, 0xd6819c6a, 0x5aa53f75, 0, 9, 0xc040b340, 0x7bd57a3a)
    ensures Gives(18, 0x5aa53f75, 0x7bd57a3a, 0x1c7d7513, 0xd6819c6a, 0, 14, 0x265e5a51, 0xc095f13a)
    ensures Gives(19, 0xd6819c6a, 0xc095f13a, 0x7bd57a3a, 0x1c7d7513, 128, 20, 0xe9b6c7aa, 0xbd782e17)
    ensures Gives(20, 0x1c7d7513, 0xbd782e17, 0xc095f13a, 0x7bd57a3a, 0, 5, 0xd62f105d, 0x3d1e3e6c)
    ensures Gives(21, 0x7bd57a3a, 0x3d1e3e6c, 0xbd782e17, 0xc095f13a, 0, 9, 0x02441453, 0x68b7b3e3)
    ensures Gives(22, 0xc095f13a, 0x68b7b3e3, 0x3d1e3e6c, 0xbd782e17, 0, 14, 0xd8a1e681, 0xeb41643e)
    ensures Gives(23, 0xbd782e17, 0xeb41643e, 0x68b7b3e3, 0x3d1e3e6c, 0, 20, 0xe7d3fbc8, 0xe422531a)
    ensures Gives(24, 0x3d1e3e6c, 0xe422531a, 0xeb41643e, 0x68b7b3e3, 0, 5, 0x21e1cde6, 0x306ec122)
    ensures Gives(25, 0x68b7b3e3, 0x306ec122, 0xe422531a, 0xeb41643e, 0, 9, 0xc33707d6, 0xd28c77c2)
    ensures Gives(26, 0xeb41643e, 0xd28c77c2, 0x306ec122, 0xe422531a, 0, 14, 0xf4d50d87, 0xa3c663da)
    ensures Gives(27, 0xe422531a, 0xa3c663da, 0xd28c77c2, 0x306ec122, 0, 20, 0x455a14ed, 0xa0572807)
    ensures Gives(28, 0x306ec122, 0xa0572807, 0xa3c663da, 0xd28c77c2, 0, 5, 0xa9e3e905, 0x13707036)
    ensures Gives(29, 0xd28c77c2, 0x13707036, 0xa0572807, 0xa3c663da, 0, 9, 0xfcefa3f8, 0xae7813db)
    ensures Gives(30, 0xa3c663da, 0xae7813db, 0x13707036, 0xa0572807, 0, 14, 0x676f02d9, 0x1c31c384)
    ensures Gives(31, 0xa0572807, 0x1c31c384, 0xae7813db, 0x13707036, 0, 20, 0x8d2a4c8a, 0xa2205f1f)
  {
  }

  lemma EmptyThirdRound()
    ensures Gives(32, 0x13707036, 0xa2205f1f, 0x1c31c384, 0xae7813db, 0, 4, 0xfffa3942, 0xdf63eaa1)
    ensures Gives(33, 0xae7813db, 0xdf63eaa1, 0xa2205f1f, 0x1c31c384, 0, 11, 0x8771f681, 0xc3689f5b)
    ensures Gives(34, 0x1c31c384, 0xc3689f5b, 0xdf63eaa1, 0xa2205f1f, 0, 16, 0x6d9d6122, 0x12f3e755)
    ensures Gives(35, 0xa2205f1f, 0x12f3e755, 0xc3689f5b, 0xdf63eaa1, 0, 23, 0xfde5380c, 0x004b6669)
    ensures Gives(36, 0xdf63eaa1, 0x004b6669, 0x12f3e755, 0xc3689f5b, 0, 4, 0xa4beea44, 0x5f7a9b2e)
    ensures Gives(37, 0xc3689f5b, 0x5f7a9b2e, 0x004b6669, 0x12f3e755, 0, 11, 0x4bdecfa9, 0xabc34e16)
    ensures Gives(38, 0x12f3e755, 0xabc34e16, 0x5f7a9b2e, 0x004b6669, 0, 16, 0xf6bb4b60, 0x91ca4cb7)
    ensures Gives(39, 0x004b6669, 0x91ca4cb7, 0xabc34e16, 0x5f7a9b2e, 0, 23, 0xbebfbc70, 0xc5dc8c15)
    ensures Gives(40, 0x5f7a9b2e, 0xc5dc8c15, 0x91ca4cb7, 0xabc34e16, 0, 4, 0x289b7ec6, 0x4497169d)
    ensures Gives(41, 0xabc34e16, 0x4497169d, 0xc5dc8c15, 0x91ca4cb7, 128, 11, 0xeaa127fa, 0x76fd93d4)
    ensures Gives(42, 0x91ca4cb7, 0x76fd93d4, 0x4497169d, 0xc5dc8c15, 0, 16, 0xd4ef3085, 0xfd95f243)
    ensures Gives(43, 0xc5dc8c15, 0xfd95f243, 0x76fd93d4, 0x4497169d, 0, 23, 0x04881d05, 0x0fe32453)
    ensures Gives(44, 0x4497169d, 0x0fe32453, 0xfd95f243, 0x76fd93d4, 0, 4, 0xd9d4d039, 0x3f55edfd)
    ensures Gives(45, 0x76fd93d4, 0x3f55edfd, 0x0fe32453, 0xfd95f243, 0, 11, 0xe6db99e5, 0x22a31f54)
    ensures Gives(46, 0xfd95f243, 0x22a31f54, 0x3f55edfd, 0x0fe32453, 0, 16, 0x1fa27cf8, 0x68d84ea2)
    ensures Gives(47, 0x0fe32453, 0x68d84ea2, 0x22a31f54, 0x3f55edfd, 0, 23, 0xc4ac5665, 0xca7d2dbd)
  {
  }

  lemma EmptyFourthRound()
    ensures Gives(48, 0x3f55edfd, 0xca7d2dbd, 0x68d84ea2, 0x22a31f54, 128, 6, 0xf4292244, 0x93aa2577)
    ensures Gives(49, 0x22a31f54, 0x93aa2577, 0xca7d2dbd, 0x68d84ea2, 0, 10, 0x432aff97, 0x1688dc85)
    ensures Gives(50, 0x68d84ea2, 0x1688dc85, 0x93aa2577, 0xca7d2dbd, 0, 15, 0xab9423a7, 0xcd85b8cb)
    ensures Gives(51, 0xca7d2dbd, 0xcd85b8cb, 0x1688dc85, 0x93aa2577, 0, 21, 0xfc93a039, 0x561e0689)
    ensures Gives(52, 0x93aa2577, 0x561e0689, 0xcd85b8cb, 0x1688dc85, 0, 6, 0x655b59c3, 0x5625a114)
    ensures Gives(53, 0x1688dc85, 0x5625a114, 0x561e0689, 0xcd85b8cb, 0, 10, 0x8f0ccc92, 0x3450f42b)
    ensures Gives(54, 0xcd85b8cb, 0x3450f42b, 0x5625a114, 0x561e0689, 0, 15, 0xffeff47d, 0x392ad0d0)
    ensures Gives(55, 0x561e0689, 0x392ad0d0, 0x3450f42b, 0x5625a114, 0, 21, 0x85845dd1, 0x1e77fa61)
    ensures Gives(56, 0x5625a114, 0x1e77fa61, 0x392ad0d0, 0x3450f42b, 0, 6, 0x6fa87e4f, 0x474a9c8c)
    ensures Gives(57, 0x3450f42b, 0x474a9c8c, 0x1e77fa61, 0x392ad0d0, 0, 10, 0xfe2ce6e0, 0xdfce00bc)
    ensures Gives(58, 0x392ad0d0, 0xdfce00bc, 0x474a9c8c, 0x1e77fa61, 0, 15, 0xa3014314, 0x36594b14)
    ensures Gives(59, 0x1e77fa61, 0x36594b14, 0xdfce00bc, 0x474a9c8c, 0, 21, 0x4e0811a1, 0x30130182)
    ensures Gives(60, 0x474a9c8c, 0x30130182, 0x36594b14, 0xdfce00bc, 0, 6, 0xf7537e82, 0x7246fad3)
    ensures Gives(61, 0xdfce00bc, 0x7246fad3, 0x30130182, 0x36594b14, 0, 10, 0xbd3af235, 0x6e10a476)
    ensures Gives(62, 0x36594b14, 0x6e10a476, 0x7246fad3, 0x30130182, 0, 15, 0x2ad7d2bb, 0xff4ea3eb)
    ensures Gives(63, 0x30130182, 0xff4ea3eb, 0x6e10a476, 0x7246fad3, 0, 21, 0xeb86d391, 0x14e45506)
  {
  }

  lemma EmptyAfterFirstRound()
    ensures |EMPTY_WORDS| == 16
    ensures Named(Steps(INITIAL, 16, EMPTY_WORDS), 16) == Regs(0xf56c7cf1, 0xd6819c6a, 0x5aa53f75, 0x374943a7)
  {
    hide T, K, Shift, EMPTY_WORDS, Steps, Named, Gives;
    EmptyWords();
    StepsStart(INITIAL, EMPTY_WORDS);
    FirstTables();
    FirstConstants();
    EmptyFirstRound();
    EveryTurn(EMPTY_WORDS);
  }

  lemma EmptyAfterSecondRound()
    ensures |EMPTY_WORDS| == 16
    ensures Named(Steps(INITIAL, 32, EMPTY_WORDS), 32) == Regs(0x13707036, 0xa2205f1f, 0x1c31c384, 0xae7813db)
  {
    hide T, K, Shift, EMPTY_WORDS, Steps, Named, Gives;
    EmptyWords();
    EmptyAfterFirstRound();
    SecondTables();
    SecondConstants();
    EmptySecondRound();
    EveryTurn(EMPTY_WORDS);
  }

  lemma EmptyAfterThirdRound()
    ensures |EMPTY_WORDS| == 16
    ensures Named(Steps(INITIAL, 48, EMPTY_WORDS), 48) == Regs(0x3f55edfd, 0xca7d2dbd, 0x68d84ea2, 0x22a31f54)
  {
    hide T, K, Shift, EMPTY_WORDS, Steps, Named, Gives;
    EmptyWords();
    EmptyAfterSecondRound();
    ThirdTables();
    ThirdConstants();
    EmptyThirdRound();
    EveryTurn(EMPTY_WORDS);
  }

  lemma EmptyAfterFourthRound()
    ensures |EMPTY_WORDS| == 16
    ensures Named(Steps(INITIAL, 64, EMPTY_WORDS), 64) == Regs(0x7246fad3, 0x14e45506, 0xff4ea3eb, 0x6e10a476)
  {
    hide T, K, Shift, EMPTY_WORDS, Steps, Named, Gives;
    EmptyWords();
    EmptyAfterThirdRound();
    FourthTables();
    FourthConstants();
    EmptyFourthRound();
    EveryTurn(EMPTY_WORDS);
  }

  lemma EmptyBytes()
    ensures var p := Pad([]);
      && |p| == 64 && p[0] == 0x80 && p[1] == 0 && p[2] == 0 && p[3] == 0 && p[56] == 0
      && forall k :: 4 <= k < 56 || 57 <= k < 64 ==> p[k] == 0
  {
    hide Pad, LengthBytes;
    PadShort([]);
    LengthOfEmpty();
  }

  lemma LengthOfEmpty()
    ensures LengthBytes(0) == [0, 0, 0, 0, 0, 0, 0, 0]
  {
    hide LittleEndian;
    SmallLength(0);
  }

  lemma EmptyBlock()
    ensures |Pad([])| == 64 && Words(Pad([])) == EMPTY_WORDS
  {
    hide Word, Pad, EMPTY_WORDS;
    EmptyBytes();
    EmptyWords();
    var p := Pad([]);
    WordOfBytes(p, 0, 128);
    WordOfBytes(p, 14, 0);
    forall i | 1 <= i < 14 || i == 15 ensures Word(p, i) == 0 {
      WordOfBytes(p, i, 0);
    }
    assert Words(p) == EMPTY_WORDS;
  }

  lemma EmptyDigest()
    ensures Output(AddTo(INITIAL, Regs(0x7246fad3, 0x14e45506, 0xff4ea3eb, 0x6e10a476)))
         == [0xd4, 0x1d, 0x8c, 0xd9, 0x8f, 0x00, 0xb2, 0x04,
             0xe9, 0x80, 0x09, 0x98, 0xec, 0xf8, 0x42, 0x7e]
  {
    assert AddTo(INITIAL, Regs(0x7246fad3, 0x14e45506, 0xff4ea3eb, 0x6e10a476))
        == Regs(0xd98c1dd4, 0x04b2008f, 0x980980e9, 0x7e42f8ec);
  }

  /** MD5 ("") = d41d8cd98f00b204e9800998ecf8427e. */
  lemma Md5OfEmpty()
    ensures Md5([])
         == [0xd4, 0x1d, 0x8c, 0xd9, 0x8f, 0x00, 0xb2, 0x04,
             0xe9, 0x80, 0x09, 0x98, 0xec, 0xf8, 0x42, 0x7e]
  {
    hide Pad, Words, Steps, Named, Output, EMPTY_WORDS;
    EmptyBlock();
    EmptyAfterFourthRound();
    NamedWhole(Steps(INITIAL, 64, EMPTY_WORDS));
    OneBlock(INITIAL, Pad([]));
    EmptyDigest();
  }

  // ----- the message "abc" ----------------------------------------------------

  const ABC_WORDS: seq<bv32> := [0x80636261, 0, 0, 0, 0, 0, 0, 0, 0, 0, 0, 0, 0, 0, 24, 0]

  lemma AbcWords()
    ensures |ABC_WORDS| == 16
    ensures ABC_WORDS[0] == 0x80636261 && ABC_WORDS[1] == 0 && ABC_WORDS[2] == 0 && ABC_WORDS[3] == 0
    ensures ABC_WORDS[4] == 0 && ABC_WORDS[5] == 0 && ABC_WORDS[6] == 0 && ABC_WORDS[7] == 0
    ensures ABC_WORDS[8] == 0 && ABC_WORDS[9] == 0 && ABC_WORDS[10] == 0 && ABC_WORDS[11] == 0
    ensures ABC_WORDS[12] == 0 && ABC_WORDS[13] == 0 && ABC_WORDS[14] == 24 && ABC_WORDS[15] == 0
  {
  }

  lemma AbcFirstRound()
    ensures Gives(0, 0x67452301, 0xefcdab89, 0x98badcfe, 0x10325476, 0x80636261, 7, 0xd76aa478, 0xd6d117b4)
    ensures Gives(1, 0x10325476, 0xd6d117b4, 0xefcdab89, 0x98badcfe, 0, 12, 0xe8c7b756, 0x344a8432)
    ensures Gives(2, 0x98badcfe, 0x344a8432, 0xd6d117b4, 0xefcdab89, 0, 17, 0x242070db, 0x2f6fbd72)
    ensures Gives(3, 0xefcdab89, 0x2f6fbd72, 0x344a8432, 0xd6d117b4, 0, 22, 0xc1bdceee, 0x7ad956f2)
    ensures Gives(4, 0xd6d117b4, 0x7ad956f2, 0x2f6fbd72, 0x344a8432, 0, 7, 0xf57c0faf, 0xc73741ef)
    ensures Gives(5, 0x344a8432, 0xc73741ef, 0x7ad956f2, 0x2f6fbd72, 0, 12, 0x4787c62a, 0x8bac3051)
    ensures Gives(6, 0x2f6fbd72, 0x8bac3051, 0xc73741ef, 0x7ad956f2, 0, 17, 0xa8304613, 0x207dc67b)
    ensures Gives(7, 0x7ad956f2, 0x207dc67b, 0x8bac3051, 0xc73741ef, 0, 22, 0xfd469501, 0x928d99f6)
    ensures Gives(8, 0xc73741ef, 0x928d99f6, 0x207dc67b, 0x8bac3051, 0, 7, 0x698098d8, 0x854b3712)
    ensures Gives(9, 0x8bac3051, 0x854b3712, 0x928d99f6, 0x207dc67b, 0, 12, 0x8b44f7af, 0x74e2f284)
    ensures Gives(10, 0x207dc67b, 0x74e2f284, 0x854b3712, 0x928d99f6, 0, 17, 0xffff5bb1, 0x3020401c)
    ensures Gives(11, 0x928d99f6, 0x3020401c, 0x74e2f284, 0x854b3712, 0, 22, 0x895cd7be, 0x5ed49596)
    ensures Gives(12, 0x854b3712, 0x5ed49596, 0x3020401c, 0x74e2f284, 0, 7, 0x6b901122, 0xdda9b9a6)
    ensures Gives(13, 0x74e2f284, 0xdda9b9a6, 0x5ed49596, 0x3020401c, 0, 12, 0xfd987193, 0xa1051895)
    ensures Gives(14, 0x3020401c, 0xa1051895, 0xdda9b9a6, 0x5ed49596, 24, 17, 0xa679438e, 0xe396856b)
    ensures Gives(15, 0x5ed49596, 0xe396856b, 0xa1051895, 0xdda9b9a6, 0, 22, 0x49b40821, 0x72aff2e0)
  {
  }

  lemma AbcSecondRound()
    ensures Gives(16, 0xdda9b9a6, 0x72aff2e0, 0xe396856b, 0xa1051895, 0, 5, 0xf61e2562, 0x3e9e9126)
    ensures Gives(17, 0xa1051895, 0x3e9e9126, 0x72aff2e0, 0xe396856b, 0, 9, 0xc040b340, 0x4a1d804e)
    ensures Gives(18, 0xe396856b, 0x4a1d804e, 0x3e9e9126, 0x72aff2e0, 0, 14, 0x265e5a51, 0xe25e1652)
    ensures Gives(19, 0x72aff2e0, 0xe25e1652, 0x4a1d804e, 0x3e9e9126, 0x80636261, 20, 0xe9b6c7aa, 0xb5b204e4)
    ensures Gives(20, 0x3e9e9126, 0xb5b204e4, 0xe25e1652, 0x4a1d804e, 0, 5, 0xd62f105d, 0x59a8ffda)
    ensures Gives(21, 0x4a1d804e, 0x59a8ffda, 0xb5b204e4, 0xe25e1652, 0, 9, 0x02441453, 0x6d002f1e)
    ensures Gives(22, 0xe25e1652, 0x6d002f1e, 0x59a8ffda, 0xb5b204e4, 0, 14, 0xd8a1e681, 0xabfc7920)
    ensures Gives(23, 0xb5b204e4, 0xabfc7920, 0x6d002f1e, 0x59a8ffda, 0, 20, 0xe7d3fbc8, 0x47092c07)
    ensures Gives(24, 0x59a8ffda, 0x47092c07, 0xabfc7920, 0x6d002f1e, 0, 5, 0x21e1cde6, 0xb7f268cf)
    ensures Gives(25, 0x6d002f1e, 0xb7f268cf, 0x47092c07, 0xabfc7920, 24, 9, 0xc33707d6, 0x09388eff)
    ensures Gives(26, 0xabfc7920, 0x09388eff, 0xb7f268cf, 0x47092c07, 0, 14, 0xf4d50d87, 0xfe1623b1)
    ensures Gives(27, 0x47092c07, 0xfe1623b1, 0x09388eff, 0xb7f268cf, 0, 20, 0x455a14ed, 0x786acb8f)
    ensures Gives(28, 0xb7f268cf, 0x786acb8f, 0xfe1623b1, 0x09388eff, 0, 5, 0xa9e3e905, 0x790a77fb)
    ensures Gives(29, 0x09388eff, 0x790a77fb, 0x786acb8f, 0xfe1623b1, 0, 9, 0xfcefa3f8, 0x9f47e4f8)
    ensures Gives(30, 0xfe1623b1, 0x9f47e4f8, 0x790a77fb, 0x786acb8f, 0, 14, 0x676f02d9, 0xa62884aa)
    ensures Gives(31, 0x786acb8f, 0xa62884aa, 0x9f47e4f8, 0x790a77fb, 0, 20, 0x8d2a4c8a, 0x726342d3)
  {
  }

  lemma AbcThirdRound()
    ensures Gives(32, 0x790a77fb, 0x726342d3, 0xa62884aa, 0x9f47e4f8, 0, 4, 0xfffa3942, 0xb3707ebf)
    ensures Gives(33, 0x9f47e4f8, 0xb3707ebf, 0x726342d3, 0xa62884aa, 0, 11, 0x8771f681, 0x60127b2e)
    ensures Gives(34, 0xa62884aa, 0x60127b2e, 0xb3707ebf, 0x726342d3, 0, 16, 0x6d9d6122, 0x8d212ff5)
    ensures Gives(35, 0x726342d3, 0x8d212ff5, 0x60127b2e, 0xb3707ebf, 24, 23, 0xfde5380c, 0x3b0875c7)
    ensures Gives(36, 0xb3707ebf, 0x3b0875c7, 0x8d212ff5, 0x60127b2e, 0, 4, 0xa4beea44, 0x21b117b9)
    ensures Gives(37, 0x60127b2e, 0x21b117b9, 0x3b0875c7, 0x8d212ff5, 0, 11, 0x4bdecfa9, 0x6e7429d5)
    ensures Gives(38, 0x8d212ff5, 0x6e7429d5, 0x21b117b9, 0x3b0875c7, 0, 16, 0xf6bb4b60, 0x3575227e)
    ensures Gives(39, 0x3b0875c7, 0x3575227e, 0x6e7429d5, 0x21b117b9, 0, 23, 0xbebfbc70, 0x5a2f5ea5)
    ensures Gives(40, 0x21b117b9, 0x5a2f5ea5, 0x3575227e, 0x6e7429d5, 0, 4, 0x289b7ec6, 0x11de1779)
    ensures Gives(41, 0x6e7429d5, 0x11de1779, 0x5a2f5ea5, 0x3575227e, 0x80636261, 11, 0xeaa127fa, 0xfadcaa38)
    ensures Gives(42, 0x3575227e, 0xfadcaa38, 0x11de1779, 0x5a2f5ea5, 0, 16, 0xd4ef3085, 0x31c465ca)
    ensures Gives(43, 0x5a2f5ea5, 0x31c465ca, 0xfadcaa38, 0x11de1779, 0, 23, 0x04881d05, 0x4c6124f4)
    ensures Gives(44, 0x11de1779, 0x4c6124f4, 0x31c465ca, 0xfadcaa38, 0, 4, 0xd9d4d039, 0x7f2e507b)
    ensures Gives(45, 0xfadcaa38, 0x7f2e507b, 0x4c6124f4, 0x31c465ca, 0, 11, 0xe6db99e5, 0x99d9679d)
    ensures Gives(46, 0x31c465ca, 0x99d9679d, 0x7f2e507b, 0x4c6124f4, 0, 16, 0x1fa27cf8, 0x8fae6399)
    ensures Gives(47, 0x4c6124f4, 0x8fae6399, 0x99d9679d, 0x7f2e507b, 0, 23, 0xc4ac5665, 0x7beb9700)
  {
  }

  lemma AbcFourthRound()
    ensures Gives(48, 0x7f2e507b, 0x7beb9700, 0x8fae6399, 0x99d9679d, 0x80636261, 6, 0xf4292244, 0x7b201df8)
    ensures Gives(49, 0x99d9679d, 0x7b201df8, 0x7beb9700, 0x8fae6399, 0, 10, 0x432aff97, 0xf4e8e96e)
    ensures Gives(50, 0x8fae6399, 0xf4e8e96e, 0x7b201df8, 0x7beb9700, 24, 15, 0xab9423a7, 0xb298cefd)
    ensures Gives(51, 0x7beb9700, 0xb298cefd, 0xf4e8e96e, 0x7b201df8, 0, 21, 0xfc93a039, 0x8bf025c4)
    ensures Gives(52, 0x7b201df8, 0x8bf025c4, 0xb298cefd, 0xf4e8e96e, 0, 6, 0x655b59c3, 0x06cc5e8a)
    ensures Gives(53, 0xf4e8e96e, 0x06cc5e8a, 0x8bf025c4, 0xb298cefd, 0, 10, 0x8f0ccc92, 0x5b0d97aa)
    ensures Gives(54, 0xb298cefd, 0x5b0d97aa, 0x06cc5e8a, 0x8bf025c4, 0, 15, 0xffeff47d, 0x7d632dd0)
    ensures Gives(55, 0x8bf025c4, 0x7d632dd0, 0x5b0d97aa, 0x06cc5e8a, 0, 21, 0x85845dd1, 0x3bfa2c27)
    ensures Gives(56, 0x06cc5e8a, 0x3bfa2c27, 0x7d632dd0, 0x5b0d97aa, 0, 6, 0x6fa87e4f, 0x7f81cc35)
    ensures Gives(57, 0x5b0d97aa, 0x7f81cc35, 0x3bfa2c27, 0x7d632dd0, 0, 10, 0xfe2ce6e0, 0x094454ab)
    ensures Gives(58, 0x7d632dd0, 0x094454ab, 0x7f81cc35, 0x3bfa2c27, 0, 15, 0xa3014314, 0x4f9dbe3f)
    ensures Gives(59, 0x3bfa2c27, 0x4f9dbe3f, 0x094454ab, 0x7f81cc35, 0, 21, 0x4e0811a1, 0x7327d604)
    ensures Gives(60, 0x7f81cc35, 0x7327d604, 0x4f9dbe3f, 0x094454ab, 0, 6, 0xf7537e82, 0x310ade8f)
    ensures Gives(61, 0x094454ab, 0x310ade8f, 0x7327d604, 0x4f9dbe3f, 0, 10, 0xbd3af235, 0x624d8cb2)
    ensures Gives(62, 0x4f9dbe3f, 0x624d8cb2, 0x310ade8f, 0x7327d604, 0, 15, 0x2ad7d2bb, 0xe484b9d8)
    ensures Gives(63, 0x7327d604, 0xe484b9d8, 0x624d8cb2, 0x310ade8f, 0, 21, 0xeb86d391, 0xc08226b3)
  {
  }

  lemma AbcAfterFirstRound()
    ensures |ABC_WORDS| == 16
    ensures Named(Steps(INITIAL, 16, ABC_WORDS), 16) == Regs(0xdda9b9a6, 0x72aff2e0, 0xe396856b, 0xa1051895)
  {
    hide T, K, Shift, ABC_WORDS, Steps, Named, Gives;
    AbcWords();
    StepsStart(INITIAL, ABC_WORDS);
    FirstTables();
    FirstConstants();
    AbcFirstRound();
    EveryTurn(ABC_WORDS);
  }

  lemma AbcAfterSecondRound()
    ensures |ABC_WORDS| == 16
    ensures Named(Steps(INITIAL, 32, ABC_WORDS), 32) == Regs(0x790a77fb, 0x726342d3, 0xa62884aa, 0x9f47e4f8)
  {
    hide T, K, Shift, ABC_WORDS, Steps, Named, Gives;
    AbcWords();
    AbcAfterFirstRound();
    SecondTables();
    SecondConstants();
    AbcSecondRound();
    EveryTurn(ABC_WORDS);
  }

  lemma AbcAfterThirdRound()
    ensures |ABC_WORDS| == 16
    ensures Named(Steps(INITIAL, 48, ABC_WORDS), 48) == Regs(0x7f2e507b, 0x7beb9700, 0x8fae6399, 0x99d9679d)
  {
    hide T, K, Shift, ABC_WORDS, Steps, Named, Gives;
    AbcWords();
    AbcAfterSecondRound();
    ThirdTables();
    ThirdConstants();
    AbcThirdRound();
    EveryTurn(ABC_WORDS);
  }

  lemma AbcAfterFourthRound()
    ensures |ABC_WORDS| == 16
    ensures Named(Steps(INITIAL, 64, ABC_WORDS), 64) == Regs(0x310ade8f, 0xc08226b3, 0xe484b9d8, 0x624d8cb2)
  {
    hide T, K, Shift, ABC_WORDS, Steps, Named, Gives;
    AbcWords();
    AbcAfterThirdRound();
    FourthTables();
    FourthConstants();
    AbcFourthRound();
    EveryTurn(ABC_WORDS);
  }

  lemma AbcBytes()
    ensures var p := Pad([0x61, 0x62, 0x63]);
      && |p| == 64 && p[0] == 0x61 && p[1] == 0x62 && p[2] == 0x63 && p[3] == 0x80 && p[56] == 24
      && forall k :: 4 <= k < 56 || 57 <= k < 64 ==> p[k] == 0
  {
    hide Pad, LengthBytes;
    PadShort([0x61, 0x62, 0x63]);
    LengthOfAbc();
  }

  lemma LengthOfAbc()
    ensures LengthBytes(3) == [24, 0, 0, 0, 0, 0, 0, 0]
  {
    hide LittleEndian;
    SmallLength(24);
  }

  lemma AbcBlock()
    ensures |Pad([0x61, 0x62, 0x63])| == 64 && Words(Pad([0x61, 0x62, 0x63])) == ABC_WORDS
  {
    hide Word, Pad, ABC_WORDS;
    AbcBytes();
    AbcWords();
    var p := Pad([0x61, 0x62, 0x63]);
    WordOfBytes(p, 0, 0x80636261);
    WordOfBytes(p, 14, 24);
    forall i | 1 <= i < 14 || i == 15 ensures Word(p, i) == 0 {
      WordOfBytes(p, i, 0);
    }
    assert Words(p) == ABC_WORDS;
  }

  lemma AbcDigest()
    ensures Output(AddTo(INITIAL, Regs(0x310ade8f, 0xc08226b3, 0xe484b9d8, 0x624d8cb2)))
         == [0x90, 0x01, 0x50, 0x98, 0x3c, 0xd2, 0x4f, 0xb0,
             0xd6, 0x96, 0x3f, 0x7d, 0x28, 0xe1, 0x7f, 0x72]
  {
    assert AddTo(INITIAL, Regs(0x310ade8f, 0xc08226b3, 0xe484b9d8, 0x624d8cb2))
        == Regs(0x98500190, 0xb04fd23c, 0x7d3f96d6, 0x727fe128);
  }

  /** MD5 ("abc") = 900150983cd24fb0d6963f7d28e17f72. */
  lemma Md5OfAbc()
    ensures Md5([0x61, 0x62, 0x63])
         == [0x90, 0x01, 0x50, 0x98, 0x3c, 0xd2, 0x4f, 0xb0,
             0xd6, 0x96, 0x3f, 0x7d, 0x28, 0xe1, 0x7f, 0x72]
  {
    hide Pad, Words, Steps, Named, Output, ABC_WORDS;
    AbcBlock();
    AbcAfterFourthRound();
    NamedWhole(Steps(INITIAL, 64, ABC_WORDS));
    OneBlock(INITIAL, Pad([0x61, 0x62, 0x63]));
    AbcDigest();
  }
}
