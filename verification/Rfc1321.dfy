/** MD5 as defined in sections 3.1 to 3.5 of RFC 1321, over whole messages. */
module Rfc1321 {
  import opened IntegerLaws

  type WordIndex = k: nat | k < 16

  datatype Regs = Regs(a: bv32, b: bv32, c: bv32, d: bv32)

  /** Section 3.3. */
  const INITIAL := Regs(0x67452301, 0xefcdab89, 0x98badcfe, 0x10325476)

  /** Section 3.4, the table T[1..64] built from the sine function. */
  const T: seq<bv32> :=
    [0xd76aa478, 0xe8c7b756, 0x242070db, 0xc1bdceee, 0xf57c0faf, 0x4787c62a, 0xa8304613, 0xfd469501,
     0x698098d8, 0x8b44f7af, 0xffff5bb1, 0x895cd7be, 0x6b901122, 0xfd987193, 0xa679438e, 0x49b40821]
    + ([0xf61e2562, 0xc040b340, 0x265e5a51, 0xe9b6c7aa, 0xd62f105d, 0x02441453, 0xd8a1e681, 0xe7d3fbc8,
        0x21e1cde6, 0xc33707d6, 0xf4d50d87, 0x455a14ed, 0xa9e3e905, 0xfcefa3f8, 0x676f02d9, 0x8d2a4c8a]
       + ([0xfffa3942, 0x8771f681, 0x6d9d6122, 0xfde5380c, 0xa4beea44, 0x4bdecfa9, 0xf6bb4b60, 0xbebfbc70,
           0x289b7ec6, 0xeaa127fa, 0xd4ef3085, 0x04881d05, 0xd9d4d039, 0xe6db99e5, 0x1fa27cf8, 0xc4ac5665]
          + [0xf4292244, 0x432aff97, 0xab9423a7, 0xfc93a039, 0x655b59c3, 0x8f0ccc92, 0xffeff47d, 0x85845dd1,
           0x6fa87e4f, 0xfe2ce6e0, 0xa3014314, 0x4e0811a1, 0xf7537e82, 0xbd3af235, 0x2ad7d2bb, 0xeb86d391]))

  /** Section 3.4, the k of each [abcd k s i], round by round. */
  const K: seq<WordIndex> :=
    [0, 1, 2, 3, 4, 5, 6, 7, 8, 9, 10, 11, 12, 13, 14, 15]
    + ([1, 6, 11, 0, 5, 10, 15, 4, 9, 14, 3, 8, 13, 2, 7, 12]
       + ([5, 8, 11, 14, 1, 4, 7, 10, 13, 0, 3, 6, 9, 12, 15, 2]
          + [0, 7, 14, 5, 12, 3, 10, 1, 8, 15, 6, 13, 4, 11, 2, 9]))

  /** Section 3.4, the s of each round, cycling every four operations. */
  const S: seq<seq<nat>> := [[7, 12, 17, 22], [5, 9, 14, 20], [4, 11, 16, 23], [6, 10, 15, 21]]

  function F(x: bv32, y: bv32, z: bv32): bv32 { (x & y) | (!x & z) }
  function G(x: bv32, y: bv32, z: bv32): bv32 { (x & z) | (y & !z) }
  function H(x: bv32, y: bv32, z: bv32): bv32 { x ^ y ^ z }
  function I(x: bv32, y: bv32, z: bv32): bv32 { y ^ (x | !z) }

  function Aux(j: nat, x: bv32, y: bv32, z: bv32): bv32 {
    if j < 16 then F(x, y, z) else if j < 32 then G(x, y, z) else if j < 48 then H(x, y, z) else I(x, y, z)
  }

  /** Addition is of words, modulo 2^32. */
  function Sum(a: bv32, f: bv32, x: bv32, t: bv32): bv32 {
    a + f + x + t
  }

  function RotateLeft(x: bv32, s: nat): bv32
    requires 0 < s < 32
  {
    (x << s) | (x >> (32 - s))
  }

  function RotateAdd(b: bv32, x: bv32, s: nat): bv32
    requires 0 < s < 32
  {
    b + RotateLeft(x, s)
  }

  function Shift(j: nat): (s: nat)
    requires j < 64
    ensures 0 < s < 32
  {
    S[j / 16][j % 4]
  }

  /** a = b + ((a + f(b,c,d) + X[k] + T[i]) <<< s). */
  function Operation(a: bv32, b: bv32, f: bv32, x: bv32, s: nat, t: bv32): bv32
    requires 0 < s < 32
  {
    RotateAdd(b, Sum(a, f, x, t), s)
  }

  /** The registers in the order the j-th operation names them: ABCD, DABC, CDAB, BCDA. */
  function Named(r: Regs, j: nat): Regs {
    if j % 4 == 0 then r
    else if j % 4 == 1 then Regs(r.d, r.a, r.b, r.c)
    else if j % 4 == 2 then Regs(r.c, r.d, r.a, r.b)
    else Regs(r.b, r.c, r.d, r.a)
  }

  /** Replaces in place the register the j-th operation names first. */
  function Assign(r: Regs, j: nat, v: bv32): Regs {
    if j % 4 == 0 then r.(a := v)
    else if j % 4 == 1 then r.(d := v)
    else if j % 4 == 2 then r.(c := v)
    else r.(b := v)
  }

  /** The j-th [abcd k s i] of the schedule, with i = j + 1. */
  function Step(r: Regs, j: nat, x: seq<bv32>): Regs
    requires j < 64 && |x| == 16
  {
    var q := Named(r, j);
    Assign(r, j, Operation(q.a, q.b, Aux(j, q.b, q.c, q.d), x[K[j]], Shift(j), T[j]))
  }

  function Steps(r: Regs, n: nat, x: seq<bv32>): Regs
    requires n <= 64 && |x| == 16
  {
    if n == 0 then r else Step(Steps(r, n - 1, x), n - 1, x)
  }

  function Word(block: seq<bv8>, i: nat): bv32
    requires i < 16 && |block| == 64
  {
    (block[i * 4] as bv32) | ((block[i * 4 + 1] as bv32) << 8)
    | ((block[i * 4 + 2] as bv32) << 16) | ((block[i * 4 + 3] as bv32) << 24)
  }

  function Words(block: seq<bv8>): (x: seq<bv32>)
    requires |block| == 64
    ensures |x| == 16 && forall i :: 0 <= i < 16 ==> x[i] == Word(block, i)
  {
    seq(16, i requires 0 <= i < 16 => Word(block, i))
  }

  function AddTo(r: Regs, q: Regs): Regs {
    Regs(r.a + q.a, r.b + q.b, r.c + q.c, r.d + q.d)
  }

  /** Section 3.4 on one 16-word block. */
  function Block(r: Regs, block: seq<bv8>): Regs
    requires |block| == 64
  {
    AddTo(r, Steps(r, 64, Words(block)))
  }

  function Blocks(r: Regs, m: seq<bv8>): Regs
    requires |m| % 64 == 0
    decreases |m|
  {
    if m == [] then r else Blocks(Block(r, m[..64]), m[64..])
  }

  // ----- padding and output ---------------------------------------------

  function Zeros(n: nat): seq<bv8> {
    seq(n, _ => 0 as bv8)
  }

  /** Number of zero bytes appended in section 3.1 after the single one bit's byte. */
  function PadZeros(n: nat): nat {
    (119 - n % 64) % 64
  }

  function LittleEndian(v: nat, n: nat): seq<bv8> {
    if n == 0 then [] else [(v % 256) as bv8] + LittleEndian(v / 256, n - 1)
  }

  /** Section 3.2: only the low-order 64 bits of the length in bits are used. */
  function LengthBytes(n: nat): seq<bv8> {
    LittleEndian(8 * n % 0x1_0000_0000_0000_0000, 8)
  }

  function Pad(m: seq<bv8>): seq<bv8> {
    m + [0x80] + Zeros(PadZeros(|m|)) + LengthBytes(|m|)
  }

  lemma {:induction false} LittleEndianLength(v: nat, n: nat)
    ensures |LittleEndian(v, n)| == n
  {
    if n > 0 {
      LittleEndianLength(v / 256, n - 1);
    }
  }

  predicate FillsBlocks(n: nat, zeros: nat) {
    (n + 9 + zeros) % 64 == 0
  }

  /** With the one bit's byte and the length, this many zeros fill whole blocks, and no fewer do. */
  lemma PadZerosIsLeast(n: nat)
    ensures FillsBlocks(n, PadZeros(n))
    ensures forall k: nat :: FillsBlocks(n, k) ==> PadZeros(n) <= k
  {
    var q, r, z := n / 64, n % 64, PadZeros(n);
    var t := (119 - r) / 64;
    assert n + 9 + z == 64 * (q + 2 - t);
    forall k: nat | k < z ensures !FillsBlocks(n, k) {
      assert n + 9 + k == 64 * (q + 1 - t) + (64 - (z - k));
    }
  }

  lemma PadLength(m: seq<bv8>)
    ensures |Pad(m)| % 64 == 0 && |Pad(m)| == |m| + 9 + PadZeros(|m|)
  {
    LittleEndianLength(8 * |m| % 0x1_0000_0000_0000_0000, 8);
    PadZerosIsLeast(|m|);
  }

  function BytesOf(w: bv32): seq<bv8> {
    [(w & 0xff) as bv8, ((w >> 8) & 0xff) as bv8, ((w >> 16) & 0xff) as bv8, ((w >> 24) & 0xff) as bv8]
  }

  /** Section 3.5. */
  function Output(r: Regs): seq<bv8> {
    BytesOf(r.a) + BytesOf(r.b) + BytesOf(r.c) + BytesOf(r.d)
  }

  function Md5(m: seq<bv8>): seq<bv8> {
    PadLength(m);
    Output(Blocks(INITIAL, Pad(m)))
  }

  // ----- several blocks -----------------------------------------------------

  /** One block is 64 operations, whose registers are added to those before. */
  lemma OneBlock(r: Regs, m: seq<bv8>)
    requires |m| == 64
    ensures Blocks(r, m) == AddTo(r, Steps(r, 64, Words(m)))
  {
    hide Steps, Words, Block, AddTo;
    BlockAlone(r, m);
    BlockAdds(r, m);
  }

  lemma BlockAlone(r: Regs, m: seq<bv8>)
    requires |m| == 64
    ensures Blocks(r, m) == Block(r, m)
  {
    hide Block;
    assert m[..64] == m && m[64..] == [];
  }

  lemma BlockAdds(r: Regs, m: seq<bv8>)
    requires |m| == 64
    ensures Block(r, m) == AddTo(r, Steps(r, 64, Words(m)))
  {
    hide Steps, Words, AddTo;
  }

  /** Later blocks start from the registers the earlier ones leave. */
  lemma {:induction false} BlocksConcat(r: Regs, a: seq<bv8>, b: seq<bv8>)
    requires |a| % 64 == 0 && |b| % 64 == 0
    ensures |a + b| % 64 == 0 && Blocks(r, a + b) == Blocks(Blocks(r, a), b)
    decreases |a|
  {
    hide Block;
    if a == [] {
      assert a + b == b;
    } else {
      assert (a + b)[..64] == a[..64] && (a + b)[64..] == a[64..] + b;
      BlocksConcat(Block(r, a[..64]), a[64..], b);
    }
  }

  // ----- bytes and words in arithmetic ------------------------------------

  function Power256(n: nat): nat {
    if n == 0 then 1 else 256 * Power256(n - 1)
  }

  /** The low-order byte of a word comes first in a block. */
  lemma WordValue(block: seq<bv8>, i: nat)
    requires i < 16 && |block| == 64
    ensures Word(block, i) as int
         == block[4 * i] as int + 0x100 * (block[4 * i + 1] as int)
            + 0x1_0000 * (block[4 * i + 2] as int) + 0x100_0000 * (block[4 * i + 3] as int)
  {
    BytesJoined(block[4 * i], block[4 * i + 1], block[4 * i + 2], block[4 * i + 3]);
  }

  lemma BytesJoined(a: bv8, b: bv8, c: bv8, d: bv8)
    ensures ((a as bv32) | ((b as bv32) << 8) | ((c as bv32) << 16) | ((d as bv32) << 24)) as int
         == a as int + 0x100 * (b as int) + 0x1_0000 * (c as int) + 0x100_0000 * (d as int)
  {
  }

  lemma BytesOfJoined(w: bv32)
    ensures |BytesOf(w)| == 4
    ensures var b := BytesOf(w);
      w == (b[0] as bv32) | ((b[1] as bv32) << 8) | ((b[2] as bv32) << 16) | ((b[3] as bv32) << 24)
  {
  }

  ghost predicate AreDigits(v: nat, a: nat, b: nat, c: nat, d: nat) {
    v % 256 == a && v / 0x100 % 256 == b && v / 0x1_0000 % 256 == c && v / 0x100_0000 % 256 == d
  }

  /** Digits in base 256 are what division and remainder give. */
  lemma Digits(v: nat, a: nat, b: nat, c: nat, d: nat)
    requires a < 256 && b < 256 && c < 256 && d < 256 && v == a + 0x100 * b + 0x1_0000 * c + 0x100_0000 * d
    ensures AreDigits(v, a, b, c, d)
  {
    var low, mid := a + 0x100 * b, a + 0x100 * b + 0x1_0000 * c;
    Remainder(b + 0x100 * c + 0x1_0000 * d, a, 0x100);
    Remainder(c + 0x100 * d, b, 0x100);
    Remainder(c + 0x100 * d, low, 0x1_0000);
    Remainder(d, c, 0x100);
    Remainder(d, mid, 0x100_0000);
  }

  lemma BytesOfSum(w: bv32)
    ensures |BytesOf(w)| == 4
    ensures var b := BytesOf(w);
      w as int == b[0] as int + 0x100 * (b[1] as int) + 0x1_0000 * (b[2] as int) + 0x100_0000 * (b[3] as int)
  {
    hide BytesOf;
    BytesOfJoined(w);
    var b := BytesOf(w);
    BytesJoined(b[0], b[1], b[2], b[3]);
  }

  ghost predicate LowFirst(b: seq<bv8>, v: nat) {
    |b| == 4 && AreDigits(v, b[0] as int, b[1] as int, b[2] as int, b[3] as int)
  }

  lemma BytesOfLowFirst(w: bv32)
    ensures LowFirst(BytesOf(w), w as int)
  {
    hide BytesOf, AreDigits;
    BytesOfSum(w);
    var b := BytesOf(w);
    ByteDigits(w as int, b[0], b[1], b[2], b[3]);
  }

  lemma ByteDigits(v: nat, a: bv8, b: bv8, c: bv8, d: bv8)
    requires v == a as int + 0x100 * (b as int) + 0x1_0000 * (c as int) + 0x100_0000 * (d as int)
    ensures AreDigits(v, a as int, b as int, c as int, d as int)
  {
    hide AreDigits;
    ByteIsSmall(a);
    ByteIsSmall(b);
    ByteIsSmall(c);
    ByteIsSmall(d);
    Digits(v, a as int, b as int, c as int, d as int);
  }

  lemma ByteIsSmall(b: bv8)
    ensures b as int < 256
  {
  }

  /** The digest is the registers A, B, C, D, each from its low-order byte to its high-order byte. */
  lemma OutputBytes(r: Regs)
    ensures |Output(r)| == 16
    ensures LowFirst(Output(r)[..4], r.a as int) && LowFirst(Output(r)[4..8], r.b as int)
    ensures LowFirst(Output(r)[8..12], r.c as int) && LowFirst(Output(r)[12..], r.d as int)
  {
    hide LowFirst, BytesOf;
    FourBytes(r.a);
    FourBytes(r.b);
    FourBytes(r.c);
    FourBytes(r.d);
    assert Output(r)[..4] == BytesOf(r.a) && Output(r)[4..8] == BytesOf(r.b);
    assert Output(r)[8..12] == BytesOf(r.c) && Output(r)[12..] == BytesOf(r.d);
  }

  lemma FourBytes(w: bv32)
    ensures |BytesOf(w)| == 4 && LowFirst(BytesOf(w), w as int)
  {
    BytesOfSum(w);
    BytesOfLowFirst(w);
    hide LowFirst, BytesOf;
  }

  /** Byte k of a number written with its low-order byte first. */
  lemma {:induction false} LittleEndianByte(v: nat, n: nat, k: nat)
    requires k < n
    ensures |LittleEndian(v, n)| == n && Power256(k) > 0
    ensures LittleEndian(v, n)[k] == (v / Power256(k) % 256) as bv8
  {
    LittleEndianLength(v, n);
    FirstLittleEndian(v, n);
    hide LittleEndian;
    if k > 0 {
      LittleEndianByte(v / 256, n - 1, k - 1);
      DivideTwice(v, Power256(k - 1));
    }
  }

  lemma FirstLittleEndian(v: nat, n: nat)
    requires n > 0
    ensures |LittleEndian(v, n)| > 0
    ensures LittleEndian(v, n)[0] == (v % 256) as bv8 && LittleEndian(v, n)[1..] == LittleEndian(v / 256, n - 1)
  {
    LittleEndianHead(v, n);
  }

  lemma LittleEndianHead(v: nat, n: nat)
    requires n > 0
    ensures LittleEndian(v, n) == [(v % 256) as bv8] + LittleEndian(v / 256, n - 1)
  {
  }

  lemma DivideTwice(v: nat, d: nat)
    requires d > 0
    ensures v / 256 / d == v / (256 * d)
  {
    var q, r := v / 256 / d, v / 256 % d;
    assert v / 256 == q * d + r;
    assert v == q * (256 * d) + (256 * r + v % 256);
    assert 256 * r + v % 256 < 256 * d;
    Remainder(q, 256 * r + v % 256, 256 * d);
  }
}
