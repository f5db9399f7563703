/** The incremental MD5 engine: a carry buffer of up to 63 bytes in front of the block function. */
module Md5Engine {
  import opened HostTypes
  import opened IntegerLaws
  import opened Rfc1321

  // ----- the rotating-register loop is the RFC's schedule -----------------

  const SHIFT_TABLE: seq<nat> :=
    [7, 12, 17, 22, 7, 12, 17, 22, 7, 12, 17, 22, 7, 12, 17, 22]
    + ([5, 9, 14, 20, 5, 9, 14, 20, 5, 9, 14, 20, 5, 9, 14, 20]
       + ([4, 11, 16, 23, 4, 11, 16, 23, 4, 11, 16, 23, 4, 11, 16, 23]
          + [6, 10, 15, 21, 6, 10, 15, 21, 6, 10, 15, 21, 6, 10, 15, 21]))

  function Selector(j: nat, b: bv32, c: bv32, d: bv32): bv32 {
    if j < 16 then (b & c) | (!b & d)
    else if j < 32 then (d & b) | (!d & c)
    else if j < 48 then b ^ c ^ d
    else c ^ (b | !d)
  }

  function WordChoice(j: nat): (g: nat)
  {
    if j < 16 then j
    else if j < 32 then (5 * j + 1) % 16
    else if j < 48 then (3 * j + 5) % 16
    else 7 * j % 16
  }

  lemma SecondSelector(b: bv32, c: bv32, d: bv32)
    ensures (d & b) | (!d & c) == G(b, c, d)
  {
  }

  lemma FirstSelection(j: nat, b: bv32, c: bv32, d: bv32)
    requires j < 16
    ensures Selector(j, b, c, d) == F(b, c, d) == Aux(j, b, c, d)
  {
  }

  lemma SecondSelection(j: nat, b: bv32, c: bv32, d: bv32)
    requires 16 <= j < 32
    ensures Selector(j, b, c, d) == G(b, c, d) == Aux(j, b, c, d)
  {
    hide G;
    SecondSelector(b, c, d);
  }

  lemma ThirdSelection(j: nat, b: bv32, c: bv32, d: bv32)
    requires 32 <= j < 48
    ensures Selector(j, b, c, d) == H(b, c, d) == Aux(j, b, c, d)
  {
  }

  lemma FourthSelection(j: nat, b: bv32, c: bv32, d: bv32)
    requires 48 <= j
    ensures Selector(j, b, c, d) == I(b, c, d) == Aux(j, b, c, d)
  {
  }

  lemma SelectorIsAux(j: nat, b: bv32, c: bv32, d: bv32)
    ensures Selector(j, b, c, d) == Aux(j, b, c, d)
  {
    hide Selector, Aux;
    if j < 16 {
      FirstSelection(j, b, c, d);
    } else if j < 32 {
      SecondSelection(j, b, c, d);
    } else if j < 48 {
      ThirdSelection(j, b, c, d);
    } else {
      FourthSelection(j, b, c, d);
    }
  }

  lemma FirstRound(j: nat)
    requires j < 16
    ensures WordChoice(j) == K[j]
  {
  }

  lemma FirstRoundShifts(j: nat)
    requires j < 16
    ensures SHIFT_TABLE[j] == S[0][j % 4]
  {
  }

  lemma SecondRound(j: nat)
    requires 16 <= j < 32
    ensures WordChoice(j) == K[j]
  {
  }

  lemma SecondRoundShifts(j: nat)
    requires 16 <= j < 32
    ensures SHIFT_TABLE[j] == S[1][j % 4]
  {
  }

  lemma ThirdRound(j: nat)
    requires 32 <= j < 48
    ensures WordChoice(j) == K[j]
  {
  }

  lemma ThirdRoundShifts(j: nat)
    requires 32 <= j < 48
    ensures SHIFT_TABLE[j] == S[2][j % 4]
  {
  }

  lemma FourthRound(j: nat)
    requires 48 <= j < 64
    ensures WordChoice(j) == K[j]
  {
  }

  lemma FourthRoundShifts(j: nat)
    requires 48 <= j < 64
    ensures SHIFT_TABLE[j] == S[3][j % 4]
  {
  }

  /** The engine's formulas for the word index and its flat shift table spell out the RFC's schedule. */
  lemma TablesAgree(j: nat)
    requires j < 64
    ensures WordChoice(j) == K[j] && SHIFT_TABLE[j] == Shift(j)
  {
    if j < 16 {
      FirstRound(j);
      FirstRoundShifts(j);
    } else if j < 32 {
      SecondRound(j);
      SecondRoundShifts(j);
    } else if j < 48 {
      ThirdRound(j);
      ThirdRoundShifts(j);
    } else {
      FourthRound(j);
      FourthRoundShifts(j);
    }
  }

  lemma SumSwaps(a: bv32, f: bv32, k: bv32, m: bv32)
    ensures Sum(a, f, k, m) == Sum(a, f, m, k)
  {
  }

  /** One turn of the loop: the four variables rotate, and one of them takes a new value. */
  function Turn(q: Regs, f: bv32, k: bv32, m: bv32, s: nat): Regs
    requires 0 < s < 32
  {
    Regs(q.d, RotateAdd(q.b, Sum(q.a, f, k, m), s), q.b, q.c)
  }

  lemma TurnOperates(q: Regs, f: bv32, k: bv32, m: bv32, s: nat)
    requires 0 < s < 32
    ensures Turn(q, f, k, m, s) == Regs(q.d, Operation(q.a, q.b, f, m, s, k), q.b, q.c)
  {
    hide RotateAdd, Sum;
    SumSwaps(q.a, f, k, m);
  }

  lemma NextPhase(j: nat)
    ensures (j + 1) % 4 == if j % 4 == 3 then 0 else j % 4 + 1
  {
  }

  lemma AssignThenRotate(r: Regs, j: nat, v: bv32)
    ensures var q := Named(r, j); Named(Assign(r, j, v), j + 1) == Regs(q.d, v, q.b, q.c)
  {
    NextPhase(j);
    if j % 4 == 0 {
    } else if j % 4 == 1 {
    } else if j % 4 == 2 {
    } else {
      assert j % 4 == 3;
    }
  }

  /** After j turns the four variables are the RFC's registers in the order the j-th operation names them. */
  lemma TurnFollowsSchedule(r: Regs, j: nat, x: seq<bv32>)
    requires j < 64 && |x| == 16
    ensures var q := Named(r, j);
      Turn(q, Aux(j, q.b, q.c, q.d), T[j], x[K[j]], Shift(j)) == Named(Step(r, j, x), j + 1)
  {
    hide Turn, Operation, Named, Assign, Aux, Shift;
    var q := Named(r, j);
    var f, k, m, s := Aux(j, q.b, q.c, q.d), T[j], x[K[j]], Shift(j);
    TurnOperates(q, f, k, m, s);
    AssignThenRotate(r, j, Operation(q.a, q.b, f, m, s, k));
  }

  lemma StepsStart(r: Regs, x: seq<bv32>)
    requires |x| == 16
    ensures Named(Steps(r, 0, x), 0) == r
  {
  }

  lemma StepsNext(r: Regs, i: nat, x: seq<bv32>)
    requires i < 64 && |x| == 16
    ensures Steps(r, i + 1, x) == Step(Steps(r, i, x), i, x)
  {
    hide Step;
  }

  lemma NamedWhole(r: Regs)
    ensures Named(r, 64) == r
  {
  }

  // ----- the carry buffer -------------------------------------------------

  datatype Carry = Carry(regs: Regs, tail: seq<bv8>)

  /** Whole blocks go through the block function; what is left is carried. */
  function Absorb(r: Regs, bytes: seq<bv8>): (s: Carry)
    ensures |s.tail| == |bytes| % 64
    decreases |bytes|
  {
    if |bytes| < 64 then Carry(r, bytes)
    else
      ModOfSum(|bytes| - 64, 64);
      Absorb(Block(r, bytes[..64]), bytes[64..])
  }

  /** Absorbing a message in two parts, carrying the tail across, absorbs the whole. */
  lemma {:induction false} AbsorbSplit(r: Regs, x: seq<bv8>, y: seq<bv8>)
    ensures Absorb(r, x + y) == Absorb(Absorb(r, x).regs, Absorb(r, x).tail + y)
    decreases |x|
  {
    hide Block;
    if |x| >= 64 {
      assert (x + y)[..64] == x[..64] && (x + y)[64..] == x[64..] + y;
      AbsorbSplit(Block(r, x[..64]), x[64..], y);
    }
  }

  lemma AbsorbOneBlock(r: Regs, bytes: seq<bv8>)
    requires |bytes| >= 64
    ensures Absorb(r, bytes) == Absorb(Block(r, bytes[..64]), bytes[64..])
  {
    hide Block;
  }

  lemma AbsorbShort(r: Regs, bytes: seq<bv8>)
    requires |bytes| < 64
    ensures Absorb(r, bytes) == Carry(r, bytes)
  {
  }

  lemma {:induction false} AbsorbIsBlocks(r: Regs, m: seq<bv8>)
    requires |m| % 64 == 0
    ensures Absorb(r, m) == Carry(Blocks(r, m), [])
    decreases |m|
  {
    hide Block;
    if m != [] {
      AbsorbIsBlocks(Block(r, m[..64]), m[64..]);
    }
  }

  function Flatten(chunks: seq<seq<bv8>>): seq<bv8> {
    if chunks == [] then [] else chunks[0] + Flatten(chunks[1..])
  }

  function AbsorbAll(s: Carry, chunks: seq<seq<bv8>>): Carry
    decreases |chunks|
  {
    if chunks == [] then s else AbsorbAll(Absorb(s.regs, s.tail + chunks[0]), chunks[1..])
  }

  /** However a message is cut into updates, the carried state is that of the whole message. */
  lemma {:induction false} ChunkingIsInvisible(m: seq<bv8>, chunks: seq<seq<bv8>>)
    ensures AbsorbAll(Absorb(INITIAL, m), chunks) == Absorb(INITIAL, m + Flatten(chunks))
    decreases |chunks|
  {
    hide Block;
    if chunks == [] {
      assert m + Flatten(chunks) == m;
    } else {
      AbsorbSplit(INITIAL, m, chunks[0]);
      assert (m + chunks[0]) + Flatten(chunks[1..]) == m + Flatten(chunks);
      ChunkingIsInvisible(m + chunks[0], chunks[1..]);
    }
  }

  lemma FinalRegisters(m: seq<bv8>)
    ensures |Pad(m)| % 64 == 0 && Absorb(INITIAL, Pad(m)).regs == Blocks(INITIAL, Pad(m))
  {
    hide Block;
    PadLength(m);
    AbsorbIsBlocks(INITIAL, Pad(m));
  }

  // ----- padding byte by byte ---------------------------------------------

  /** Zeros still to come while the carry holds n bytes: (56 - n) mod 64. */
  function ZerosLeft(n: nat): nat {
    (120 - n % 64) % 64
  }

  lemma ZerosLeftCountsDown(n: nat)
    ensures ZerosLeft(n) == 0 <==> n % 64 == 56
    ensures n % 64 != 56 ==> ZerosLeft(n + 1) == ZerosLeft(n) - 1
    ensures ZerosLeft(n + 1) == PadZeros(n)
  {
    var r := n % 64;
    assert (n + 1) % 64 == if r == 63 then 0 else r + 1;
  }

  lemma NoZeros(m: seq<bv8>)
    ensures m + Zeros(0) == m
  {
  }

  lemma ZerosOneMore(n: nat)
    ensures Zeros(n) + [0] == Zeros(n + 1)
  {
  }

  /** The stored length is the bit count modulo 2^64 even though the byte counter wraps. */
  lemma LengthSurvivesWrap(n: nat)
    ensures n % TWO64 * 8 % TWO64 == 8 * n % TWO64
  {
    var q := n / TWO64;
    assert 8 * n == 8 * (n % TWO64) + 8 * q * TWO64;
    ModOfMultiple(8 * (n % TWO64), 8 * q, TWO64);
  }

  lemma CounterWraps(n: nat, k: nat)
    ensures (n % TWO64 + k) % TWO64 == (n + k) % TWO64
  {
    ModAdds(n, k, TWO64);
  }

  class Md5State {
    var a: bv32
    var b: bv32
    var c: bv32
    var d: bv32
    var totalLen: nat
    const buffer: array<bv8>
    var bufferLen: nat

    /** Everything fed since the last reset. */
    ghost var fed: seq<bv8>

    ghost function Registers(): Regs
      reads this
    {
      Regs(a, b, c, d)
    }

    ghost predicate Valid()
      reads this, buffer
    {
      && buffer.Length == 64 && bufferLen < 64
      && Absorb(INITIAL, fed) == Carry(Registers(), buffer[..bufferLen])
      && totalLen == |fed| % TWO64
    }

    constructor ()
      ensures Valid() && fed == [] && fresh(buffer)
    {
      a, b, c, d := INITIAL.a, INITIAL.b, INITIAL.c, INITIAL.d;
      totalLen, bufferLen, fed := 0, 0, [];
      buffer := new bv8[64](_ => 0);
    }

    constructor CopyOf(other: Md5State)
      requires other.Valid()
      ensures Valid() && fed == other.fed && totalLen == other.totalLen && fresh(buffer)
    {
      a, b, c, d := other.a, other.b, other.c, other.d;
      totalLen, bufferLen, fed := other.totalLen, other.bufferLen, other.fed;
      buffer := new bv8[64](i requires 0 <= i < 64 && other.buffer.Length == 64 reads other, other.buffer =>
        other.buffer[i]);
      new;
      assert buffer[..bufferLen] == other.buffer[..bufferLen];
    }

    method Reset()
      requires buffer.Length == 64
      modifies this, buffer
      ensures Valid() && fed == []
    {
      a, b, c, d := 0x67452301, 0xefcdab89, 0x98badcfe, 0x10325476;
      totalLen, bufferLen, fed := 0, 0, [];
      forall i | 0 <= i < 64 {
        buffer[i] := 0;
      }
    }

    method ProcessBlock(block: seq<bv8>)
      requires |block| == 64
      modifies this`a, this`b, this`c, this`d
      ensures Registers() == Block(old(Registers()), block)
    {
      hide AddTo, Step, Turn, Aux, Shift, Selector, Word, Named;
      var m := new bv32[16];
      for i := 0 to 16
        invariant Registers() == old(Registers())
        invariant forall k :: 0 <= k < i ==> m[k] == Word(block, k)
      {
        m[i] := Word(block, i);
      }
      ghost var x := Words(block);
      assert m[..] == x;
      var q := Regs(a, b, c, d);
      ghost var start := q;
      StepsStart(start, x);
      for i := 0 to 64
        invariant m[..] == x && Registers() == start
        invariant q == Named(Steps(start, i, x), i)
      {
        TablesAgree(i);
        SelectorIsAux(i, q.b, q.c, q.d);
        TurnFollowsSchedule(Steps(start, i, x), i, x);
        q := Turn(q, Selector(i, q.b, q.c, q.d), T[i], m[WordChoice(i)], SHIFT_TABLE[i]);
        StepsNext(start, i, x);
      }
      NamedWhole(Steps(start, 64, x));
      q := AddTo(Regs(a, b, c, d), q);
      a, b, c, d := q.a, q.b, q.c, q.d;
    }

    method Update(data: seq<bv8>)
      requires Valid() && |data| < TWO32
      modifies this, buffer
      ensures Valid() && fed == old(fed) + data
    {
      hide Block, Absorb;
      AbsorbSplit(INITIAL, fed, data);
      CounterWraps(|fed|, |data|);
      totalLen := (totalLen + |data|) % TWO64;
      var offset := FillCarry(data);
      offset := TakeBlocks(data, offset);
      KeepRest(data, offset);
      AbsorbShort(Registers(), buffer[..bufferLen]);
      fed := fed + data;
    }

    /** What is left of the data, less than a block, becomes the carry. */
    method KeepRest(data: seq<bv8>, offset: nat)
      requires buffer.Length == 64 && bufferLen < 64
      requires offset <= |data| && |data| - offset < 64 && (offset < |data| ==> bufferLen == 0)
      modifies this`bufferLen, buffer
      ensures bufferLen < 64 && buffer[..bufferLen] == old(buffer[..bufferLen]) + data[offset..]
    {
      var remaining := |data| - offset;
      if remaining > 0 {
        assert buffer[..bufferLen] + data[offset..] == data[offset..];
        CopyIn(data[offset..]);
        bufferLen := remaining;
      } else {
        assert buffer[..bufferLen] + data[offset..] == buffer[..bufferLen];
      }
    }

    /** A started carry takes what it can, and is processed when that completes a block. */
    method FillCarry(data: seq<bv8>) returns (offset: nat)
      requires buffer.Length == 64 && bufferLen < 64
      modifies this`a, this`b, this`c, this`d, this`bufferLen, buffer
      ensures offset <= |data| && bufferLen < 64
      ensures offset < |data| ==> bufferLen == 0
      ensures Absorb(Registers(), buffer[..bufferLen] + data[offset..])
              == old(Absorb(Registers(), buffer[..bufferLen] + data))
    {
      hide Block, Absorb;
      ghost var all := buffer[..bufferLen] + data;
      offset := 0;
      if bufferLen > 0 {
        var take := if 64 - bufferLen < |data| then 64 - bufferLen else |data|;
        CopyIn(data[..take]);
        offset := take;
        assert all == buffer[..bufferLen] + data[offset..];
        if bufferLen == 64 {
          assert all[..64] == buffer[..] && all[64..] == data[offset..];
          AbsorbOneBlock(Registers(), all);
          ProcessBlock(buffer[..]);
          bufferLen := 0;
          assert buffer[..bufferLen] + data[offset..] == data[offset..];
        }
      } else {
        assert all == buffer[..bufferLen] + data[offset..];
      }
    }

    method TakeBlocks(data: seq<bv8>, from: nat) returns (offset: nat)
      requires buffer.Length == 64 && from <= |data|
      requires bufferLen < 64 && (from < |data| ==> bufferLen == 0)
      modifies this`a, this`b, this`c, this`d
      ensures from <= offset <= |data| && |data| - offset < 64
      ensures offset < |data| ==> bufferLen == 0
      ensures Absorb(Registers(), buffer[..bufferLen] + data[offset..])
              == old(Absorb(Registers(), buffer[..bufferLen] + data[from..]))
    {
      hide Block, Absorb;
      offset := from;
      while |data| - offset >= 64
        invariant from <= offset <= |data|
        invariant Absorb(Registers(), buffer[..bufferLen] + data[offset..])
                  == old(Absorb(Registers(), buffer[..bufferLen] + data[from..]))
      {
        assert buffer[..bufferLen] + data[offset..] == data[offset..];
        assert data[offset..][..64] == data[offset..offset + 64] && data[offset..][64..] == data[offset + 64..];
        AbsorbOneBlock(Registers(), data[offset..]);
        ProcessBlock(data[offset..offset + 64]);
        offset := offset + 64;
        assert buffer[..bufferLen] + data[offset..] == data[offset..];
      }
    }

    /** Feeds the one bit's byte, then zeros one at a time until eight bytes are left in the block. */
    method AppendPadding()
      requires Valid()
      modifies this, buffer
      ensures Valid() && fed == old(fed) + [0x80] + Zeros(PadZeros(|old(fed)|))
    {
      hide Block, Absorb, ZerosLeft, PadZeros, Zeros;
      ghost var m, zeros: nat := fed, 0;
      ZerosLeftCountsDown(|m|);
      Update([0x80]);
      NoZeros(fed);
      while bufferLen != 56
        invariant Valid() && fed == m + [0x80] + Zeros(zeros)
        invariant zeros + ZerosLeft(|fed|) == PadZeros(|m|)
        decreases ZerosLeft(|fed|)
      {
        ZerosLeftCountsDown(|fed|);
        ZerosOneMore(zeros);
        Update([0]);
        zeros := zeros + 1;
        assert fed == m + [0x80] + Zeros(zeros);
      }
      ZerosLeftCountsDown(|fed|);
    }

    /** The digest of everything fed so far; the engine itself is left as it is. */
    method Finish() returns (out: array<bv8>)
      requires Valid()
      ensures fresh(out) && out[..] == Md5(fed)
    {
      hide Block, Absorb, Output, LittleEndian, PadZeros, Zeros;
      var copy := new Md5State.CopyOf(this);
      var bitLen := copy.totalLen * 8 % TWO64;
      copy.AppendPadding();
      LengthSurvivesWrap(|fed|);
      var lenBytes := LowBytes(bitLen);
      LittleEndianLength(bitLen, 8);
      copy.Update(lenBytes);
      assert copy.fed == Pad(fed);
      FinalRegisters(fed);
      out := Digest(Regs(copy.a, copy.b, copy.c, copy.d));
    }

    static method Digest(r: Regs) returns (out: array<bv8>)
      ensures fresh(out) && out[..] == Output(r)
    {
      hide BytesOf;
      out := new bv8[16];
      Put(out, 0, r.a);
      Put(out, 4, r.b);
      Put(out, 8, r.c);
      Put(out, 12, r.d);
    }

    /** Writes a word with its low-order byte first. */
    static method Put(out: array<bv8>, at: nat, v: bv32)
      requires out.Length == 16 && at <= 12
      modifies out
      ensures out[..] == old(out[..at]) + BytesOf(v) + old(out[at + 4..])
    {
      out[at] := (v & 0xff) as bv8;
      out[at + 1] := ((v >> 8) & 0xff) as bv8;
      out[at + 2] := ((v >> 16) & 0xff) as bv8;
      out[at + 3] := ((v >> 24) & 0xff) as bv8;
    }

    static method LowBytes(v: nat) returns (bytes: seq<bv8>)
      ensures bytes == LittleEndian(v, 8)
    {
      bytes := [];
      var shifted := v;
      for i := 0 to 8
        invariant bytes + LittleEndian(shifted, 8 - i) == LittleEndian(v, 8)
      {
        bytes := bytes + [(shifted % 256) as bv8];
        shifted := shifted / 256;
      }
    }

    method CopyIn(part: seq<bv8>)
      requires buffer.Length == 64 && bufferLen + |part| <= 64
      modifies this`bufferLen, buffer
      ensures bufferLen == old(bufferLen) + |part|
      ensures buffer[..bufferLen] == old(buffer[..bufferLen]) + part
    {
      for i := 0 to |part|
        invariant bufferLen == old(bufferLen)
        invariant buffer[..bufferLen + i] == old(buffer[..bufferLen]) + part[..i]
      {
        buffer[bufferLen + i] := part[i];
      }
      bufferLen := bufferLen + |part|;
    }
  }
}
