/** Little-endian words on a byte stream: a read consumes a prefix or fails. */
module ByteStream {
  import opened HostTypes
  import opened IntegerLaws

  datatype Parsed<+T> = Failed | Parsed(value: T, rest: seq<byte>) {
    predicate IsFailure() {
      Failed?
    }
    function PropagateFailure<U>(): Parsed<U>
      requires Failed?
    {
      Failed
    }
    function Extract(): (T, seq<byte>)
      requires Parsed?
    {
      (value, rest)
    }
  }

  function WordBytes(v: uint32): seq<byte> {
    [v % 0x100, v / 0x100 % 0x100, v / 0x1_0000 % 0x100, v / 0x100_0000]
  }

  function WordOf(b: seq<byte>): uint32
    requires |b| == 4
  {
    var b0: int, b1: int, b2: int, b3: int := b[0], b[1], b[2], b[3];
    b0 + 0x100 * b1 + 0x1_0000 * b2 + 0x100_0000 * b3
  }

  /** Four bytes, the low-order one first. */
  lemma WordBytesValue(v: uint32)
    ensures |WordBytes(v)| == 4
    ensures var b := WordBytes(v);
      v as int == b[0] as int + 0x100 * b[1] as int + 0x1_0000 * b[2] as int + 0x100_0000 * b[3] as int
  {
    WordRoundTrip(v);
  }

  lemma WordRoundTrip(v: uint32)
    ensures WordOf(WordBytes(v)) == v
  {
    assert v / 0x1_0000 == v / 0x100 / 0x100;
    assert v / 0x100_0000 == v / 0x1_0000 / 0x100;
  }

  /** Two's complement. */
  function Unsigned(v: int32): uint32 {
    if v < 0 then v + TWO32 else v
  }

  function Signed(v: uint32): int32 {
    if v < 0x8000_0000 then v else v - TWO32
  }

  function ReadBytes(n: nat, input: seq<byte>): Parsed<seq<byte>> {
    if |input| < n then Failed else Parsed(input[..n], input[n..])
  }

  function ReadWord(input: seq<byte>): Parsed<uint32> {
    var (b, rest) :- ReadBytes(4, input);
    Parsed(WordOf(b), rest)
  }

  function ReadWords(n: nat, input: seq<byte>): (r: Parsed<seq<uint32>>)
    ensures r.Parsed? ==> |r.value| == n
  {
    if n == 0 then Parsed([], input)
    else
      var (w, rest) :- ReadWord(input);
      var (ws, rest') :- ReadWords(n - 1, rest);
      Parsed([w] + ws, rest')
  }

  function WordsBytes(ws: seq<uint32>): seq<byte> {
    if ws == [] then [] else WordBytes(ws[0]) + WordsBytes(ws[1..])
  }

  lemma ReadWordBytes(v: uint32, rest: seq<byte>)
    ensures ReadWord(WordBytes(v) + rest) == Parsed(v, rest)
  {
    WordRoundTrip(v);
    var input := WordBytes(v) + rest;
    assert input[..4] == WordBytes(v) && input[4..] == rest;
  }

  lemma {:induction false} ReadWordsBytes(ws: seq<uint32>, rest: seq<byte>)
    ensures ReadWords(|ws|, WordsBytes(ws) + rest) == Parsed(ws, rest)
  {
    if ws == [] {
      assert WordsBytes(ws) + rest == rest;
    } else {
      assert WordsBytes(ws) + rest == WordBytes(ws[0]) + (WordsBytes(ws[1..]) + rest);
      ReadWordBytes(ws[0], WordsBytes(ws[1..]) + rest);
      ReadWordsBytes(ws[1..], rest);
      assert [ws[0]] + ws[1..] == ws;
    }
  }

  lemma ReadBytesBack(b: seq<byte>, rest: seq<byte>)
    ensures ReadBytes(|b|, b + rest) == Parsed(b, rest)
  {
    assert (b + rest)[..|b|] == b && (b + rest)[|b|..] == rest;
  }

  /** The low 32 bits of a size, as the writers store it. */
  function Size32(n: nat): uint32 {
    n % TWO32
  }

  // ----- words by their place ---------------------------------------------

  /** The four bytes at `at`, the low-order one first. */
  function Little(b: seq<byte>, at: nat): int
    requires at + 4 <= |b|
  {
    b[at] as int + 0x100 * b[at + 1] as int + 0x1_0000 * b[at + 2] as int + 0x100_0000 * b[at + 3] as int
  }

  lemma LittleInside(pre: seq<byte>, mid: seq<byte>, post: seq<byte>, at: nat)
    requires at + 4 <= |mid|
    ensures Little(pre + mid + post, |pre| + at) == Little(mid, at)
  {
    var all := pre + mid + post;
    assert forall k :: 0 <= k < |mid| ==> all[|pre| + k] == mid[k];
  }

  lemma LittleWord(v: uint32)
    ensures |WordBytes(v)| == 4 && Little(WordBytes(v), 0) == v
  {
    WordBytesValue(v);
  }

  lemma {:induction false} LittleWords(ws: seq<uint32>, i: nat)
    ensures |WordsBytes(ws)| == 4 * |ws|
    ensures i < |ws| ==> Little(WordsBytes(ws), 4 * i) == ws[i]
    decreases |ws|
  {
    hide WordBytes, Little;
    if ws != [] {
      var head, tail := WordBytes(ws[0]), WordsBytes(ws[1..]);
      LittleWord(ws[0]);
      LittleWords(ws[1..], if i == 0 then 0 else i - 1);
      if i == 0 {
        LittleInside([], head, tail, 0);
        assert [] + head + tail == head + tail;
      } else if i < |ws| {
        LittleInside(head, tail, [], 4 * (i - 1));
        assert head + tail + [] == head + tail;
      }
    }
  }

  // ----- a read takes exactly what a write would have put there ---------------

  lemma WordOfBack(b: seq<byte>)
    requires |b| == 4
    ensures WordBytes(WordOf(b)) == b
  {
    var w := WordOf(b);
    WordBytesValue(w);
    SameDigits(WordBytes(w), b);
  }

  lemma SameDigits(a: seq<byte>, b: seq<byte>)
    requires |a| == 4 && |b| == 4 && WordOf(a) == WordOf(b)
    ensures a == b
  {
    SameDigit(a[0], a[1] as int + 0x100 * a[2] as int + 0x1_0000 * a[3] as int,
              b[0], b[1] as int + 0x100 * b[2] as int + 0x1_0000 * b[3] as int);
    SameDigit(a[1], a[2] as int + 0x100 * a[3] as int, b[1], b[2] as int + 0x100 * b[3] as int);
    SameDigit(a[2], a[3], b[2], b[3]);
    assert a == [a[0], a[1], a[2], a[3]] && b == [b[0], b[1], b[2], b[3]];
  }

  lemma SameDigit(x: byte, xs: nat, y: byte, ys: nat)
    requires x as int + 0x100 * xs == y as int + 0x100 * ys
    ensures x == y && xs == ys
  {
    Remainder(xs, x, 0x100);
    Remainder(ys, y, 0x100);
  }

  lemma ReadWordTakes(input: seq<byte>)
    ensures var r := ReadWord(input); r.Parsed? ==> input == WordBytes(r.value) + r.rest
  {
    if |input| >= 4 {
      WordOfBack(input[..4]);
    }
  }

  lemma {:induction false} ReadWordsTakes(n: nat, input: seq<byte>)
    ensures var r := ReadWords(n, input); r.Parsed? ==> |r.value| == n && input == WordsBytes(r.value) + r.rest
  {
    hide ReadWord, WordBytes;
    if n > 0 && ReadWord(input).Parsed? {
      var head := ReadWord(input);
      ReadWordTakes(input);
      ReadWordsTakes(n - 1, head.rest);
      var tail := ReadWords(n - 1, head.rest);
      if tail.Parsed? {
        assert ([head.value] + tail.value)[1..] == tail.value;
      }
    }
  }
}
