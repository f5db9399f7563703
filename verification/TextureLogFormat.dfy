/** The on-disk form of a texture log, its reader, and the exact inputs on which they invert each other. */
module TextureLogFormat {
  import opened HostTypes
  import opened ByteStream
  import opened TextureLog

  const MAX_ENTRIES := 65536
  const MAX_NAMES := 65536
  const MAX_PIXEL_BYTES := 64 * 1024 * 1024

  function EntryBytes(e: Entry): seq<byte> {
    match e
    case GenTextures(names) => [0] + NamesBytes(names)
    case DeleteTextures(ids) => [1] + NamesBytes(ids)
    case BindTexture(target, texture) => [2] + WordsBytes([target, texture])
    case TexParameter(target, pname, param) => [3] + WordsBytes([target, pname, Unsigned(param)])
    case TexImage2D(c) =>
      [4] + (WordsBytes(ImageWords(c)) + ([FlagByte(c.hasPixels)] + PixelBytes(c.pixels)))
  }

  /** Counts are cut to 32 bits; a count cut to zero is followed by no names. */
  function NamesBytes(names: seq<GLuint>): seq<byte> {
    WordBytes(Size32(|names|)) + (if Size32(|names|) == 0 then [] else WordsBytes(names))
  }

  /** Only as many bytes as the count says are written. */
  function PixelBytes(pixels: seq<byte>): seq<byte> {
    WordBytes(Size32(|pixels|)) + pixels[..Size32(|pixels|)]
  }

  function EntriesBytes(log: seq<Entry>): seq<byte> {
    if log == [] then [] else EntryBytes(log[0]) + EntriesBytes(log[1..])
  }

  function LogBytes(log: seq<Entry>): seq<byte> {
    WordBytes(Size32(|log|)) + EntriesBytes(log)
  }

  function ImageWords(c: TexImage2DCall): seq<uint32> {
    [c.target, Unsigned(c.level), c.internalFormat, Unsigned(c.width), Unsigned(c.height), c.format, c.pixelType]
  }

  function FlagByte(flag: bool): byte {
    if flag then 1 else 0
  }

  method WriteEntry(e: Entry, stream: seq<byte>) returns (out: seq<byte>)
    ensures out == stream + EntryBytes(e)
  {
    hide WordBytes, WordsBytes, NamesBytes, PixelBytes, ImageWords;
    match e {
      case GenTextures(names) =>
        out := WriteNames(names, stream + [0]);
      case DeleteTextures(ids) =>
        out := WriteNames(ids, stream + [1]);
      case BindTexture(target, texture) =>
        out := stream + [2] + WordsBytes([target, texture]);
      case TexParameter(target, pname, param) =>
        out := stream + [3] + WordsBytes([target, pname, Unsigned(param)]);
      case TexImage2D(c) =>
        out := stream + [4] + WordsBytes(ImageWords(c));
        out := WritePixels(c.pixels, out + [FlagByte(c.hasPixels)]);
    }
  }

  method WriteNames(names: seq<GLuint>, stream: seq<byte>) returns (out: seq<byte>)
    ensures out == stream + NamesBytes(names)
  {
    hide WordBytes, WordsBytes;
    var count := Size32(|names|);
    out := stream + WordBytes(count);
    if count != 0 {
      out := out + WordsBytes(names);
    }
  }

  method WritePixels(pixels: seq<byte>, stream: seq<byte>) returns (out: seq<byte>)
    ensures out == stream + PixelBytes(pixels)
  {
    hide WordBytes;
    var count := Size32(|pixels|);
    out := stream + WordBytes(count);
    if count != 0 {
      out := out + pixels[..count];
    }
  }

  method SerializeGlTextureLog(log: seq<Entry>, stream: seq<byte>) returns (out: seq<byte>)
    ensures out == stream + LogBytes(log)
  {
    hide WordBytes, EntryBytes, Size32;
    out := stream + WordBytes(Size32(|log|));
    for i := 0 to |log|
      invariant out + EntriesBytes(log[i..]) == stream + LogBytes(log)
    {
      assert log[i..][1..] == log[i + 1..];
      assert EntriesBytes(log[i..]) == EntryBytes(log[i]) + EntriesBytes(log[i + 1..]);
      out := WriteEntry(log[i], out);
    }
  }

  // ----- reading --------------------------------------------------------

  function ReadNames(input: seq<byte>): Parsed<seq<GLuint>> {
    var (count, rest) :- ReadWord(input);
    if count > MAX_NAMES then Failed else ReadWords(count, rest)
  }

  function ImageOf(w: seq<uint32>, hasPixels: bool, pixels: seq<byte>): TexImage2DCall
    requires |w| == 7
  {
    TexImage2DCall(w[0], Signed(w[1]), w[2], Signed(w[3]), Signed(w[4]), w[5], w[6], hasPixels, pixels)
  }

  function ReadImage(input: seq<byte>): Parsed<TexImage2DCall> {
    var (w, rest) :- ReadWords(7, input);
    var (flag, rest1) :- ReadBytes(1, rest);
    var (count, rest2) :- ReadWord(rest1);
    if count > MAX_PIXEL_BYTES then Failed
    else
      var (pixels, rest3) :- ReadBytes(count, rest2);
      Parsed(ImageOf(w, flag[0] != 0, pixels), rest3)
  }

  function ReadEntry(input: seq<byte>): Parsed<Entry> {
    var (kind, rest) :- ReadBytes(1, input);
    if kind[0] == 0 then
      var (names, rest') :- ReadNames(rest);
      Parsed(GenTextures(names), rest')
    else if kind[0] == 1 then
      var (ids, rest') :- ReadNames(rest);
      Parsed(DeleteTextures(ids), rest')
    else if kind[0] == 2 then
      var (w, rest') :- ReadWords(2, rest);
      Parsed(BindTexture(w[0], w[1]), rest')
    else if kind[0] == 3 then
      var (w, rest') :- ReadWords(3, rest);
      Parsed(TexParameter(w[0], w[1], Signed(w[2])), rest')
    else if kind[0] == 4 then
      var (call, rest') :- ReadImage(rest);
      Parsed(TexImage2D(call), rest')
    else Failed
  }

  function ReadEntries(n: nat, input: seq<byte>): Parsed<seq<Entry>> {
    if n == 0 then Parsed([], input)
    else
      var (e, rest) :- ReadEntry(input);
      var (es, rest') :- ReadEntries(n - 1, rest);
      Parsed([e] + es, rest')
  }

  function ReadLog(input: seq<byte>): Parsed<seq<Entry>> {
    var (count, rest) :- ReadWord(input);
    if count > MAX_ENTRIES then Failed else ReadEntries(count, rest)
  }

  function Prepend(log: seq<Entry>, r: Parsed<seq<Entry>>): Parsed<seq<Entry>> {
    if r.Failed? then Failed else Parsed(log + r.value, r.rest)
  }

  lemma NoEntries(input: seq<byte>)
    ensures ReadEntries(0, input) == Parsed([], input)
  {
  }

  lemma PrependOne(log: seq<Entry>, n: nat, input: seq<byte>)
    requires n > 0
    ensures Prepend(log, ReadEntries(n, input))
            == match ReadEntry(input)
               case Failed => Failed
               case Parsed(e, rest) => Prepend(log + [e], ReadEntries(n - 1, rest))
  {
    hide ReadEntry;
    var head := ReadEntry(input);
    if head.Parsed? {
      var tail := ReadEntries(n - 1, head.rest);
      if tail.Parsed? {
        assert log + ([head.value] + tail.value) == (log + [head.value]) + tail.value;
      }
    }
  }

  /** On failure `out` is left as it was. */
  method DeserializeGlTextureLog(input: seq<byte>, out: seq<Entry>)
    returns (ok: bool, out': seq<Entry>, rest: seq<byte>)
    ensures ok <==> ReadLog(input).Parsed?
    ensures if ok then ReadLog(input) == Parsed(out', rest) else out' == out
  {
    hide ReadEntry, ReadEntries;
    ok, out', rest := false, out, input;
    var count := ReadWord(input);
    if count.Failed? || count.value > MAX_ENTRIES {
      return;
    }
    rest := count.rest;
    var log: seq<Entry> := [];
    assert forall es: seq<Entry> :: log + es == es;
    assert Prepend(log, ReadEntries(count.value, rest)) == ReadLog(input);
    for i := 0 to count.value
      invariant |log| == i
      invariant ReadLog(input) == Prepend(log, ReadEntries(count.value - i, rest))
    {
      PrependOne(log, count.value - i, rest);
      var entry := ReadEntry(rest);
      if entry.Failed? {
        return;
      }
      log, rest := log + [entry.value], entry.rest;
    }
    ok, out' := true, log;
    assert ReadEntries(0, rest) == Parsed([], rest) by {
      NoEntries(rest);
    }
    assert log + [] == log;
  }

  // ----- round trip -----------------------------------------------------

  /** At most 65536 names in one call, and 64 MiB of pixels in one image. */
  predicate EntryWithinCaps(e: Entry) {
    match e
    case GenTextures(names) => |names| <= 65536
    case DeleteTextures(ids) => |ids| <= 65536
    case TexImage2D(c) => |c.pixels| <= 64 * 1024 * 1024
    case _ => true
  }

  /** At most 65536 entries, each within its caps. */
  predicate WithinCaps(log: seq<Entry>) {
    |log| <= 65536 && forall i :: 0 <= i < |log| ==> EntryWithinCaps(log[i])
  }

  lemma ReadNamesBack(names: seq<GLuint>, rest: seq<byte>)
    requires |names| <= MAX_NAMES
    ensures ReadNames(NamesBytes(names) + rest) == Parsed(names, rest)
  {
    hide ReadWord, WordBytes, ReadWords;
    assert NamesBytes(names) + rest == WordBytes(|names|) + (WordsBytes(names) + rest);
    ReadWordBytes(|names|, WordsBytes(names) + rest);
    ReadWordsBytes(names, rest);
  }

  lemma ReadImageBack(c: TexImage2DCall, rest: seq<byte>)
    requires |c.pixels| <= MAX_PIXEL_BYTES
    ensures ReadImage(WordsBytes(ImageWords(c))
                      + ([FlagByte(c.hasPixels)] + (PixelBytes(c.pixels) + rest)))
            == Parsed(c, rest)
  {
    hide ReadWord, WordBytes, WordsBytes, ReadWords, ReadBytes;
    assert PixelBytes(c.pixels) + rest == WordBytes(|c.pixels|) + (c.pixels + rest);
    var w, flag := ImageWords(c), [FlagByte(c.hasPixels)];
    var tail2 := c.pixels + rest;
    var tail1 := WordBytes(|c.pixels|) + tail2;
    ReadWordsBytes(w, flag + tail1);
    ReadBytesBack(flag, tail1);
    ReadWordBytes(|c.pixels|, tail2);
    ReadBytesBack(c.pixels, rest);
    assert ImageOf(w, c.hasPixels, c.pixels) == c;
  }

  function Kind(e: Entry): byte {
    match e
    case GenTextures(_) => 0
    case DeleteTextures(_) => 1
    case BindTexture(_, _) => 2
    case TexParameter(_, _, _) => 3
    case TexImage2D(_) => 4
  }

  /** What `EntryBytes` puts after the kind byte, followed by `rest`. */
  function BodyThen(e: Entry, rest: seq<byte>): seq<byte> {
    match e
    case GenTextures(names) => NamesBytes(names) + rest
    case DeleteTextures(ids) => NamesBytes(ids) + rest
    case BindTexture(target, texture) => WordsBytes([target, texture]) + rest
    case TexParameter(target, pname, param) => WordsBytes([target, pname, Unsigned(param)]) + rest
    case TexImage2D(c) =>
      WordsBytes(ImageWords(c)) + ([FlagByte(c.hasPixels)] + (PixelBytes(c.pixels) + rest))
  }

  lemma EntryBytesThen(e: Entry, rest: seq<byte>)
    ensures EntryBytes(e) + rest == [Kind(e)] + BodyThen(e, rest)
  {
    hide WordsBytes, NamesBytes, PixelBytes, ImageWords;
  }

  lemma ReadEntryBack(e: Entry, rest: seq<byte>)
    requires EntryWithinCaps(e)
    ensures ReadEntry(EntryBytes(e) + rest) == Parsed(e, rest)
  {
    hide ReadWord, WordBytes, WordsBytes, NamesBytes, PixelBytes, ReadWords, ReadBytes;
    hide ReadNames, ReadImage, EntryBytes;
    EntryBytesThen(e, rest);
    ReadBytesBack([Kind(e)], BodyThen(e, rest));
    match e {
      case GenTextures(names) => ReadNamesBack(names, rest);
      case DeleteTextures(ids) => ReadNamesBack(ids, rest);
      case BindTexture(target, texture) => ReadWordsBytes([target, texture], rest);
      case TexParameter(target, pname, param) => ReadWordsBytes([target, pname, Unsigned(param)], rest);
      case TexImage2D(c) => ReadImageBack(c, rest);
    }
  }

  lemma {:induction false} ReadEntriesBack(log: seq<Entry>, rest: seq<byte>)
    requires forall i :: 0 <= i < |log| ==> EntryWithinCaps(log[i])
    ensures ReadEntries(|log|, EntriesBytes(log) + rest) == Parsed(log, rest)
  {
    hide EntryBytes, ReadEntry;
    if log == [] {
      assert EntriesBytes(log) + rest == rest;
    } else {
      var tail := EntriesBytes(log[1..]) + rest;
      assert EntriesBytes(log) + rest == EntryBytes(log[0]) + tail;
      ReadEntryBack(log[0], tail);
      ReadEntriesBack(log[1..], rest);
      assert [log[0]] + log[1..] == log;
    }
  }

  lemma ReadEntryIsWithinCaps(input: seq<byte>)
    ensures ReadEntry(input).Parsed? ==> EntryWithinCaps(ReadEntry(input).value)
  {
  }

  lemma {:induction false} ReadEntriesAreWithinCaps(n: nat, input: seq<byte>)
    ensures var r := ReadEntries(n, input);
      r.Parsed? ==> |r.value| == n && forall i :: 0 <= i < n ==> EntryWithinCaps(r.value[i])
  {
    if n > 0 && ReadEntry(input).Parsed? {
      ReadEntryIsWithinCaps(input);
      ReadEntriesAreWithinCaps(n - 1, ReadEntry(input).rest);
    }
  }

  /** Reading back a written log yields exactly that log and leaves exactly what follows it,
      precisely when the log is within the reader's caps. */
  lemma LogRoundTripIff(log: seq<Entry>, rest: seq<byte>)
    ensures ReadLog(LogBytes(log) + rest) == Parsed(log, rest) <==> WithinCaps(log)
  {
    hide WordBytes, ReadWord, EntriesBytes, ReadEntries;
    var input, tail := LogBytes(log) + rest, EntriesBytes(log) + rest;
    assert input == WordBytes(Size32(|log|)) + tail;
    ReadWordBytes(Size32(|log|), tail);
    if WithinCaps(log) {
      ReadEntriesBack(log, rest);
    } else {
      ReadEntriesAreWithinCaps(Size32(|log|), tail);
    }
  }

  // ----- each entry in bytes --------------------------------------------------

  /** `b` starts with this tag and then, in four bytes each, these words. */
  ghost predicate TagAndWords(b: seq<byte>, tag: byte, words: seq<uint32>) {
    && |b| >= 1 + 4 * |words| && b[0] == tag
    && forall i :: 0 <= i < |words| ==> Little(b, 1 + 4 * i) == words[i]
  }

  lemma TaggedWords(tag: byte, words: seq<uint32>, rest: seq<byte>)
    ensures |WordsBytes(words)| == 4 * |words|
    ensures TagAndWords([tag] + (WordsBytes(words) + rest), tag, words)
  {
    hide Little, WordsBytes;
    LittleWords(words, 0);
    var b := [tag] + (WordsBytes(words) + rest);
    forall i | 0 <= i < |words| ensures Little(b, 1 + 4 * i) == words[i] {
      LittleWords(words, i);
      LittleInside([tag], WordsBytes(words), rest, 4 * i);
      assert [tag] + WordsBytes(words) + rest == b;
    }
  }

  /** A Gen is tag 0 and a Delete tag 1, then the count and the names. */
  lemma StoredNames(names: seq<GLuint>)
    requires |names| < TWO32
    ensures TagAndWords(EntryBytes(GenTextures(names)), 0, [|names|] + names)
    ensures TagAndWords(EntryBytes(DeleteTextures(names)), 1, [|names|] + names)
    ensures |EntryBytes(GenTextures(names))| == |EntryBytes(DeleteTextures(names))| == 5 + 4 * |names|
  {
    hide TagAndWords, WordBytes;
    TaggedWords(0, [|names|] + names, []);
    TaggedWords(1, [|names|] + names, []);
    assert ([|names|] + names)[1..] == names;
    assert WordsBytes([|names|] + names) == WordBytes(|names|) + WordsBytes(names) == NamesBytes(names);
    assert NamesBytes(names) + [] == NamesBytes(names);
  }

  /** A bind is tag 2, the target and the texture; a parameter tag 3, the target, its name and its value. */
  lemma StoredBindAndParameter(target: GLenum, texture: GLuint, pname: GLenum, param: GLint)
    ensures TagAndWords(EntryBytes(BindTexture(target, texture)), 2, [target, texture])
    ensures TagAndWords(EntryBytes(TexParameter(target, pname, param)), 3,
                        [target, pname, if param < 0 then param + TWO32 else param])
    ensures |EntryBytes(BindTexture(target, texture))| == 9 && |EntryBytes(TexParameter(target, pname, param))| == 13
  {
    hide TagAndWords, WordBytes, WordsBytes;
    var binding, parameter := [target, texture], [target, pname, Unsigned(param)];
    TaggedWords(2, binding, []);
    TaggedWords(3, parameter, []);
    assert WordsBytes(binding) + [] == WordsBytes(binding) && WordsBytes(parameter) + [] == WordsBytes(parameter);
  }

  /** An image is tag 4, its seven fields, whether it has pixels, how many bytes of them there are, and those. */
  lemma StoredImage(c: TexImage2DCall)
    requires |c.pixels| < TWO32
    ensures var b := EntryBytes(TexImage2D(c));
      && |b| == 34 + |c.pixels|
      && TagAndWords(b, 4, [c.target, Unsigned(c.level), c.internalFormat, Unsigned(c.width), Unsigned(c.height),
                            c.format, c.pixelType])
      && b[29] == (if c.hasPixels then 1 else 0) && Little(b, 30) == |c.pixels| && b[34..] == c.pixels
  {
    hide TagAndWords, WordBytes, WordsBytes, Little, EntryBytes;
    var words, flag, count := WordsBytes(ImageWords(c)), [FlagByte(c.hasPixels)], WordBytes(|c.pixels|);
    ImageInParts(c);
    TaggedWords(4, ImageWords(c), flag + count + c.pixels);
    assert [4] + words + flag + count + c.pixels == [4] + (words + (flag + count + c.pixels));
    LittleWord(|c.pixels|);
    LittleInside([4] + words + flag, count, c.pixels, 0);
  }

  lemma ImageInParts(c: TexImage2DCall)
    requires |c.pixels| < TWO32
    ensures |WordsBytes(ImageWords(c))| == 28
    ensures EntryBytes(TexImage2D(c))
            == [4] + WordsBytes(ImageWords(c)) + [FlagByte(c.hasPixels)] + WordBytes(|c.pixels|) + c.pixels
  {
    hide WordBytes, WordsBytes;
    LittleWords(ImageWords(c), 0);
    assert c.pixels[..|c.pixels|] == c.pixels;
  }

  lemma UnsignedIsModular(v: int32)
    ensures (Unsigned(v) - v) % TWO32 == 0
  {
  }

  /** A log is its number of entries, cut to four bytes, and then the entries in order. */
  lemma StoredLog(a: seq<Entry>, e: Entry)
    ensures |LogBytes(a + [e])| >= 4 && Little(LogBytes(a + [e]), 0) == (|a| + 1) % TWO32
    ensures EntriesBytes([]) == [] && LogBytes(a + [e])[4..] == EntriesBytes(a) + EntryBytes(e)
  {
    hide EntryBytes, WordBytes, Little, EntriesBytes;
    var log := a + [e];
    LittleWord(Size32(|log|));
    LittleInside([], WordBytes(Size32(|log|)), EntriesBytes(log), 0);
    assert [] + WordBytes(Size32(|log|)) + EntriesBytes(log) == LogBytes(log);
    EntriesBytesConcat(a, [e]);
    LastEntry(e);
  }

  lemma LastEntry(e: Entry)
    ensures EntriesBytes([]) == [] && EntriesBytes([e]) == EntryBytes(e)
  {
    hide EntryBytes;
    assert [e][1..] == [];
  }

  lemma {:induction false} EntriesBytesConcat(a: seq<Entry>, b: seq<Entry>)
    ensures EntriesBytes(a + b) == EntriesBytes(a) + EntriesBytes(b)
  {
    hide EntryBytes;
    if a == [] {
      assert a + b == b;
    } else {
      assert (a + b)[1..] == a[1..] + b;
      EntriesBytesConcat(a[1..], b);
    }
  }

  // ----- what the reader accepts ----------------------------------------------

  lemma ReadNamesTakes(input: seq<byte>)
    ensures var r := ReadNames(input);
      r.Parsed? ==> |r.value| <= 65536 && input == NamesBytes(r.value) + r.rest
  {
    hide ReadWord, ReadWords, WordBytes, WordsBytes;
    ReadWordTakes(input);
    var count := ReadWord(input);
    if count.Parsed? && count.value <= MAX_NAMES {
      ReadWordsTakes(count.value, count.rest);
      NoWords();
    }
  }

  lemma NoWords()
    ensures WordsBytes([]) == []
  {
  }

  /** The bytes of an image with any byte for the flag. */
  function FlaggedBytes(c: TexImage2DCall, flag: byte): seq<byte> {
    WordsBytes(ImageWords(c)) + ([flag] + PixelBytes(c.pixels))
  }

  lemma ReadImageTakes(input: seq<byte>) returns (flag: byte)
    ensures var r := ReadImage(input);
      r.Parsed? ==> && |r.value.pixels| <= 64 * 1024 * 1024 && (flag != 0 <==> r.value.hasPixels)
                    && input == FlaggedBytes(r.value, flag) + r.rest
  {
    hide ReadWord, ReadWords, WordBytes, WordsBytes;
    ReadWordsTakes(7, input);
    var words := ReadWords(7, input);
    flag := if words.Parsed? && words.rest != [] then words.rest[0] else 0;
    if ReadImage(input).Parsed? {
      var rest1 := words.rest[1..];
      ReadWordTakes(rest1);
      var r := ReadImage(input);
      SignedBack(words.value);
      assert ImageWords(r.value) == words.value;
      assert rest1 == PixelBytes(r.value.pixels) + r.rest;
      assert words.rest == [flag] + rest1;
    }
  }

  lemma SignedBack(w: seq<uint32>)
    ensures forall k :: 0 <= k < |w| ==> Unsigned(Signed(w[k])) == w[k]
  {
  }

  lemma TwoOrThree(n: nat, input: seq<byte>)
    ensures var w := ReadWords(n, input);
      && (n == 2 && w.Parsed? ==> w.value == [w.value[0], w.value[1]])
      && (n == 3 && w.Parsed? ==> w.value == [w.value[0], w.value[1], Unsigned(Signed(w.value[2]))])
  {
    hide ReadWord;
    if ReadWords(n, input).Parsed? {
      SignedBack(ReadWords(n, input).value);
    }
  }

  /** Whatever the reader takes for an entry is that entry as the writer stores it, but that any byte other than 0
      says that an image has pixels; and it is within the caps. */
  lemma ReadEntryTakes(input: seq<byte>) returns (flag: byte)
    ensures var r := ReadEntry(input);
      r.Parsed? ==>
        && EntryWithinCaps(r.value)
        && (!r.value.TexImage2D? ==> input == EntryBytes(r.value) + r.rest)
        && (r.value.TexImage2D? ==>
              (flag != 0 <==> r.value.call.hasPixels) && input == [4] + FlaggedBytes(r.value.call, flag) + r.rest)
  {
    hide ReadNames, ReadImage, ReadWords, NamesBytes, FlaggedBytes, WordsBytes, EntryBytes;
    flag := 0;
    var r := ReadEntry(input);
    if r.Parsed? {
      EntryBytesThen(r.value, r.rest);
    }
    if input != [] {
      var rest := input[1..];
      assert input == [input[0]] + rest;
      if input[0] < 2 {
        ReadNamesTakes(rest);
      } else if input[0] == 2 {
        ReadWordsTakes(2, rest);
        TwoOrThree(2, rest);
      } else if input[0] == 3 {
        ReadWordsTakes(3, rest);
        TwoOrThree(3, rest);
      } else if input[0] == 4 {
        flag := ReadImageTakes(rest);
      }
    }
  }
}
