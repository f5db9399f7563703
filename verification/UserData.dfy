/** The persisted form of the user files and directories, and when loading restores what was saved. */
module UserData {
  import opened HostTypes
  import opened ByteStream

  const MAX_COUNT := 65536
  const MAX_NAME_BYTES := 4096
  const MAX_TOTAL_BYTES := 64 * 1024 * 1024
  const DIRS_MAGIC: uint32 := 0x53524944

  datatype Saved = Saved(files: map<string, seq<byte>>, dirs: set<string>)

  // ----- names are byte strings -------------------------------------------

  predicate ByteName(name: string) {
    forall i :: 0 <= i < |name| ==> name[i] as int < 256
  }

  function NameBytes(name: string): seq<byte> {
    seq(|name|, i requires 0 <= i < |name| => name[i] as int % 256)
  }

  function NameOf(bytes: seq<byte>): string {
    seq(|bytes|, i requires 0 <= i < |bytes| => bytes[i] as char)
  }

  lemma NameBack(name: string)
    requires ByteName(name)
    ensures NameOf(NameBytes(name)) == name
  {
  }

  // ----- writing ----------------------------------------------------------

  function CountedBytes(b: seq<byte>): seq<byte> {
    WordBytes(Size32(|b|)) + b
  }

  /** `order` is the order in which the map happens to be walked. */
  function FilesBytes(files: map<string, seq<byte>>, order: seq<string>): seq<byte>
    requires forall k :: k in order ==> k in files
  {
    if order == [] then []
    else CountedBytes(NameBytes(order[0])) + (CountedBytes(files[order[0]]) + FilesBytes(files, order[1..]))
  }

  function NamesBytes(order: seq<string>): seq<byte> {
    if order == [] then [] else CountedBytes(NameBytes(order[0])) + NamesBytes(order[1..])
  }

  function FileSection(files: map<string, seq<byte>>, order: seq<string>): seq<byte>
    requires forall k :: k in order ==> k in files
  {
    WordBytes(Size32(|order|)) + FilesBytes(files, order)
  }

  function DirSection(order: seq<string>): seq<byte> {
    WordBytes(DIRS_MAGIC) + (WordBytes(Size32(|order|)) + NamesBytes(order))
  }

  function SavedBytes(files: map<string, seq<byte>>, order: seq<string>, dirOrder: seq<string>): seq<byte>
    requires forall k :: k in order ==> k in files
  {
    FileSection(files, order) + DirSection(dirOrder)
  }

  // ----- reading ----------------------------------------------------------

  function ReadName(input: seq<byte>): Parsed<string> {
    var (size, rest) :- ReadWord(input);
    if size > MAX_NAME_BYTES then Failed
    else
      var (bytes, rest') :- ReadBytes(size, rest);
      Parsed(NameOf(bytes), rest')
  }

  /** One file, given how many data bytes came before it. */
  function ReadFile(total: nat, input: seq<byte>): Parsed<(string, seq<byte>)> {
    var (name, rest) :- ReadName(input);
    var (size, rest1) :- ReadWord(rest);
    if size > MAX_TOTAL_BYTES || total + size > MAX_TOTAL_BYTES then Failed
    else
      var (data, rest2) :- ReadBytes(size, rest1);
      Parsed((name, data), rest2)
  }

  /** The first of several files with one name is kept. */
  function ReadFiles(n: nat, total: nat, input: seq<byte>): Parsed<map<string, seq<byte>>> {
    if n == 0 then Parsed(map[], input)
    else
      var (file, rest) :- ReadFile(total, input);
      var (files, rest') :- ReadFiles(n - 1, total + |file.1|, rest);
      Parsed(files[file.0 := file.1], rest')
  }

  function ReadNames(n: nat, input: seq<byte>): Parsed<set<string>> {
    if n == 0 then Parsed({}, input)
    else
      var (name, rest) :- ReadName(input);
      var (names, rest') :- ReadNames(n - 1, rest);
      Parsed(names + {name}, rest')
  }

  function ReadDirs(input: seq<byte>): Parsed<set<string>> {
    if input == [] then Parsed({}, input)
    else
      var (magic, rest) :- ReadWord(input);
      if magic != DIRS_MAGIC then Failed
      else
        var (count, rest') :- ReadWord(rest);
        if count > MAX_COUNT then Failed else ReadNames(count, rest')
  }

  function ReadSaved(input: seq<byte>): Parsed<Saved> {
    var (count, rest) :- ReadWord(input);
    if count > MAX_COUNT then Failed
    else
      var (files, rest1) :- ReadFiles(count, 0, rest);
      var (dirs, rest2) :- ReadDirs(rest1);
      Parsed(Saved(files, dirs), rest2)
  }

  // ----- what a successful read guarantees --------------------------------

  lemma ReadNameCaps(input: seq<byte>)
    ensures ReadName(input).Parsed? ==> |ReadName(input).value| <= MAX_NAME_BYTES
  {
  }

  lemma ReadFileCaps(total: nat, input: seq<byte>)
    ensures var r := ReadFile(total, input);
      r.Parsed? ==> |r.value.0| <= MAX_NAME_BYTES && |r.value.1| <= MAX_TOTAL_BYTES
  {
    hide ReadName, ReadWord;
    ReadNameCaps(input);
  }

  lemma {:induction false} ReadFilesCaps(n: nat, total: nat, input: seq<byte>)
    ensures var r := ReadFiles(n, total, input);
      r.Parsed? ==> |r.value| <= n
                    && forall k :: k in r.value ==> |k| <= MAX_NAME_BYTES && |r.value[k]| <= MAX_TOTAL_BYTES
  {
    hide ReadFile;
    if n > 0 && ReadFile(total, input).Parsed? {
      var file := ReadFile(total, input);
      ReadFileCaps(total, input);
      ReadFilesCaps(n - 1, total + |file.value.1|, file.rest);
      var tail := ReadFiles(n - 1, total + |file.value.1|, file.rest);
      if tail.Parsed? {
        assert tail.value[file.value.0 := file.value.1].Keys == tail.value.Keys + {file.value.0};
      }
    }
  }

  lemma {:induction false} ReadNamesCaps(n: nat, input: seq<byte>)
    ensures var r := ReadNames(n, input);
      r.Parsed? ==> |r.value| <= n && forall k :: k in r.value ==> |k| <= MAX_NAME_BYTES
  {
    hide ReadName;
    ReadNameCaps(input);
    if n > 0 && ReadName(input).Parsed? {
      ReadNamesCaps(n - 1, ReadName(input).rest);
    }
  }

  // ----- reading back what was written --------------------------------------

  function TotalBytes(files: map<string, seq<byte>>, order: seq<string>): nat
    requires forall k :: k in order ==> k in files
  {
    if order == [] then 0 else |files[order[0]]| + TotalBytes(files, order[1..])
  }

  ghost predicate Listing(order: seq<string>, keys: set<string>) {
    && (forall i, j :: 0 <= i < j < |order| ==> order[i] != order[j])
    && (forall k :: k in order <==> k in keys)
  }

  ghost predicate WithinCaps(files: map<string, seq<byte>>, order: seq<string>, dirOrder: seq<string>)
    requires forall k :: k in order ==> k in files
  {
    && |order| <= 65536 && |dirOrder| <= 65536
    && (forall k :: k in order ==> |k| <= 4096)
    && (forall k :: k in dirOrder ==> |k| <= 4096)
    && TotalBytes(files, order) <= 64 * 1024 * 1024
  }

  lemma ReadNameBack(name: string, rest: seq<byte>)
    requires ByteName(name) && |name| <= MAX_NAME_BYTES
    ensures ReadName(CountedBytes(NameBytes(name)) + rest) == Parsed(name, rest)
  {
    hide ReadWord, WordBytes, ReadBytes, NameBytes, NameOf;
    var b := NameBytes(name);
    assert |b| == |name| by {
      NameLength(name);
    }
    assert CountedBytes(b) + rest == WordBytes(|b|) + (b + rest);
    ReadWordBytes(|b|, b + rest);
    ReadBytesBack(b, rest);
    NameBack(name);
  }

  lemma NameLength(name: string)
    ensures |NameBytes(name)| == |name|
  {
  }

  /** A file in front of anything reads back exactly when its data still fits under the total. */
  lemma ReadFileBack(name: string, data: seq<byte>, total: nat, rest: seq<byte>)
    requires ByteName(name) && |name| <= MAX_NAME_BYTES && |data| <= MAX_TOTAL_BYTES
    ensures ReadFile(total, CountedBytes(NameBytes(name)) + (CountedBytes(data) + rest))
            == if total + |data| <= MAX_TOTAL_BYTES then Parsed((name, data), rest) else Failed
  {
    hide ReadName, ReadWord, WordBytes, ReadBytes;
    ReadNameBack(name, CountedBytes(data) + rest);
    assert CountedBytes(data) + rest == WordBytes(|data|) + (data + rest);
    ReadWordBytes(|data|, data + rest);
    ReadBytesBack(data, rest);
  }

  function Restricted(files: map<string, seq<byte>>, order: seq<string>): map<string, seq<byte>>
    requires forall k :: k in order ==> k in files
  {
    map k | k in order :: files[k]
  }

  lemma FilesBytesThen(files: map<string, seq<byte>>, order: seq<string>, rest: seq<byte>)
    requires order != [] && forall k :: k in order ==> k in files
    ensures FilesBytes(files, order) + rest
            == CountedBytes(NameBytes(order[0]))
               + (CountedBytes(files[order[0]]) + (FilesBytes(files, order[1..]) + rest))
  {
    hide CountedBytes, NameBytes;
    var a, b, c := CountedBytes(NameBytes(order[0])), CountedBytes(files[order[0]]), FilesBytes(files, order[1..]);
    assert (a + (b + c)) + rest == a + (b + (c + rest));
  }

  lemma NoFilesBytes(files: map<string, seq<byte>>, rest: seq<byte>)
    ensures FilesBytes(files, []) + rest == rest
  {
  }

  lemma NoFilesBack(files: map<string, seq<byte>>, total: nat, input: seq<byte>)
    ensures ReadFiles(0, total, input) == Parsed(Restricted(files, []), input)
  {
  }

  lemma RestrictedOneMore(files: map<string, seq<byte>>, order: seq<string>)
    requires order != [] && forall k :: k in order ==> k in files
    ensures Restricted(files, order[1..])[order[0] := files[order[0]]] == Restricted(files, order)
  {
  }

  lemma ReadFilesHead(n: nat, total: nat, input: seq<byte>)
    requires n > 0
    ensures ReadFiles(n, total, input)
            == match ReadFile(total, input)
               case Failed => Failed
               case Parsed(file, rest) =>
                 (match ReadFiles(n - 1, total + |file.1|, rest)
                  case Failed => Failed
                  case Parsed(files, rest') => Parsed(files[file.0 := file.1], rest'))
  {
    hide ReadFile;
  }

  lemma {:induction false} ReadFilesBack(files: map<string, seq<byte>>, order: seq<string>, total: nat, rest: seq<byte>)
    requires forall k :: k in order ==> k in files
    requires forall k :: k in order ==> ByteName(k) && |k| <= MAX_NAME_BYTES && |files[k]| <= MAX_TOTAL_BYTES
    requires total <= MAX_TOTAL_BYTES
    ensures ReadFiles(|order|, total, FilesBytes(files, order) + rest)
            == if total + TotalBytes(files, order) <= MAX_TOTAL_BYTES then Parsed(Restricted(files, order), rest)
               else Failed
    decreases |order|
  {
    hide ReadFile, ReadFiles, FilesBytes, CountedBytes, Restricted, ByteName, NameBytes;
    if order == [] {
      NoFilesBytes(files, rest);
      NoFilesBack(files, total, rest);
    } else {
      var name, data := order[0], files[order[0]];
      FilesBytesThen(files, order, rest);
      ReadFileBack(name, data, total, FilesBytes(files, order[1..]) + rest);
      ReadFilesHead(|order|, total, FilesBytes(files, order) + rest);
      if total + |data| <= MAX_TOTAL_BYTES {
        ReadFilesBack(files, order[1..], total + |data|, rest);
        RestrictedOneMore(files, order);
      }
    }
  }

  lemma {:induction false} ReadNamesBack(order: seq<string>, rest: seq<byte>)
    requires forall k :: k in order ==> ByteName(k) && |k| <= MAX_NAME_BYTES
    ensures ReadNames(|order|, NamesBytes(order) + rest) == Parsed((set k | k in order), rest)
    decreases |order|
  {
    hide ReadName, CountedBytes;
    if order == [] {
      assert NamesBytes(order) + rest == rest;
      assert (set k | k in order) == {};
    } else {
      var tail := NamesBytes(order[1..]) + rest;
      assert NamesBytes(order) + rest == CountedBytes(NameBytes(order[0])) + tail;
      ReadNameBack(order[0], tail);
      ReadNamesBack(order[1..], rest);
      assert (set k | k in order[1..]) + {order[0]} == set k | k in order;
    }
  }

  lemma {:induction false} ListingSize(order: seq<string>, keys: set<string>)
    requires Listing(order, keys)
    ensures |order| == |keys|
    decreases |order|
  {
    if order == [] {
      assert keys == {};
    } else {
      assert order[0] !in order[1..];
      ListingSize(order[1..], keys - {order[0]});
    }
  }

  lemma FilesSectionBack(files: map<string, seq<byte>>, order: seq<string>, rest: seq<byte>)
    requires Listing(order, files.Keys) && forall k :: k in order ==> ByteName(k)
    requires |order| <= MAX_COUNT && forall k :: k in order ==> |k| <= MAX_NAME_BYTES && |files[k]| <= MAX_TOTAL_BYTES
    ensures var start := ReadWord(FileSection(files, order) + rest);
      && start.Parsed? && start.value == |order|
      && ReadFiles(|order|, 0, start.rest)
         == if TotalBytes(files, order) <= MAX_TOTAL_BYTES then Parsed(files, rest) else Failed
  {
    hide ReadWord, WordBytes, ReadFiles, FilesBytes;
    assert FileSection(files, order) + rest == WordBytes(|order|) + (FilesBytes(files, order) + rest);
    ReadWordBytes(|order|, FilesBytes(files, order) + rest);
    ReadFilesBack(files, order, 0, rest);
    assert Restricted(files, order) == files;
  }

  lemma DirsSectionBack(dirOrder: seq<string>, rest: seq<byte>)
    requires |dirOrder| <= MAX_COUNT && forall k :: k in dirOrder ==> ByteName(k) && |k| <= MAX_NAME_BYTES
    ensures ReadDirs(DirSection(dirOrder) + rest) == Parsed((set k | k in dirOrder), rest)
  {
    hide ReadWord, WordBytes, ReadNames, NamesBytes;
    var counted := WordBytes(|dirOrder|) + (NamesBytes(dirOrder) + rest);
    assert DirSection(dirOrder) + rest == WordBytes(DIRS_MAGIC) + counted;
    ReadWordBytes(DIRS_MAGIC, counted);
    ReadWordBytes(|dirOrder|, NamesBytes(dirOrder) + rest);
    ReadNamesBack(dirOrder, rest);
    assert |WordBytes(DIRS_MAGIC)| == 4 by {
      WordSize(DIRS_MAGIC);
    }
  }

  lemma WordSize(v: uint32)
    ensures |WordBytes(v)| == 4
  {
  }

  lemma TotalCoversEach(files: map<string, seq<byte>>, order: seq<string>, k: string)
    requires (forall x :: x in order ==> x in files) && k in order
    ensures |files[k]| <= TotalBytes(files, order)
    decreases |order|
  {
    if order[0] != k {
      TotalCoversEach(files, order[1..], k);
    }
  }

  /** Saving and loading restores the same files and directories, whatever order the maps were walked in,
      exactly when the counts, the names and the total size are within the reader's caps. */
  lemma SavedRoundTripIff(files: map<string, seq<byte>>, dirs: set<string>,
                          order: seq<string>, dirOrder: seq<string>, rest: seq<byte>)
    requires Listing(order, files.Keys) && Listing(dirOrder, dirs)
    requires forall k :: k in order || k in dirOrder ==> ByteName(k)
    ensures ReadSaved(SavedBytes(files, order, dirOrder) + rest) == Parsed(Saved(files, dirs), rest)
            <==> WithinCaps(files, order, dirOrder)
  {
    hide ReadWord, ReadFiles, ReadDirs, FileSection, DirSection;
    var input, tail := SavedBytes(files, order, dirOrder) + rest, DirSection(dirOrder) + rest;
    assert input == FileSection(files, order) + tail;
    ListingSize(order, files.Keys);
    ListingSize(dirOrder, dirs);
    assert (set k | k in dirOrder) == dirs;
    if WithinCaps(files, order, dirOrder) {
      forall k | k in order ensures |files[k]| <= MAX_TOTAL_BYTES {
        TotalCoversEach(files, order, k);
      }
      FilesSectionBack(files, order, tail);
      DirsSectionBack(dirOrder, rest);
    } else if ReadSaved(input) == Parsed(Saved(files, dirs), rest) {
      ReadSavedCaps(input);
      FilesSectionBack(files, order, tail);
    }
  }

  lemma ReadSavedCaps(input: seq<byte>)
    requires ReadSaved(input).Parsed?
    ensures var s := ReadSaved(input).value;
      && |s.files| <= MAX_COUNT && |s.dirs| <= MAX_COUNT
      && (forall k :: k in s.files ==> |k| <= MAX_NAME_BYTES && |s.files[k]| <= MAX_TOTAL_BYTES)
      && (forall k :: k in s.dirs ==> |k| <= MAX_NAME_BYTES)
  {
    hide ReadFiles, ReadNames;
    var count := ReadWord(input);
    ReadFilesCaps(count.value, 0, count.rest);
    var rest := ReadFiles(count.value, 0, count.rest).rest;
    if rest != [] {
      var size := ReadWord(ReadWord(rest).rest);
      ReadNamesCaps(size.value, size.rest);
    }
  }

  /** Data saved before directories existed loads with no directories. */
  lemma LegacyLoadsWithoutDirs(files: map<string, seq<byte>>, order: seq<string>)
    requires Listing(order, files.Keys) && forall k :: k in order ==> ByteName(k)
    requires WithinCaps(files, order, [])
    ensures ReadSaved(FileSection(files, order)) == Parsed(Saved(files, {}), [])
  {
    hide ReadWord, ReadFiles, FileSection;
    forall k | k in order ensures |files[k]| <= MAX_TOTAL_BYTES {
      TotalCoversEach(files, order, k);
    }
    assert FileSection(files, order) + [] == FileSection(files, order);
    FilesSectionBack(files, order, []);
  }

  /** Of two files with one name the first is loaded. */
  lemma FirstOfTwoIsLoaded(name: string, first: seq<byte>, second: seq<byte>, rest: seq<byte>)
    requires ByteName(name) && |name| <= 4096 && |first| + |second| <= 64 * 1024 * 1024
    ensures var input := CountedBytes(NameBytes(name)) + (CountedBytes(first)
                         + (CountedBytes(NameBytes(name)) + (CountedBytes(second) + rest)));
      ReadFiles(2, 0, input) == Parsed(map[name := first], rest)
  {
    hide ReadFile, ReadFiles, CountedBytes, NameBytes;
    var tail := CountedBytes(NameBytes(name)) + (CountedBytes(second) + rest);
    var input := CountedBytes(NameBytes(name)) + (CountedBytes(first) + tail);
    ReadFileBack(name, first, 0, tail);
    ReadFileBack(name, second, |first|, rest);
    ReadFilesHead(2, 0, input);
    ReadFilesHead(1, |first|, tail);
    NoFilesBack(map[], |first| + |second|, rest);
    assert Restricted(map[], []) == map[];
    assert map[name := second][name := first] == map[name := first];
  }

  /** Anything but the letters DIRS after the files makes the load fail. */
  lemma ForeignTailFails(files: map<string, seq<byte>>, order: seq<string>, rest: seq<byte>)
    requires Listing(order, files.Keys) && forall k :: k in order ==> ByteName(k)
    requires WithinCaps(files, order, [])
    requires rest != [] && !([68, 73, 82, 83] <= rest)
    ensures ReadSaved(FileSection(files, order) + rest).Failed?
  {
    hide ReadFiles, FileSection;
    forall k | k in order ensures |files[k]| <= MAX_TOTAL_BYTES {
      TotalCoversEach(files, order, k);
    }
    FilesSectionBack(files, order, rest);
    NotTheMagic(rest);
  }

  lemma NotTheMagic(rest: seq<byte>)
    requires rest != [] && !([68, 73, 82, 83] <= rest)
    ensures ReadDirs(rest).Failed?
  {
    hide ReadWord;
    ReadWordTakes(rest);
    MagicBytes();
  }

  lemma MagicBytes()
    ensures WordBytes(DIRS_MAGIC) == [68, 73, 82, 83]
  {
  }

  lemma StoredFile()
    ensures FileSection(map["ab" := [7, 8, 9]], ["ab"]) == [1, 0, 0, 0, 2, 0, 0, 0, 97, 98, 3, 0, 0, 0, 7, 8, 9]
  {
  }

  lemma StoredDirectory()
    ensures DirSection(["d"]) == [68, 73, 82, 83, 1, 0, 0, 0, 1, 0, 0, 0, 100]
  {
  }

  /** One file and one directory as they are stored: counts and lengths in four bytes, the low-order one first, each
      name before its data, and the letters DIRS between files and directories. */
  lemma StoredFileAndDirectory()
    ensures SavedBytes(map["ab" := [7, 8, 9]], ["ab"], ["d"])
         == [1, 0, 0, 0, 2, 0, 0, 0, 97, 98, 3, 0, 0, 0, 7, 8, 9]
            + [68, 73, 82, 83, 1, 0, 0, 0, 1, 0, 0, 0, 100]
  {
    hide FileSection, DirSection;
    StoredFile();
    StoredDirectory();
  }
}
