/** What the file manager promises over whole runs. */
module FileHistory {
  import opened HostTypes
  import opened WritablePath
  import opened FileStore

  // ----- files only come into being and grow --------------------------------

  ghost predicate Grows(s: Store, t: Store) {
    && (forall k :: k in s.files ==> k in t.files && |s.files[k]| <= |t.files[k]|)
    && s.dirs <= t.dirs
  }

  lemma OpenGrows(cfg: Config, s: Store, name: string, mode: uint32)
    requires Valid(cfg, s)
    ensures var t := Open(cfg, s, name, mode).0;
      && Grows(s, t)
      && (forall k :: k in s.files ==> t.files[k] == s.files[k])
      && (forall k :: k in t.files && k !in s.files ==> k == Normalize(name))
  {
    hide Allocate, DirExists, Normalize;
    var key := Normalize(name);
    AllocateKeepsFiles(cfg, s, key, User);
    AllocateKeepsFiles(cfg, s.(files := s.files[key := []]), key, User);
    AllocateKeepsFiles(cfg, s, name, Asset([]));
    if cfg.find(name).Some? {
      var data := cfg.find(name).value;
      AllocateKeepsFiles(cfg, s.(files := s.files[key := data]), key, User);
      AllocateKeepsFiles(cfg, s, name, Asset(data));
    }
  }

  lemma AllocateKeepsFiles(cfg: Config, s: Store, name: string, target: Target)
    ensures Allocate(cfg, s, name, target).0.files == s.files
    ensures Allocate(cfg, s, name, target).0.dirs == s.dirs
  {
  }

  lemma StepGrows(cfg: Config, s: Store, c: Call)
    requires Valid(cfg, s)
    ensures Grows(s, Step(cfg, s, c))
  {
    hide Open;
    match c {
      case OpenCall(name, mode) => OpenGrows(cfg, s, name, mode);
      case _ =>
    }
  }

  lemma {:induction false} RunGrows(cfg: Config, s: Store, calls: seq<Call>)
    requires Valid(cfg, s)
    ensures Grows(s, Run(cfg, s, calls))
    decreases |calls|
  {
    hide Step;
    if calls != [] {
      StepGrows(cfg, s, calls[0]);
      StepKeepsValid(cfg, s, calls[0]);
      RunGrows(cfg, Step(cfg, s, calls[0]), calls[1..]);
    }
  }

  // ----- one buffer per canonical name --------------------------------------

  /** Once a user file exists, every later open of any spelling of its name, in any mode, that gets
      a handle gets one on that file; the handle is new and starts at the beginning. */
  lemma SpellingsShareOneFile(cfg: Config, s: Store, calls: seq<Call>, spelling: string, mode: uint32)
    requires Valid(cfg, s) && Normalize(spelling) in s.files
    ensures var t := Run(cfg, s, calls);
      var (u, handle) := Open(cfg, t, spelling, mode);
      && u.files == t.files
      && (handle != 0 ==> handle !in t.handles
                          && u.handles == t.handles[handle := Handle(Normalize(spelling), User, 0)])
      && (handle == 0 <==> RegionFull(cfg, t.next))
  {
    RunGrows(cfg, s, calls);
    var t := Run(cfg, s, calls);
    AllocateKeepsValid(cfg, t, Normalize(spelling), User);
  }

  /** A directory made once is found under every spelling from then on. */
  lemma MadeDirectoryIsFound(cfg: Config, s: Store, made: string, calls: seq<Call>, spelling: string)
    requires Valid(cfg, s) && MkDir(cfg, s, made).1 == 0 && Normalize(spelling) == Normalize(made)
    ensures Test(cfg, Run(cfg, Step(cfg, s, MkDirCall(made)), calls), spelling)
  {
    StepKeepsValid(cfg, s, MkDirCall(made));
    RunGrows(cfg, Step(cfg, s, MkDirCall(made)), calls);
  }

  // ----- what a byte of a file is -------------------------------------------

  /** The byte this one call writes at offset `at` of the user file `key`, through whichever handle. */
  function WrittenBy(s: Store, c: Call, key: string, at: nat): Option<byte> {
    if c.WriteCall? && WriteAccepted(s, c.handle, c.src, |c.bytes|) && s.handles[c.handle].name == key
       && s.handles[c.handle].position <= at < s.handles[c.handle].position + |c.bytes|
    then Some(c.bytes[at - s.handles[c.handle].position])
    else None
  }

  /** The last write in the run that covered offset `at` of `key`. */
  function LastWritten(cfg: Config, s: Store, calls: seq<Call>, key: string, at: nat): Option<byte>
    requires Valid(cfg, s)
    decreases |calls|
  {
    if calls == [] then None
    else
      StepKeepsValid(cfg, s, calls[0]);
      var later := LastWritten(cfg, Step(cfg, s, calls[0]), calls[1..], key, at);
      if later.Some? then later else WrittenBy(s, calls[0], key, at)
  }

  /** The contents `key` had before any write of the run: from the start, or when the run created it. */
  function Origin(cfg: Config, s: Store, calls: seq<Call>, key: string): seq<byte>
    requires Valid(cfg, s)
    decreases |calls|
  {
    if key in s.files then s.files[key]
    else if calls == [] then []
    else
      StepKeepsValid(cfg, s, calls[0]);
      Origin(cfg, Step(cfg, s, calls[0]), calls[1..], key)
  }

  function ByteOr0(b: seq<byte>, at: nat): byte {
    if at < |b| then b[at] else 0
  }

  function ExpectedByte(cfg: Config, s: Store, calls: seq<Call>, key: string, at: nat): byte
    requires Valid(cfg, s)
  {
    var written := LastWritten(cfg, s, calls, key, at);
    if written.Some? then written.value else ByteOr0(Origin(cfg, s, calls, key), at)
  }

  /** One step leaves each byte as written, as it was, or zero where the file grew. */
  lemma StepBytes(cfg: Config, s: Store, c: Call, key: string, at: nat)
    requires Valid(cfg, s) && key in s.files
    ensures var t := Step(cfg, s, c);
      key in t.files &&
      ByteOr0(t.files[key], at) ==
      if WrittenBy(s, c, key, at).Some? then WrittenBy(s, c, key, at).value else ByteOr0(s.files[key], at)
  {
    hide Open;
    match c {
      case OpenCall(name, mode) => OpenGrows(cfg, s, name, mode);
      case _ =>
    }
  }

  lemma WritesOnlyToFiles(cfg: Config, s: Store, c: Call, key: string, at: nat)
    requires Valid(cfg, s) && key !in s.files
    ensures WrittenBy(s, c, key, at).None?
  {
  }

  /** At every moment of every run, each byte of each user file is the last one written there through
      any handle, or else what the file originally held there, or else the zero of an extension. */
  lemma {:induction false} FileHoldsLastWrites(cfg: Config, s: Store, calls: seq<Call>, key: string, at: nat)
    requires Valid(cfg, s) && key in Run(cfg, s, calls).files && at < |Run(cfg, s, calls).files[key]|
    ensures Run(cfg, s, calls).files[key][at] == ExpectedByte(cfg, s, calls, key, at)
    decreases |calls|
  {
    hide Step, WrittenBy;
    if calls != [] {
      StepKeepsValid(cfg, s, calls[0]);
      var t := Step(cfg, s, calls[0]);
      FileHoldsLastWrites(cfg, t, calls[1..], key, at);
      if key in s.files {
        StepBytes(cfg, s, calls[0], key, at);
      } else {
        WritesOnlyToFiles(cfg, s, calls[0], key, at);
      }
    }
  }

  // ----- where files come from -----------------------------------------------

  /** What this call makes the file `key` of when there is none: a read-write open of an asset copies it, and a
      create without an asset makes it empty. */
  function MadeBy(cfg: Config, c: Call, key: string): Option<seq<byte>> {
    if !c.OpenCall? || Normalize(c.name) != key then None
    else if cfg.find(c.name).Some? then (if ReadWriteMode(c.mode) then cfg.find(c.name) else None)
    else if CreateMode(c.mode) then Some([])
    else None
  }

  function FirstMade(cfg: Config, calls: seq<Call>, key: string): Option<seq<byte>> {
    if calls == [] then None
    else if MadeBy(cfg, calls[0], key).Some? then MadeBy(cfg, calls[0], key)
    else FirstMade(cfg, calls[1..], key)
  }

  lemma StepMakes(cfg: Config, s: Store, c: Call, key: string)
    requires Valid(cfg, s) && key !in s.files
    ensures var t := Step(cfg, s, c);
      && (key in t.files <==> MadeBy(cfg, c, key).Some?)
      && (key in t.files ==> t.files[key] == MadeBy(cfg, c, key).value)
  {
    hide Normalize, DirExists;
    match c {
      case OpenCall(name, mode) =>
        hide Open;
        OpenMakes(cfg, s, name, mode, key);
      case _ =>
    }
  }

  lemma OpenMakes(cfg: Config, s: Store, name: string, mode: uint32, key: string)
    requires Valid(cfg, s) && key !in s.files
    ensures var t, made := Open(cfg, s, name, mode).0, MadeBy(cfg, OpenCall(name, mode), key);
      && (key in t.files <==> made.Some?)
      && (key in t.files ==> t.files[key] == made.value)
  {
    hide Normalize, DirExists;
  }

  /** After any run a user file exists that did not before exactly when some call of the run made it, and it began
      as the first such call made it. */
  lemma {:induction false} FilesComeFromOpens(cfg: Config, s: Store, calls: seq<Call>, key: string)
    requires Valid(cfg, s) && key !in s.files
    ensures key in Run(cfg, s, calls).files <==> FirstMade(cfg, calls, key).Some?
    ensures key in Run(cfg, s, calls).files ==> Origin(cfg, s, calls, key) == FirstMade(cfg, calls, key).value
    decreases |calls|
  {
    hide Step, MadeBy;
    if calls != [] {
      StepKeepsValid(cfg, s, calls[0]);
      StepMakes(cfg, s, calls[0], key);
      var t := Step(cfg, s, calls[0]);
      if key in t.files {
        RunGrows(cfg, t, calls[1..]);
      } else {
        FilesComeFromOpens(cfg, t, calls[1..], key);
      }
    }
  }

  // ----- what reading returns -----------------------------------------------

  /** For every content of this size, reading n bytes at `position` gives the slice there. */
  ghost predicate ReadsSlice(size: nat, position: uint32, n: nat)
    requires position + n <= size
  {
    forall data: seq<byte> :: |data| == size ==> BytesFrom(data, position, n) == data[position..position + n]
  }

  lemma BytesFromIsSlice(data: seq<byte>, position: uint32, n: nat)
    requires position + n <= |data| && position + n <= TWO32
    ensures BytesFrom(data, position, n) == data[position..position + n]
  {
  }

  /** Contents that differ only before 4 GiB and at it. */
  function Marked(size: nat): seq<byte> {
    seq(size, k => if k == 0 then 1 else 0)
  }

  lemma ReadsSliceIff(size: nat, position: uint32, n: nat)
    requires position + n <= size
    ensures ReadsSlice(size, position, n) <==> position + n <= TWO32
  {
    if position + n <= TWO32 {
      forall data: seq<byte> | |data| == size ensures BytesFrom(data, position, n) == data[position..position + n] {
        BytesFromIsSlice(data, position, n);
      }
    } else {
      var i := TWO32 - position;
      assert BytesFrom(Marked(size), position, n)[i] == Marked(size)[0] == 1;
      assert Marked(size)[position..position + n][i] == Marked(size)[TWO32] == 0;
    }
  }

  /** A read returns as many bytes as were asked for and lie ahead exactly while less than 4 GiB do, or when no more
      than the wrapped distance are wanted; and they are those from the cursor on, whatever the file holds, exactly
      when they end at most at 4 GiB. */
  lemma ReadIsExactIff(cfg: Config, s: Store, handle: uint32, want: uint32)
    requires Valid(cfg, s) && handle in s.handles
    ensures var h := s.handles[handle];
      var ahead := |Data(s, h)| - h.position;
      var n := |Read(cfg, s, handle, want).1|;
      && n <= ahead
      && Read(cfg, s, handle, want).1 == BytesFrom(Data(s, h), h.position, n)
      && (n == (if want < ahead then want else ahead) <==> ahead < TWO32 || want <= ahead % TWO32)
      && (ReadsSlice(|Data(s, h)|, h.position, n) <==> h.position + n <= TWO32)
  {
    hide BytesFrom, ReadsSlice;
    var h := s.handles[handle];
    RemainingIsDistance(|Data(s, h)|, h.position);
    ReadsSliceIff(|Data(s, h)|, h.position, |Read(cfg, s, handle, want).1|);
  }

  /** Whatever was last written to a user file is what any handle on it reads there, the 32-bit index included. */
  lemma ReadReturnsLastWrites(cfg: Config, s: Store, calls: seq<Call>, handle: uint32, want: uint32, i: nat)
    requires Valid(cfg, s)
    requires var t := Run(cfg, s, calls);
      && handle in t.handles && t.handles[handle].target.User?
      && i < |Read(cfg, t, handle, want).1|
    ensures var t := Run(cfg, s, calls);
      var h := t.handles[handle];
      Read(cfg, t, handle, want).1[i] == ExpectedByte(cfg, s, calls, h.name, (h.position + i) % TWO32)
  {
    hide ExpectedByte, Run, Read, ReadsSlice;
    var t := Run(cfg, s, calls);
    ReadIsExactIff(cfg, t, handle, want);
    FileHoldsLastWrites(cfg, s, calls, t.handles[handle].name, (t.handles[handle].position + i) % TWO32);
  }

  /** While a file is under 4 GiB, reading twice is reading once: the same bytes, and the same cursor after. */
  lemma ReadsContinue(cfg: Config, s: Store, handle: uint32, first: uint32, second: uint32)
    requires Valid(cfg, s) && handle in s.handles && |Data(s, s.handles[handle])| < TWO32
    requires first + second < TWO32
    ensures var (t, a) := Read(cfg, s, handle, first);
      Valid(cfg, t) &&
      var (u, b) := Read(cfg, t, handle, second);
      Read(cfg, s, handle, first + second) == (u, a + b)
  {
    hide Read, Valid;
    CursorInside(cfg, s, handle);
    ReadKeepsValid(cfg, s, handle, first);
    ShortRead(cfg, s, handle, first);
    ShortRead(cfg, s, handle, first + second);
    var (t, a) := Read(cfg, s, handle, first);
    ShortRead(cfg, t, handle, second);
    var data, at := Data(s, s.handles[handle]), s.handles[handle].position;
    var n, m := |a|, |Read(cfg, t, handle, second).1|;
    AdjacentSlices(data, at, at + n, at + n + m);
    assert t.handles[handle := t.handles[handle].(position := at + n + m)]
        == s.handles[handle := s.handles[handle].(position := at + n + m)];
  }

  lemma AdjacentSlices(data: seq<byte>, from: nat, mid: nat, to: nat)
    requires from <= mid <= to <= |data|
    ensures data[from..mid] + data[mid..to] == data[from..to]
  {
  }

  lemma ShortRead(cfg: Config, s: Store, handle: uint32, want: uint32)
    requires Valid(cfg, s) && handle in s.handles && |Data(s, s.handles[handle])| < TWO32
    ensures var h := s.handles[handle];
      var ahead := |Data(s, h)| - h.position;
      var n := if want < ahead then want else ahead;
      Read(cfg, s, handle, want)
      == (s.(handles := s.handles[handle := h.(position := h.position + n)]), Data(s, h)[h.position..h.position + n])
  {
    hide BytesFrom, ReadsSlice;
    ReadIsExactIff(cfg, s, handle, want);
    BytesFromIsSlice(Data(s, s.handles[handle]), s.handles[handle].position, |Read(cfg, s, handle, want).1|);
  }

  /** Bytes written through one handle are read back through any handle on the same file that seeks to where
      they were written. */
  lemma WriteThenReadBack(cfg: Config, s: Store, writer: uint32, src: uint32, bytes: GuestBytes, reader: uint32)
    requires Valid(cfg, s) && WriteAccepted(s, writer, src, |bytes|)
    requires reader in s.handles && s.handles[reader].target.User? && s.handles[reader].name == s.handles[writer].name
    requires |s.files[s.handles[writer].name]| < TWO32
    ensures var at := s.handles[writer].position;
      var (t, written) := Write(cfg, s, writer, src, bytes);
      && written == |bytes| && Valid(cfg, t)
      && var (u, sought) := Seek(cfg, t, reader, 0, at);
      && sought == 0 && Valid(cfg, u)
      && Read(cfg, u, reader, |bytes|).1 == bytes
  {
    hide Write, Seek, Read, Valid;
    var at := s.handles[writer].position;
    WriteLands(cfg, s, writer, src, bytes, reader);
    SeekThenRead(cfg, Write(cfg, s, writer, src, bytes).0, reader, at, |bytes|);
  }

  lemma WriteLands(cfg: Config, s: Store, writer: uint32, src: uint32, bytes: GuestBytes, reader: uint32)
    requires Valid(cfg, s) && WriteAccepted(s, writer, src, |bytes|)
    requires reader in s.handles && s.handles[reader].target.User? && s.handles[reader].name == s.handles[writer].name
    requires |s.files[s.handles[writer].name]| < TWO32
    ensures var at, name := s.handles[writer].position, s.handles[writer].name;
      var (t, written) := Write(cfg, s, writer, src, bytes);
      && written == |bytes| && Valid(cfg, t)
      && reader in t.handles && t.handles[reader].target.User? && t.handles[reader].name == name
      && name in t.files && at + |bytes| <= |t.files[name]| < TWO32 && t.files[name][at..at + |bytes|] == bytes
  {
    hide Valid, Overwritten;
    CursorInside(cfg, s, writer);
    WriteKeepsValid(cfg, s, writer, src, bytes);
    var h := s.handles[writer];
    WrittenInside(Resized(s.files[h.name], h.position + |bytes|), h.position, bytes);
  }

  lemma SeekThenRead(cfg: Config, t: Store, reader: uint32, at: nat, n: uint32)
    requires Valid(cfg, t) && reader in t.handles && t.handles[reader].target.User?
    requires at + n <= |Data(t, t.handles[reader])| < TWO32 && at <= MAX_FILE_BYTES
    ensures var (u, sought) := Seek(cfg, t, reader, 0, at);
      sought == 0 && Valid(cfg, u) && Read(cfg, u, reader, n).1 == Data(t, t.handles[reader])[at..at + n]
  {
    hide Read, Valid;
    SeekKeepsValid(cfg, t, reader, 0, at);
    ShortRead(cfg, Seek(cfg, t, reader, 0, at).0, reader, n);
  }

  lemma WrittenInside(data: seq<byte>, at: nat, bytes: seq<byte>)
    requires at + |bytes| <= |data|
    ensures |Overwritten(data, at, bytes)| == |data|
    ensures Overwritten(data, at, bytes)[at..at + |bytes|] == bytes
  {
  }

  /** Until it is released, a handle stays on the asset or user file it was opened on: an asset handle
      reads the asset's own bytes even after the file has been copied for writing. */
  lemma {:induction false} HandleKeepsItsTarget(cfg: Config, s: Store, calls: seq<Call>, handle: uint32)
    requires Valid(cfg, s) && handle in s.handles
    requires forall i :: 0 <= i < |calls| ==> calls[i] != ReleaseCall(handle)
    ensures var t := Run(cfg, s, calls);
      && handle in t.handles
      && t.handles[handle].target == s.handles[handle].target && t.handles[handle].name == s.handles[handle].name
    decreases |calls|
  {
    hide Step;
    if calls != [] {
      StepKeepsValid(cfg, s, calls[0]);
      StepKeepsTarget(cfg, s, calls[0], handle);
      HandleKeepsItsTarget(cfg, Step(cfg, s, calls[0]), calls[1..], handle);
    }
  }

  lemma StepKeepsTarget(cfg: Config, s: Store, c: Call, handle: uint32)
    requires Valid(cfg, s) && handle in s.handles && c != ReleaseCall(handle)
    ensures var t := Step(cfg, s, c);
      && handle in t.handles
      && t.handles[handle].target == s.handles[handle].target && t.handles[handle].name == s.handles[handle].name
  {
    hide Open;
    if c.OpenCall? {
      OpenKeepsHandles(cfg, s, c.name, c.mode, handle);
    }
  }

  lemma OpenKeepsHandles(cfg: Config, s: Store, name: string, mode: uint32, handle: uint32)
    requires Valid(cfg, s) && handle in s.handles
    ensures var t := Open(cfg, s, name, mode).0;
      handle in t.handles && t.handles[handle] == s.handles[handle]
  {
    hide Normalize, DirExists;
  }

  // ----- seeking ------------------------------------------------------------

  /** After a seek that succeeds, telling the position gives the goal exactly when the goal fits in 32 bits,
      and a user file has been extended to reach it. */
  lemma SeekThenTellIff(cfg: Config, s: Store, handle: uint32, kind: uint32, distance: int32)
    requires Valid(cfg, s) && handle in s.handles && !(kind == 2 && distance == 0)
    requires Seek(cfg, s, handle, kind, distance).1 == 0
    ensures var h := s.handles[handle];
      var goal := SeekBase(kind, h, |Data(s, h)|) + distance;
      var t := Seek(cfg, s, handle, kind, distance).0;
      && Valid(cfg, t) && goal >= 0
      && (Seek(cfg, t, handle, 2, 0).1 == goal <==> goal < TWO32)
      && Seek(cfg, t, handle, 2, 0).0 == t
      && |Data(t, t.handles[handle])| == if goal <= |Data(s, h)| then |Data(s, h)| else goal
  {
    SeekKeepsValid(cfg, s, handle, kind, distance);
  }

  // ----- a read past 4 GiB ----------------------------------------------------

  /** The handle stands at `position` of a user file that holds a 1 followed by zeros. */
  ghost predicate StandsAt(cfg: Config, s: Store, handle: uint32, size: nat, position: uint32) {
    && Valid(cfg, s) && handle in s.handles && s.handles[handle].target.User?
    && s.handles[handle].position == position && s.files[s.handles[handle].name] == Marked(size)
  }

  function Goal(size: nat, position: nat, seek: (uint32, int32)): int {
    (if seek.0 == 0 then 0 else if seek.0 == 1 then size else position) + seek.1
  }

  lemma SeekStands(cfg: Config, s: Store, handle: uint32, size: nat, position: uint32, seek: (uint32, int32))
    requires StandsAt(cfg, s, handle, size, position) && size > 0
    requires !(seek.0 == 2 && seek.1 == 0) && Goal(size, position, seek) >= 0
    ensures var goal := Goal(size, position, seek);
      StandsAt(cfg, Step(cfg, s, SeekCall(handle, seek.0, seek.1)), handle, if goal > size then goal else size,
               goal % TWO32)
  {
    SeekKeepsValid(cfg, s, handle, seek.0, seek.1);
    var goal := Goal(size, position, seek);
    assert Resized(Marked(size), goal) == Marked(if goal > size then goal else size);
  }

  function SeekCalls(handle: uint32, seeks: seq<(uint32, int32)>): seq<Call> {
    seq(|seeks|, i requires 0 <= i < |seeks| => SeekCall(handle, seeks[i].0, seeks[i].1))
  }

  /** Size and position after the seeks, none of them a tell or before the start. */
  ghost predicate Walks(size: nat, position: uint32, seeks: seq<(uint32, int32)>, size': nat, position': uint32)
    decreases |seeks|
  {
    if seeks == [] then size' == size && position' == position
    else
      var goal := Goal(size, position, seeks[0]);
      && !(seeks[0].0 == 2 && seeks[0].1 == 0) && goal >= 0
      && Walks(if goal > size then goal else size, goal % TWO32, seeks[1..], size', position')
  }

  lemma {:induction false} SeeksStand(cfg: Config, s: Store, handle: uint32, size: nat, position: uint32,
                                      seeks: seq<(uint32, int32)>, size': nat, position': uint32)
    requires StandsAt(cfg, s, handle, size, position) && size > 0 && Walks(size, position, seeks, size', position')
    ensures StandsAt(cfg, Run(cfg, s, SeekCalls(handle, seeks)), handle, size', position')
    decreases |seeks|
  {
    hide Step, StandsAt;
    if seeks != [] {
      var calls, goal := SeekCalls(handle, seeks), Goal(size, position, seeks[0]);
      assert Valid(cfg, s) by {
        StandingIsValid(cfg, s, handle, size, position);
      }
      SeekStands(cfg, s, handle, size, position, seeks[0]);
      assert calls[1..] == SeekCalls(handle, seeks[1..]);
      SeeksStand(cfg, Step(cfg, s, calls[0]), handle, if goal > size then goal else size, goal % TWO32, seeks[1..],
                 size', position');
    }
  }

  lemma StandingIsValid(cfg: Config, s: Store, handle: uint32, size: nat, position: uint32)
    requires StandsAt(cfg, s, handle, size, position)
    ensures Valid(cfg, s)
  {
  }

  const PAST_4_GIB: seq<(uint32, int32)> := [
    (1, 0x7fff_ffff), (1, 0x7fff_ffff), (1, 100), (0, 0x7fff_ffff), (2, 0x7fff_ffff), (2, 1)]

  lemma PastFourGiBWalks()
    ensures Walks(1, 1, PAST_4_GIB, TWO32 + 99, TWO32 - 1)
  {
    var s: seq<(uint32, int32)> := PAST_4_GIB;
    assert s[1..][1..] == s[2..] && s[2..][1..] == s[3..] && s[3..][1..] == s[4..] && s[4..][1..] == s[5..];
    assert |s[5..][1..]| == 0;
    assert Walks(TWO32 + 99, TWO32 - 2, s[5..], TWO32 + 99, TWO32 - 1);
    assert Walks(TWO32 + 99, 0x7fff_ffff, s[4..], TWO32 + 99, TWO32 - 1);
    assert Walks(TWO32 + 99, 99, s[3..], TWO32 + 99, TWO32 - 1);
    assert Walks(0xffff_ffff, 0xffff_ffff, s[2..], TWO32 + 99, TWO32 - 1);
    assert Walks(0x8000_0000, 0x8000_0000, s[1..], TWO32 + 99, TWO32 - 1);
  }

  /** A file of one byte, 1, stretched past 4 GiB by seeking: with a hundred bytes ahead, reading two at the last
      position below 4 GiB returns the second from the start of the file, not the zero that lies there. */
  lemma ReadWrapsPastFourGiB(cfg: Config, s: Store, handle: uint32)
    requires StandsAt(cfg, s, handle, 1, 1)
    ensures var t := Run(cfg, s, SeekCalls(handle, PAST_4_GIB));
      && handle in t.handles && t.handles[handle].target.User?
      && var data, h := Data(t, t.handles[handle]), t.handles[handle];
      && |data| - h.position == 100 && data[h.position..h.position + 2] == [0, 0]
      && Read(cfg, t, handle, 2).1 == [0, 1]
  {
    hide Run, Walks;
    PastFourGiBWalks();
    SeeksStand(cfg, s, handle, 1, 1, PAST_4_GIB, TWO32 + 99, TWO32 - 1);
    var t := Run(cfg, s, SeekCalls(handle, PAST_4_GIB));
    ReadIsExactIff(cfg, t, handle, 2);
  }

  /** Creating a file and writing the byte 1 leads there, where the region has room for one handle. */
  lemma CreateAndWriteStands(cfg: Config, src: uint32)
    requires Valid(cfg, EmptyStore(cfg)) && !RegionFull(cfg, cfg.regionStart) && cfg.find("f").None? && src != 0
    ensures var (s, handle) := Open(cfg, EmptyStore(cfg), "f", CREATE);
      && handle == cfg.regionStart && Valid(cfg, s)
      && StandsAt(cfg, Step(cfg, s, WriteCall(handle, src, [1])), handle, 1, 1)
  {
    var empty := EmptyStore(cfg);
    OpenKeepsValid(cfg, empty, "f", CREATE);
    CreateTakesObject(cfg, empty, "f");
    var (s, handle) := Open(cfg, empty, "f", CREATE);
    WriteKeepsValid(cfg, s, handle, src, [1]);
    assert Overwritten(Resized([], 1), 0, [1]) == [1] == Marked(1);
  }

  // ----- the region handles come from ---------------------------------------

  /** An open that takes a file object returns the bump pointer and moves it on. */
  lemma OpenTakesNext(cfg: Config, s: Store, name: string, mode: uint32)
    requires Valid(cfg, s)
    ensures var (t, handle) := Open(cfg, s, name, mode);
      && s.next <= t.next && (handle == 0 <==> t.next == s.next)
      && (handle != 0 ==> handle == s.next && t.next == s.next + 4)
  {
    hide Normalize, DirExists;
    if !RegionFull(cfg, s.next) {
      RoomForOne(cfg, s.next);
    }
  }

  lemma StepKeepsNext(cfg: Config, s: Store, c: Call)
    requires Valid(cfg, s)
    ensures s.next <= Step(cfg, s, c).next
  {
    hide Open;
    if c.OpenCall? {
      OpenTakesNext(cfg, s, c.name, c.mode);
    }
  }

  lemma {:induction false} RunKeepsNext(cfg: Config, s: Store, calls: seq<Call>)
    requires Valid(cfg, s)
    ensures s.next <= Run(cfg, s, calls).next
    decreases |calls|
  {
    hide Step;
    if calls != [] {
      StepKeepsNext(cfg, s, calls[0]);
      StepKeepsValid(cfg, s, calls[0]);
      RunKeepsNext(cfg, Step(cfg, s, calls[0]), calls[1..]);
    }
  }

  /** However long the run, and whatever it releases, a handle returned once is never returned again. */
  lemma HandlesAreNeverReused(cfg: Config, s: Store, first: string, mode: uint32, calls: seq<Call>,
                              second: string, mode': uint32)
    requires Valid(cfg, s) && Open(cfg, s, first, mode).1 != 0
    ensures var (t, handle) := Open(cfg, s, first, mode);
      Valid(cfg, t) && Open(cfg, Run(cfg, t, calls), second, mode').1 != handle
  {
    hide Open, Valid;
    var t := Open(cfg, s, first, mode).0;
    OpenKeepsValid(cfg, s, first, mode);
    OpenTakesNext(cfg, s, first, mode);
    RunKeepsNext(cfg, t, calls);
    OpenTakesNext(cfg, Run(cfg, t, calls), second, mode');
  }

  /** The store after opening these names in these modes, one after the other. */
  function OpenAll(cfg: Config, opens: seq<(string, uint32)>): Store {
    if opens == [] then EmptyStore(cfg)
    else
      var last := opens[|opens| - 1];
      Open(cfg, OpenAll(cfg, opens[..|opens| - 1]), last.0, last.1).0
  }

  /** If the open takes a file object, it returns a handle that is not 0, the failure, and not in use. */
  predicate OpensSoundly(cfg: Config, s: Store, name: string, mode: uint32) {
    var (t, handle) := Open(cfg, s, name, mode);
    t.next != s.next ==> handle != 0 && handle !in s.handles
  }

  lemma {:induction false} OpenAllIsValid(cfg: Config, opens: seq<(string, uint32)>)
    requires Valid(cfg, EmptyStore(cfg))
    ensures Valid(cfg, OpenAll(cfg, opens))
    decreases |opens|
  {
    hide Open, Valid;
    if opens != [] {
      var before, last := opens[..|opens| - 1], opens[|opens| - 1];
      OpenAllIsValid(cfg, before);
      OpenKeepsValid(cfg, OpenAll(cfg, before), last.0, last.1);
    }
  }

  const CREATE: uint32 := 4

  lemma CreateTakesObject(cfg: Config, s: Store, name: string)
    requires !RegionFull(cfg, s.next)
    ensures var (t, handle) := Open(cfg, s, name, CREATE);
      handle == s.next && t.next == (s.next + 4) % TWO32
  {
    hide Normalize, DirExists, RegionFull;
  }

  function Creations(n: nat): seq<(string, uint32)> {
    seq(n, _ => ("f", CREATE))
  }

  lemma {:induction false} CreationsWalk(cfg: Config, n: nat)
    requires cfg.regionStart == 0xffff_0000 && n <= 0x4000
    ensures OpenAll(cfg, Creations(n)).next == (0xffff_0000 + 4 * n) % TWO32
  {
    hide Open;
    if n > 0 {
      CreationsWalk(cfg, n - 1);
      assert Creations(n)[..n - 1] == Creations(n - 1);
      CreateTakesObject(cfg, OpenAll(cfg, Creations(n - 1)), "f");
    }
  }

  ghost predicate EveryOpenIsSound(cfg: Config) {
    forall opens, name, mode :: OpensSoundly(cfg, OpenAll(cfg, opens), name, mode)
  }

  /** Taking the file object at 0 returns 0, which reads as a failed open. */
  lemma ZeroIsUnsound(cfg: Config, opens: seq<(string, uint32)>)
    requires OpenAll(cfg, opens).next == 0 && !RegionFull(cfg, 0)
    ensures Open(cfg, OpenAll(cfg, opens), "f", CREATE).1 == 0
    ensures !EveryOpenIsSound(cfg)
  {
    hide Open;
    CreateTakesObject(cfg, OpenAll(cfg, opens), "f");
    assert !OpensSoundly(cfg, OpenAll(cfg, opens), "f", CREATE);
  }

  /** Every run of opens takes only sound handles exactly when the region neither starts at 0, where the first
      handle is 0, nor at 0xffff0000, where its end wraps and the handle after 0x4000 opens is 0. */
  lemma RegionIsSoundIff(cfg: Config)
    ensures EveryOpenIsSound(cfg) <==> cfg.regionStart != 0 && cfg.regionStart != 0xffff_0000
  {
    hide Open, EveryOpenIsSound;
    if cfg.regionStart == 0 {
      ZeroIsUnsound(cfg, []);
    } else if cfg.regionStart == 0xffff_0000 {
      CreationsWalk(cfg, 0x4000);
      ZeroIsUnsound(cfg, Creations(0x4000));
    } else {
      OtherRegionsAreSound(cfg);
    }
  }

  lemma OtherRegionsAreSound(cfg: Config)
    requires cfg.regionStart != 0 && cfg.regionStart != 0xffff_0000
    ensures EveryOpenIsSound(cfg)
  {
    hide Open;
    forall opens, name, mode ensures OpensSoundly(cfg, OpenAll(cfg, opens), name, mode) {
      OpenAllIsValid(cfg, opens);
      OpenTakesNext(cfg, OpenAll(cfg, opens), name, mode);
    }
  }
}
