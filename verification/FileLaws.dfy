/** What single calls on the file manager do, to what they name and to everything else. */
module FileLaws {
  import opened HostTypes
  import opened IntegerLaws
  import opened WritablePath
  import opened FileStore
  import opened FileHistory

  // ----- writing ------------------------------------------------------------

  /** A write is accepted exactly on a user file, from a source that is not null unless nothing is written, ending
      within 64 MiB of the file and 4 GiB of memory; otherwise it fails and changes nothing. */
  lemma WriteAcceptedIff(cfg: Config, s: Store, handle: uint32, src: uint32, bytes: GuestBytes)
    requires Valid(cfg, s)
    ensures var (t, result) := Write(cfg, s, handle, src, bytes);
      if handle in s.handles && s.handles[handle].target.User? && (src == 0 ==> bytes == [])
         && s.handles[handle].position + |bytes| <= 64 * 1024 * 1024 && src + |bytes| <= TWO32
      then result == |bytes|
      else result == 0xffff_ffff && t == s
  {
    hide Overwritten, Resized;
  }

  /** Byte i of a file after `bytes` were written at `at`. */
  function Mixed(data: seq<byte>, at: nat, bytes: seq<byte>, i: nat): byte {
    if at <= i < at + |bytes| then bytes[i - at] else if i < |data| then data[i] else 0
  }

  /** An accepted write puts the bytes at the cursor, fills what lies between with zeros, leaves the rest of the file,
      and moves the cursor past them; every other handle and every other file is left alone. */
  lemma WriteMovesOnly(cfg: Config, s: Store, handle: uint32, src: uint32, bytes: GuestBytes)
    requires Valid(cfg, s) && WriteAccepted(s, handle, src, |bytes|)
    ensures var t := Write(cfg, s, handle, src, bytes).0;
      var h := s.handles[handle];
      var was, end := s.files[h.name], h.position + |bytes|;
      && t.handles == s.handles[handle := h.(position := end)]
      && t.files.Keys == s.files.Keys && (forall k :: k in s.files && k != h.name ==> t.files[k] == s.files[k])
      && |t.files[h.name]| == (if end <= |was| then |was| else end)
      && (forall i :: 0 <= i < |t.files[h.name]| ==> t.files[h.name][i] == Mixed(was, h.position, bytes, i))
      && t.dirs == s.dirs && t.next == s.next && t.last == s.last
  {
    OverwrittenAt(s.files[s.handles[handle].name], s.handles[handle].position, bytes);
  }

  lemma OverwrittenAt(data: seq<byte>, at: nat, bytes: seq<byte>)
    requires at <= |data|
    ensures var r := Overwritten(Resized(data, at + |bytes|), at, bytes);
      && |r| == (if at + |bytes| <= |data| then |data| else at + |bytes|)
      && forall i :: 0 <= i < |r| ==> r[i] == Mixed(data, at, bytes, i)
  {
  }

  /** Writing a and then b through one handle gives the files and the cursor of writing both at once. */
  lemma WritesContinue(cfg: Config, s: Store, handle: uint32, src: uint32, a: GuestBytes, src': uint32, b: GuestBytes)
    requires Valid(cfg, s) && |a| + |b| < TWO32 && WriteAccepted(s, handle, src, |a| + |b|)
    requires (src' == 0 ==> b == []) && src' + |b| <= TWO32
    ensures var (t, n) := Write(cfg, s, handle, src, a);
      && n == |a| && Valid(cfg, t)
      && var (u, m) := Write(cfg, t, handle, src', b);
         m == |b| && (u, |a| + |b|) == Write(cfg, s, handle, src, a + b)
  {
    hide Valid, Overwritten, Resized;
    CursorInside(cfg, s, handle);
    WriteKeepsValid(cfg, s, handle, src, a);
    var h := s.handles[handle];
    OverwrittenTwice(s.files[h.name], h.position, a, b);
    var t := Write(cfg, s, handle, src, a).0;
    var u, v := Write(cfg, t, handle, src', b).0, Write(cfg, s, handle, src, a + b).0;
    assert u.files == v.files;
    assert u.handles == v.handles;
  }

  lemma OverwrittenTwice(data: seq<byte>, at: nat, a: seq<byte>, b: seq<byte>)
    requires at <= |data|
    ensures var once := Overwritten(Resized(data, at + |a|), at, a);
      && at + |a| <= |once|
      && Overwritten(Resized(once, at + |a| + |b|), at + |a|, b)
         == Overwritten(Resized(data, at + |a + b|), at, a + b)
  {
    hide Overwritten;
    OverwrittenAt(data, at, a);
    OverwrittenAt(data, at, a + b);
    var once := Overwritten(Resized(data, at + |a|), at, a);
    OverwrittenAt(once, at + |a|, b);
    var twice, both := Overwritten(Resized(once, at + |a| + |b|), at + |a|, b),
                       Overwritten(Resized(data, at + |a + b|), at, a + b);
    assert |twice| == |both|;
    forall i | 0 <= i < |twice| ensures twice[i] == both[i] {
      assert i < |once| ==> once[i] == Mixed(data, at, a, i);
    }
  }

  // ----- seeking ------------------------------------------------------------

  /** Seek type 0 counts from the start, 1 from the end, any other from the cursor.  A goal before the start fails, and
      so does one past the end of an asset; otherwise the cursor goes there, modulo 4 GiB, and a user file is filled
      with zeros up to it. */
  lemma SeekMovesOnly(cfg: Config, s: Store, handle: uint32, kind: uint32, distance: int32)
    requires Valid(cfg, s) && handle in s.handles && !(kind == 2 && distance == 0)
    ensures var (t, result) := Seek(cfg, s, handle, kind, distance);
      var h := s.handles[handle];
      var was := Data(s, h);
      var goal := (if kind == 0 then 0 else if kind == 1 then |was| else h.position) + distance;
      && (result == 0 <==> goal >= 0 && (h.target.User? || goal <= |was|))
      && (result != 0 ==> result == 1 && t == s)
      && (result == 0 ==>
            && t.handles == s.handles[handle := h.(position := goal % TWO32)]
            && t.files.Keys == s.files.Keys
            && (forall k :: k in s.files && !(h.target.User? && k == h.name) ==> t.files[k] == s.files[k])
            && (h.target.User? ==>
                  && |t.files[h.name]| == (if goal <= |was| then |was| else goal)
                  && forall i :: 0 <= i < |t.files[h.name]| ==> t.files[h.name][i] == if i < |was| then was[i] else 0))
      && t.dirs == s.dirs && t.next == s.next && t.last == s.last
  {
  }

  /** Type 2 and distance 0 tells the position; a handle that is not open is refused. */
  lemma TellAndRefuse(cfg: Config, s: Store, handle: uint32, kind: uint32, distance: int32)
    requires Valid(cfg, s)
    ensures handle in s.handles ==> Seek(cfg, s, handle, 2, 0) == (s, s.handles[handle].position)
    ensures handle !in s.handles ==> Seek(cfg, s, handle, kind, distance) == (s, 1)
  {
  }

  // ----- releasing ------------------------------------------------------------

  /** A released handle reads nothing, writes nothing and cannot be sought in; the others go on. */
  lemma ReleaseForgets(cfg: Config, s: Store, handle: uint32, n: uint32, src: uint32, bytes: GuestBytes, kind: uint32,
                       distance: int32)
    requires Valid(cfg, s)
    ensures var t := Release(s, handle);
      && Valid(cfg, t)
      && Read(cfg, t, handle, n) == (t, []) && Seek(cfg, t, handle, kind, distance) == (t, 1)
      && Write(cfg, t, handle, src, bytes) == (t, 0xffff_ffff)
      && (forall h :: h in t.handles <==> h in s.handles && h != handle)
      && (forall h :: h in t.handles ==> t.handles[h] == s.handles[h])
      && t.files == s.files && t.dirs == s.dirs && t.next == s.next
  {
    ReleaseKeepsValid(cfg, s, handle);
  }

  /** No call but its own ever moves a handle. */
  lemma OthersStand(cfg: Config, s: Store, c: Call, other: uint32)
    requires Valid(cfg, s) && other in s.handles
    requires match c
             case ReadCall(handle, _) => handle != other
             case WriteCall(handle, _, _) => handle != other
             case SeekCall(handle, _, _) => handle != other
             case ReleaseCall(handle) => handle != other
             case _ => true
    ensures var t := Step(cfg, s, c); other in t.handles && t.handles[other] == s.handles[other]
  {
    hide Open, BytesFrom, Overwritten, Resized;
    if c.OpenCall? {
      OpenKeepsHandles(cfg, s, c.name, c.mode, other);
    }
  }

  // ----- opening --------------------------------------------------------------

  /** Room is left for a handle as long as it ends within 64 KiB of the region's start, or within memory. */
  lemma RoomIff(cfg: Config, s: Store)
    requires Valid(cfg, s)
    ensures RegionFull(cfg, s.next)
            <==> s.next + 4 > if cfg.regionStart <= 0xffff_0000 then cfg.regionStart + 0x1_0000 else 0xffff_ffff
  {
  }

  /** The store after an open that takes a handle on `h`. */
  ghost predicate Opened(s: Store, h: Handle, t: Store, handle: uint32) {
    && handle == s.next != 0 && handle !in s.handles && t.handles == s.handles[handle := h]
    && t.next == s.next + 4 && t.last == handle && t.dirs == s.dirs
  }

  /** What an open does while there is room.  A user file of that name is opened; else an asset is copied to a new user
      file if bit 1 of the mode is set, and otherwise opened itself; else bit 2 makes an empty user file; else a name
      that ends in a separator opens a directory, if there is one; and anything else fails. */
  lemma OpenDecides(cfg: Config, s: Store, name: string, mode: uint32)
    requires Valid(cfg, s) && !RegionFull(cfg, s.next)
    ensures var (t, handle) := Open(cfg, s, name, mode);
      var key, asset := Normalize(name), cfg.find(name);
      if key in s.files then Opened(s, Handle(key, User, 0), t, handle) && t.files == s.files
      else if asset.Some? && mode % 4 >= 2 then
        Opened(s, Handle(key, User, 0), t, handle) && t.files == s.files[key := asset.value]
      else if asset.Some? then Opened(s, Handle(name, Asset(asset.value), 0), t, handle) && t.files == s.files
      else if mode % 8 >= 4 then Opened(s, Handle(key, User, 0), t, handle) && t.files == s.files[key := []]
      else if name != "" && name[|name| - 1] in {'/', '\\'} && DirExists(cfg, s, name) then
        Opened(s, Handle(name, Asset([]), 0), t, handle) && t.files == s.files
      else (t, handle) == (s, 0)
  {
    hide Normalize, DirExists;
    RoomForOne(cfg, s.next);
    ModeBits(mode);
  }

  lemma ModeBits(mode: uint32)
    ensures ReadWriteMode(mode) <==> mode % 4 >= 2
    ensures CreateMode(mode) <==> mode % 8 >= 4
  {
    HighBit(mode, 2);
    HighBit(mode, 4);
  }

  /** A remainder by twice d is d or more exactly when the quotient by d is odd. */
  lemma HighBit(x: nat, d: nat)
    requires d > 0
    ensures x / d % 2 == 1 <==> x % (2 * d) >= d
  {
    var q, r := x / (2 * d), x % (2 * d);
    assert x == q * (2 * d) + r;
    assert x == 2 * q * d + r;
    if r >= d {
      Remainder(2 * q + 1, r - d, d);
      assert x == (2 * q + 1) * d + (r - d);
    } else {
      Remainder(2 * q, r, d);
    }
  }

  /** An asset opened with bit 1 of the mode may be written at once, and its copy reads as the asset did; opened
      without, it refuses every write. */
  lemma AssetOpens(cfg: Config, s: Store, name: string, mode: uint32, src: uint32, bytes: GuestBytes)
    requires Valid(cfg, s) && !RegionFull(cfg, s.next) && cfg.find(name).Some? && Normalize(name) !in s.files
    ensures var (t, handle) := Open(cfg, s, name, mode);
      && Valid(cfg, t) && handle in t.handles && t.handles[handle].position == 0
      && Data(t, t.handles[handle]) == cfg.find(name).value
      && (mode % 4 >= 2 && src != 0 && |bytes| <= 64 * 1024 * 1024 && src + |bytes| <= TWO32 ==>
            Write(cfg, t, handle, src, bytes).1 == |bytes|)
      && (mode % 4 < 2 ==> Write(cfg, t, handle, src, bytes) == (t, 0xffff_ffff))
  {
    hide Open, Overwritten, Resized;
    OpenKeepsValid(cfg, s, name, mode);
    OpenDecides(cfg, s, name, mode);
  }

  predicate SameLetter(c: char, d: char) {
    c == d || (65 <= c as int <= 90 && d as int == c as int + 32) || (65 <= d as int <= 90 && c as int == d as int + 32)
  }

  predicate Below(name: string, folder: string) {
    |folder| <= |name| && forall i :: 0 <= i < |folder| ==> SameLetter(name[i], folder[i])
  }

  /** A directory is there exactly when it is found as an asset, was made, or has an asset or a user file below it, in
      whatever case; assets are also looked for below the spelling as given. */
  lemma DirExistsIff(cfg: Config, s: Store, name: string)
    requires name != "" && name[|name| - 1] in {'/', '\\'}
    ensures EndsWithSeparator(name)
    ensures var folder, given := Normalize(name) + "/", name[..|name| - 1] + "/";
      DirExists(cfg, s, name) <==>
        || cfg.find(name).Some? || Normalize(name) in s.dirs
        || (exists n :: n in cfg.names && (Below(n, given) || Below(n, folder)))
        || (exists n :: n in s.files && Below(n, folder))
  {
    hide Normalize;
    forall n, folder ensures StartsWithIgnoringCase(n, folder) <==> Below(n, folder) {
      BelowIsPrefix(n, folder);
    }
  }

  lemma BelowIsPrefix(n: string, folder: string)
    ensures StartsWithIgnoringCase(n, folder) <==> Below(n, folder)
  {
    forall c: char, d: char ensures LowerChar(c) == LowerChar(d) <==> SameLetter(c, d) {
    }
  }

  // ----- names ------------------------------------------------------------------

  ghost predicate NamesCanonical(s: Store) {
    forall k :: k in s.files || k in s.dirs ==> Normalize(k) == k
  }

  lemma StepKeepsNames(cfg: Config, s: Store, c: Call)
    requires Valid(cfg, s) && NamesCanonical(s)
    ensures NamesCanonical(Step(cfg, s, c))
  {
    hide Normalize, Open;
    match c {
      case OpenCall(name, mode) =>
        OpenGrows(cfg, s, name, mode);
        NormalizeIdempotent(name);
        OpenKeepsDirs(cfg, s, name, mode);
      case MkDirCall(name) => NormalizeIdempotent(name);
      case _ =>
    }
  }

  lemma OpenKeepsDirs(cfg: Config, s: Store, name: string, mode: uint32)
    ensures Open(cfg, s, name, mode).0.dirs == s.dirs
  {
    hide Normalize, DirExists;
  }

  /** Every run from an empty store leaves canonical names only. */
  lemma {:induction false} RunKeepsNames(cfg: Config, s: Store, calls: seq<Call>)
    requires Valid(cfg, s) && NamesCanonical(s)
    ensures NamesCanonical(Run(cfg, s, calls))
    decreases |calls|
  {
    hide Step, NamesCanonical;
    if calls != [] {
      StepKeepsNames(cfg, s, calls[0]);
      StepKeepsValid(cfg, s, calls[0]);
      RunKeepsNames(cfg, Step(cfg, s, calls[0]), calls[1..]);
    }
  }

  /** So after any run a name tests as present exactly when it is found as an asset, or leads to where some user file
      or some directory made stands. */
  lemma TestIff(cfg: Config, calls: seq<Call>, name: string)
    requires Valid(cfg, EmptyStore(cfg))
    ensures var t := Run(cfg, EmptyStore(cfg), calls);
      Test(cfg, t, name) <==>
        || cfg.find(name).Some?
        || exists k :: (k in t.files || k in t.dirs) && Components(k) == Components(name)
  {
    hide Run, Normalize;
    RunKeepsNames(cfg, EmptyStore(cfg), calls);
    var t := Run(cfg, EmptyStore(cfg), calls);
    NormalizeKeepsComponents(name);
    forall k | k in t.files || k in t.dirs ensures k == Normalize(name) <==> Components(k) == Components(name) {
      SameNameIff(k, name);
    }
  }

  /** A directory is made unless the name leads nowhere below the root or is an asset's. */
  lemma MkDirIff(cfg: Config, s: Store, spelling: string)
    ensures var (t, result) := MkDir(cfg, s, spelling);
      && (result == 0 <==> Components(spelling) != [] && cfg.find(Normalize(spelling)).None?)
      && (result == 0 ==> t.dirs == s.dirs + {Normalize(spelling)})
      && (result != 0 ==> result == 1 && t == s)
      && t.files == s.files && t.handles == s.handles && t.next == s.next
  {
    ComponentsAreClean(spelling);
    JoinOneMore(Components(spelling), "");
  }
}
