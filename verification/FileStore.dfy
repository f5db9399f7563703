/** The file manager as a machine over values: asset files are fixed, user files are named
    buffers shared by every handle opened on the same canonical name. */
module FileStore {
  import opened HostTypes
  import opened IntegerLaws
  import opened WritablePath

  /** Lookup in the immutable asset store, its registered names, and where handles are allocated from. */
  datatype Config = Config(find: string -> Option<seq<byte>>, names: seq<string>, regionStart: uint32)

  datatype Target = Asset(bytes: seq<byte>) | User

  /** A user handle's `name` is the key of its file. */
  datatype Handle = Handle(name: string, target: Target, position: uint32)

  datatype Store = Store(
    files: map<string, seq<byte>>, dirs: set<string>,
    handles: map<uint32, Handle>, next: uint32, last: uint32, dirty: bool)

  const FAILED: uint32 := 0xffff_ffff
  const MAX_FILE_BYTES := 64 * 1024 * 1024

  function EmptyStore(cfg: Config): Store {
    Store(map[], {}, map[], cfg.regionStart, 0, false)
  }

  // ----- allocating handles -----------------------------------------------

  function RegionEnd(start: uint32): uint32 {
    if start <= 0xffff_0000 then (start + 0x1_0000) % TWO32 else 0xffff_ffff
  }

  predicate RegionFull(cfg: Config, next: uint32) {
    next > (RegionEnd(cfg.regionStart) + TWO32 - 4) % TWO32
  }

  function Allocate(cfg: Config, s: Store, name: string, target: Target): (Store, uint32) {
    if RegionFull(cfg, s.next) then (s, 0)
    else (s.(next := (s.next + 4) % TWO32, handles := s.handles[s.next := Handle(name, target, 0)]), s.next)
  }

  // ----- opening ----------------------------------------------------------

  predicate ReadWriteMode(mode: uint32) {
    mode / 2 % 2 == 1
  }

  predicate CreateMode(mode: uint32) {
    mode / 4 % 2 == 1
  }

  predicate StartsWithIgnoringCase(s: string, prefix: string) {
    |prefix| <= |s| && forall i :: 0 <= i < |prefix| ==> LowerChar(s[i]) == LowerChar(prefix[i])
  }

  predicate EndsWithSeparator(name: string) {
    name != "" && (name[|name| - 1] == '/' || name[|name| - 1] == '\\')
  }

  function DirPrefix(name: string): string
    requires EndsWithSeparator(name)
  {
    name[..|name| - 1] + "/"
  }

  predicate AssetUnder(cfg: Config, prefix: string, folder: string) {
    exists n :: n in cfg.names && (StartsWithIgnoringCase(n, prefix) || StartsWithIgnoringCase(n, folder))
  }

  predicate UserFileUnder(s: Store, folder: string) {
    exists n :: n in s.files && StartsWithIgnoringCase(n, folder)
  }

  predicate DirExists(cfg: Config, s: Store, name: string)
    requires EndsWithSeparator(name)
  {
    || cfg.find(name).Some? || Normalize(name) in s.dirs
    || AssetUnder(cfg, DirPrefix(name), Normalize(name) + "/")
    || UserFileUnder(s, Normalize(name) + "/")
  }

  function OpenAllocated(cfg: Config, s: Store, name: string, mode: uint32): (Store, uint32) {
    var key := Normalize(name);
    if key in s.files then Allocate(cfg, s, key, User)
    else if cfg.find(name).Some? then
      var data := cfg.find(name).value;
      if ReadWriteMode(mode) then Allocate(cfg, s.(files := s.files[key := data]), key, User)
      else Allocate(cfg, s, name, Asset(data))
    else if CreateMode(mode) then Allocate(cfg, s.(files := s.files[key := []]), key, User)
    else if EndsWithSeparator(name) && DirExists(cfg, s, name) then Allocate(cfg, s, name, Asset([]))
    else (s, 0)
  }

  function Open(cfg: Config, s: Store, name: string, mode: uint32): (Store, uint32) {
    var (t, handle) := OpenAllocated(cfg, s, name, mode);
    (if handle != 0 then t.(last := handle) else t, handle)
  }

  // ----- the invariant ----------------------------------------------------

  function Data(s: Store, h: Handle): seq<byte>
    requires h.target.User? ==> h.name in s.files
  {
    match h.target
    case Asset(bytes) => bytes
    case User => s.files[h.name]
  }

  /** Every handle is below the bump pointer, names an existing file, and stands inside it. */
  ghost predicate Valid(cfg: Config, s: Store) {
    && 0 < cfg.regionStart <= s.next <= RegionEnd(cfg.regionStart)
    && (forall h :: h in s.handles ==> cfg.regionStart <= h < s.next)
    && (forall h :: h in s.handles && s.handles[h].target.User? ==> s.handles[h].name in s.files)
    && (forall h :: h in s.handles ==> s.handles[h].position <= |Data(s, s.handles[h])|)
  }

  // ----- reading, writing, seeking ----------------------------------------

  /** What the 32-bit subtraction of the position from the size leaves. */
  function Remaining(size: nat, position: uint32): uint32 {
    (size % TWO32 - position) % TWO32
  }

  function ReadCount(size: nat, position: uint32, want: uint32): uint32 {
    if want < Remaining(size, position) then want else Remaining(size, position)
  }

  lemma RemainingIsDistance(size: nat, position: uint32)
    requires position <= size
    ensures Remaining(size, position) == (size - position) % TWO32 <= size - position
  {
    var q := size / TWO32;
    assert size - position == size % TWO32 - position + q * TWO32;
    ModOfMultiple(size % TWO32 - position, q, TWO32);
  }

  /** The n bytes read from `position` on: the index is a 32-bit sum, so past 4 GiB it goes on from the start. */
  function BytesFrom(data: seq<byte>, position: uint32, n: nat): (bytes: seq<byte>)
    requires position + n <= |data|
    ensures |bytes| == n
  {
    seq(n, i requires 0 <= i < n => data[(position + i) % TWO32])
  }

  function Read(cfg: Config, s: Store, handle: uint32, want: uint32): (Store, seq<byte>)
    requires Valid(cfg, s)
  {
    if handle !in s.handles then (s, [])
    else
      var h := s.handles[handle];
      var data := Data(s, h);
      RemainingIsDistance(|data|, h.position);
      var n := ReadCount(|data|, h.position, want);
      (s.(handles := s.handles[handle := h.(position := (h.position + n) % TWO32)]),
       BytesFrom(data, h.position, n))
  }

  predicate WriteAccepted(s: Store, handle: uint32, src: uint32, want: uint32) {
    && handle in s.handles && s.handles[handle].target.User?
    && !(want != 0 && src == 0)
    && s.handles[handle].position + want <= MAX_FILE_BYTES
    && src + want <= TWO32
  }

  function Resized(data: seq<byte>, size: nat): seq<byte> {
    if size <= |data| then data else data + seq(size - |data|, _ => 0)
  }

  function Overwritten(data: seq<byte>, at: nat, bytes: seq<byte>): seq<byte>
    requires at + |bytes| <= |data|
  {
    data[..at] + bytes + data[at + |bytes|..]
  }

  /** `bytes` is what guest memory holds at `src`. */
  function Write(cfg: Config, s: Store, handle: uint32, src: uint32, bytes: seq<byte>): (Store, uint32)
    requires Valid(cfg, s) && |bytes| < TWO32
  {
    if !WriteAccepted(s, handle, src, |bytes|) then (s, FAILED)
    else
      var h := s.handles[handle];
      var end := h.position + |bytes|;
      var grown := Resized(s.files[h.name], end);
      (s.(files := s.files[h.name := Overwritten(grown, h.position, bytes)],
          handles := s.handles[handle := h.(position := end)],
          dirty := true),
       |bytes|)
  }

  function SeekBase(kind: uint32, h: Handle, size: nat): nat {
    if kind == 0 then 0 else if kind == 1 then size else h.position
  }

  /** An asset's cursor must stay inside; a user file is extended to reach the goal. */
  function MoveTo(cfg: Config, s: Store, handle: uint32, goal: int): (Store, uint32)
    requires Valid(cfg, s) && handle in s.handles
  {
    var h := s.handles[handle];
    if goal < 0 || (h.target.Asset? && goal > |Data(s, h)|) then (s, 1)
    else
      var moved := s.(handles := s.handles[handle := h.(position := goal % TWO32)]);
      if h.target.User? then (moved.(files := s.files[h.name := Resized(s.files[h.name], goal)]), 0)
      else (moved, 0)
  }

  function Seek(cfg: Config, s: Store, handle: uint32, kind: uint32, distance: int32): (Store, uint32)
    requires Valid(cfg, s)
  {
    if handle !in s.handles then (s, 1)
    else
      var h := s.handles[handle];
      if kind == 2 && distance == 0 then (s, h.position)
      else MoveTo(cfg, s, handle, SeekBase(kind, h, |Data(s, h)|) + distance)
  }

  function Release(s: Store, handle: uint32): Store {
    s.(handles := s.handles - {handle})
  }

  function MkDir(cfg: Config, s: Store, spelling: string): (Store, uint32) {
    var name := Normalize(spelling);
    if name == "" || cfg.find(name).Some? then (s, 1)
    else (s.(dirs := s.dirs + {name}, dirty := true), 0)
  }

  predicate Test(cfg: Config, s: Store, name: string) {
    cfg.find(name).Some? || Normalize(name) in s.files || Normalize(name) in s.dirs
  }

  // ----- runs -------------------------------------------------------------

  type GuestBytes = b: seq<byte> | |b| < TWO32

  datatype Call =
    | OpenCall(name: string, mode: uint32)
    | ReadCall(handle: uint32, want: uint32)
    | WriteCall(handle: uint32, src: uint32, bytes: GuestBytes)
    | SeekCall(handle: uint32, kind: uint32, distance: int32)
    | ReleaseCall(handle: uint32)
    | MkDirCall(name: string)

  function Step(cfg: Config, s: Store, c: Call): Store
    requires Valid(cfg, s)
  {
    match c
    case OpenCall(name, mode) => Open(cfg, s, name, mode).0
    case ReadCall(handle, want) => Read(cfg, s, handle, want).0
    case WriteCall(handle, src, bytes) => Write(cfg, s, handle, src, bytes).0
    case SeekCall(handle, kind, distance) => Seek(cfg, s, handle, kind, distance).0
    case ReleaseCall(handle) => Release(s, handle)
    case MkDirCall(name) => MkDir(cfg, s, name).0
  }

  lemma AllocateKeepsValid(cfg: Config, s: Store, name: string, target: Target)
    requires Valid(cfg, s) && (target.User? ==> name in s.files)
    ensures var (t, handle) := Allocate(cfg, s, name, target);
      && Valid(cfg, t) && t.files == s.files && t.dirs == s.dirs
      && (handle != 0 ==> handle !in s.handles && t.handles == s.handles[handle := Handle(name, target, 0)])
      && (handle == 0 <==> t == s)
  {
    if !RegionFull(cfg, s.next) {
      RoomForOne(cfg, s.next);
    }
  }

  lemma RoomForOne(cfg: Config, next: uint32)
    requires 0 < cfg.regionStart <= next <= RegionEnd(cfg.regionStart) && !RegionFull(cfg, next)
    ensures next + 4 <= RegionEnd(cfg.regionStart)
  {
  }

  lemma LastKeepsValid(cfg: Config, s: Store, last: uint32)
    requires Valid(cfg, s)
    ensures Valid(cfg, s.(last := last))
  {
  }

  /** Adding an empty or copied file under a new key disturbs no handle. */
  lemma AddFileKeepsValid(cfg: Config, s: Store, key: string, data: seq<byte>)
    requires Valid(cfg, s) && key !in s.files
    ensures Valid(cfg, s.(files := s.files[key := data]))
  {
  }

  lemma OpenKeepsValid(cfg: Config, s: Store, name: string, mode: uint32)
    requires Valid(cfg, s)
    ensures Valid(cfg, Open(cfg, s, name, mode).0)
  {
    hide OpenAllocated, Valid;
    var (t, handle) := OpenAllocated(cfg, s, name, mode);
    OpenAllocatedKeepsValid(cfg, s, name, mode);
    LastKeepsValid(cfg, t, handle);
  }

  lemma OpenAllocatedKeepsValid(cfg: Config, s: Store, name: string, mode: uint32)
    requires Valid(cfg, s)
    ensures Valid(cfg, OpenAllocated(cfg, s, name, mode).0)
  {
    hide Allocate, Valid, Normalize, DirExists;
    var key := Normalize(name);
    if key in s.files {
      AllocateKeepsValid(cfg, s, key, User);
    } else if cfg.find(name).Some? {
      var data := cfg.find(name).value;
      AddFileKeepsValid(cfg, s, key, data);
      AllocateKeepsValid(cfg, s.(files := s.files[key := data]), key, User);
      AllocateKeepsValid(cfg, s, name, Asset(data));
    } else {
      AddFileKeepsValid(cfg, s, key, []);
      AllocateKeepsValid(cfg, s.(files := s.files[key := []]), key, User);
      AllocateKeepsValid(cfg, s, name, Asset([]));
    }
  }

  /** Growing a file and moving one of its handles inside it keeps every handle inside its file. */
  lemma GrowKeepsValid(cfg: Config, s: Store, handle: uint32, data: seq<byte>, position: uint32)
    requires Valid(cfg, s) && handle in s.handles && s.handles[handle].target.User?
    requires |s.files[s.handles[handle].name]| <= |data| && position <= |data|
    ensures Valid(cfg, s.(files := s.files[s.handles[handle].name := data],
                          handles := s.handles[handle := s.handles[handle].(position := position)]))
  {
  }

  lemma ReadKeepsValid(cfg: Config, s: Store, handle: uint32, want: uint32)
    requires Valid(cfg, s)
    ensures Valid(cfg, Read(cfg, s, handle, want).0)
  {
    if handle in s.handles {
      RemainingIsDistance(|Data(s, s.handles[handle])|, s.handles[handle].position);
    }
  }

  lemma WriteKeepsValid(cfg: Config, s: Store, handle: uint32, src: uint32, bytes: GuestBytes)
    requires Valid(cfg, s)
    ensures Valid(cfg, Write(cfg, s, handle, src, bytes).0)
  {
    if WriteAccepted(s, handle, src, |bytes|) {
      var h := s.handles[handle];
      var grown := Resized(s.files[h.name], h.position + |bytes|);
      var data := Overwritten(grown, h.position, bytes);
      GrowKeepsValid(cfg, s, handle, data, h.position + |bytes|);
    }
  }

  /** Even a goal past 4 GiB only wraps the cursor back into the grown file. */
  lemma MoveKeepsValid(cfg: Config, s: Store, handle: uint32, goal: int)
    requires Valid(cfg, s) && handle in s.handles
    ensures Valid(cfg, MoveTo(cfg, s, handle, goal).0)
  {
    var h := s.handles[handle];
    if h.target.User? && goal >= 0 {
      GrowKeepsValid(cfg, s, handle, Resized(s.files[h.name], goal), goal % TWO32);
    }
  }

  lemma SeekKeepsValid(cfg: Config, s: Store, handle: uint32, kind: uint32, distance: int32)
    requires Valid(cfg, s)
    ensures Valid(cfg, Seek(cfg, s, handle, kind, distance).0)
  {
    if handle in s.handles {
      hide MoveTo;
      CursorInside(cfg, s, handle);
      var h := s.handles[handle];
      MoveKeepsValid(cfg, s, handle, SeekBase(kind, h, |Data(s, h)|) + distance);
    }
  }

  lemma ReleaseKeepsValid(cfg: Config, s: Store, handle: uint32)
    requires Valid(cfg, s)
    ensures Valid(cfg, Release(s, handle))
  {
  }

  lemma MkDirKeepsValid(cfg: Config, s: Store, spelling: string)
    requires Valid(cfg, s)
    ensures Valid(cfg, MkDir(cfg, s, spelling).0)
  {
  }

  lemma CleanKeepsValid(cfg: Config, s: Store)
    requires Valid(cfg, s)
    ensures Valid(cfg, s.(dirty := false))
  {
  }

  lemma LoadedKeepsValid(cfg: Config, s: Store, files: map<string, seq<byte>>, dirs: set<string>)
    requires Valid(cfg, s) && s.handles == map[]
    ensures Valid(cfg, s.(files := files, dirs := dirs, dirty := false))
  {
  }

  lemma CursorInside(cfg: Config, s: Store, handle: uint32)
    requires Valid(cfg, s) && handle in s.handles
    ensures var h := s.handles[handle];
      (h.target.User? ==> h.name in s.files) && h.position <= |Data(s, h)|
  {
  }

  /** Whatever the call, every cursor stays inside its file. */
  lemma StepKeepsValid(cfg: Config, s: Store, c: Call)
    requires Valid(cfg, s)
    ensures Valid(cfg, Step(cfg, s, c))
  {
    hide Open, Read, Write, Seek, Release, MkDir, Valid;
    match c {
      case OpenCall(name, mode) => OpenKeepsValid(cfg, s, name, mode);
      case ReadCall(handle, want) => ReadKeepsValid(cfg, s, handle, want);
      case WriteCall(handle, src, bytes) => WriteKeepsValid(cfg, s, handle, src, bytes);
      case SeekCall(handle, kind, distance) => SeekKeepsValid(cfg, s, handle, kind, distance);
      case ReleaseCall(handle) => ReleaseKeepsValid(cfg, s, handle);
      case MkDirCall(name) => MkDirKeepsValid(cfg, s, name);
    }
  }

  function Run(cfg: Config, s: Store, calls: seq<Call>): (t: Store)
    requires Valid(cfg, s)
    ensures Valid(cfg, t)
    decreases |calls|
  {
    if calls == [] then s
    else
      StepKeepsValid(cfg, s, calls[0]);
      Run(cfg, Step(cfg, s, calls[0]), calls[1..])
  }
}
