/** The file manager over shared heap buffers: handles on one user file hold the same buffer,
    and every method does to the buffers what `FileStore` does to values. */
module FileHle {
  import opened HostTypes
  import opened WritablePath
  import opened FileStore
  import opened ByteStream
  import opened UserData

  /** A growable byte buffer; open handles keep referring to it while it grows. */
  class Buffer {
    var bytes: seq<byte>

    constructor (bytes: seq<byte>)
      ensures this.bytes == bytes
    {
      this.bytes := bytes;
    }
  }

  datatype Backing = FromAsset(bytes: seq<byte>) | FromUser(buffer: Buffer)

  datatype OpenFile = OpenFile(name: string, backing: Backing, position: uint32) {
    function Target(): Target {
      if backing.FromAsset? then Asset(backing.bytes) else User
    }

    /** The bytes the handle currently stands on. */
    function Contents(): seq<byte>
      reads if backing.FromUser? then {backing.buffer} else {}
    {
      match backing
      case FromAsset(bytes) => bytes
      case FromUser(buffer) => buffer.bytes
    }
  }

  class FileHle {
    const cfg: Config
    var openFiles: map<uint32, OpenFile>
    var writable: map<string, Buffer>
    var dirs: set<string>
    var next: uint32
    var last: uint32
    var dirty: bool

    /** What the fields and buffers denote. */
    ghost var store: Store

    ghost function Buffers(): set<Buffer>
      reads this
    {
      set k | k in writable :: writable[k]
    }

    ghost predicate Plain()
      reads this
    {
      store.dirs == dirs && store.next == next && store.last == last && store.dirty == dirty
    }

    /** Each user file has its own buffer, holding its bytes. */
    ghost predicate FilesMatch()
      reads this, Buffers()
    {
      && store.files.Keys == writable.Keys
      && (forall k, l :: k in writable && l in writable && k != l ==> writable[k] != writable[l])
      && (forall k :: k in writable ==> writable[k].bytes == store.files[k])
    }

    /** A user handle holds the buffer of the file it names. */
    ghost predicate HandlesMatch()
      reads this
    {
      && store.handles.Keys == openFiles.Keys
      && (forall h :: h in openFiles ==>
            store.handles[h] == Handle(openFiles[h].name, openFiles[h].Target(), openFiles[h].position))
      && (forall h :: h in openFiles && openFiles[h].backing.FromUser? ==>
            openFiles[h].name in writable && openFiles[h].backing.buffer == writable[openFiles[h].name])
    }

    ghost predicate Linked()
      reads this, Buffers()
    {
      Plain() && FilesMatch() && HandlesMatch()
    }

    ghost predicate Valid()
      reads this, Buffers()
    {
      Linked() && FileStore.Valid(cfg, store)
    }

    constructor (cfg: Config)
      ensures this.cfg == cfg && store == EmptyStore(cfg)
      ensures cfg.regionStart != 0 && cfg.regionStart != 0xffff_0000 ==> Valid()
    {
      this.cfg := cfg;
      openFiles, writable, dirs, next, last, dirty := map[], map[], {}, cfg.regionStart, 0, false;
      store := EmptyStore(cfg);
    }

    method AllocateFileObject(name: string, backing: Backing) returns (handle: uint32)
      requires Valid()
      requires backing.FromUser? ==> name in writable && writable[name] == backing.buffer
      modifies this`openFiles, this`next, this`store
      ensures Valid()
      ensures (store, handle) == Allocate(cfg, old(store), name, OpenFile(name, backing, 0).Target())
    {
      hide FileStore.Valid;
      AllocateKeepsValid(cfg, store, name, OpenFile(name, backing, 0).Target());
      if RegionFull(cfg, next) {
        return 0;
      }
      handle := next;
      AddHandle(handle, OpenFile(name, backing, 0));
      SetNext((next + 4) % TWO32);
    }

    method SetNext(value: uint32)
      requires Linked()
      modifies this`next, this`store
      ensures Linked() && store == old(store).(next := value)
    {
      next := value;
      store := store.(next := value);
    }

    method AddHandle(handle: uint32, file: OpenFile)
      requires Linked()
      requires file.backing.FromUser? ==> file.name in writable && writable[file.name] == file.backing.buffer
      modifies this`openFiles, this`store
      ensures Linked()
      ensures store == old(store).(handles :=
        old(store).handles[handle := Handle(file.name, file.Target(), file.position)])
    {
      openFiles := openFiles[handle := file];
      store := store.(handles := store.handles[handle := Handle(file.name, file.Target(), file.position)]);
    }

    /** Adds a new user file with its own fresh buffer. */
    method Emplace(key: string, bytes: seq<byte>)
      requires Linked() && key !in writable
      modifies this`writable, this`store
      ensures Linked() && writable.Keys == old(writable).Keys + {key}
      ensures store == old(store).(files := old(store).files[key := bytes])
    {
      var buffer := new Buffer(bytes);
      writable := writable[key := buffer];
      store := store.(files := store.files[key := bytes]);
    }

    method DirectoryExists(name: string) returns (found: bool)
      requires Valid() && EndsWithSeparator(name)
      ensures found <==> DirExists(cfg, store, name)
    {
      var folder := Normalize(name) + "/";
      if cfg.find(name).Some? || Normalize(name) in dirs {
        return true;
      }
      for i := 0 to |cfg.names|
        invariant forall k :: 0 <= k < i ==>
          !StartsWithIgnoringCase(cfg.names[k], DirPrefix(name)) && !StartsWithIgnoringCase(cfg.names[k], folder)
      {
        if StartsWithIgnoringCase(cfg.names[i], DirPrefix(name)) || StartsWithIgnoringCase(cfg.names[i], folder) {
          return true;
        }
      }
      assert !AssetUnder(cfg, DirPrefix(name), folder);
      var unseen := writable.Keys;
      while unseen != {}
        invariant unseen <= writable.Keys
        invariant forall n :: n in writable && n !in unseen ==> !StartsWithIgnoringCase(n, folder)
        decreases |unseen|
      {
        var n :| n in unseen;
        if StartsWithIgnoringCase(n, folder) {
          assert n in store.files;
          return true;
        }
        unseen := unseen - {n};
      }
      return false;
    }

    method OpenExisting(key: string) returns (handle: uint32)
      requires Valid() && key in writable
      modifies this`openFiles, this`next, this`store
      ensures Valid()
      ensures (store, handle) == Allocate(cfg, old(store), key, User)
    {
      handle := AllocateFileObject(key, FromUser(writable[key]));
    }

    method OpenNew(key: string, bytes: seq<byte>) returns (handle: uint32)
      requires Valid() && key !in writable
      modifies this
      ensures Valid()
      ensures (store, handle) == Allocate(cfg, old(store).(files := old(store).files[key := bytes]), key, User)
    {
      hide Allocate, FileStore.Valid;
      AddFileKeepsValid(cfg, store, key, bytes);
      Emplace(key, bytes);
      handle := OpenExisting(key);
    }

    method OpenSomewhere(name: string, mode: uint32) returns (handle: uint32)
      requires Valid()
      modifies this
      ensures Valid()
      ensures (store, handle) == OpenAllocated(cfg, old(store), name, mode)
    {
      hide Allocate, FileStore.Valid, DirExists, Normalize;
      handle := 0;
      var key := NormalizeWritablePath(name);
      var asset := cfg.find(name);
      if key in writable {
        handle := OpenExisting(key);
      } else if asset.Some? {
        if ReadWriteMode(mode) {
          // Defaults shipped as assets are copied before a game may change them.
          handle := OpenNew(key, asset.value);
        } else {
          handle := AllocateFileObject(name, FromAsset(asset.value));
        }
      } else if CreateMode(mode) {
        handle := OpenNew(key, []);
      } else if EndsWithSeparator(name) {
        var dirExists := DirectoryExists(name);
        if dirExists {
          handle := AllocateFileObject(name, FromAsset([]));
        }
      }
    }

    method OpenByName(name: string, mode: uint32) returns (handle: uint32)
      requires Valid()
      modifies this
      ensures Valid()
      ensures (store, handle) == Open(cfg, old(store), name, mode)
    {
      hide OpenAllocated;
      OpenKeepsValid(cfg, store, name, mode);
      handle := OpenSomewhere(name, mode);
      if handle != 0 {
        last := handle;
        store := store.(last := handle);
      }
    }

    /** Moves one cursor. */
    method SetPosition(handle: uint32, position: uint32)
      requires Linked() && handle in openFiles
      modifies this`openFiles, this`store
      ensures Linked()
      ensures var h := old(store).handles[handle];
        store == old(store).(handles := old(store).handles[handle := h.(position := position)])
    {
      store := store.(handles := store.handles[handle := store.handles[handle].(position := position)]);
      openFiles := openFiles[handle := openFiles[handle].(position := position)];
    }

    /** Gives one user file new contents; every handle on it sees the change. */
    method SetBytes(key: string, bytes: seq<byte>)
      requires Linked() && key in writable
      modifies writable[key], this`store
      ensures Linked()
      ensures store == old(store).(files := old(store).files[key := bytes])
    {
      writable[key].bytes := bytes;
      store := store.(files := store.files[key := bytes]);
    }

    /** Gives the file behind a user handle new contents, and moves that handle's cursor. */
    method Rewrite(handle: uint32, bytes: seq<byte>, position: uint32)
      requires Linked() && handle in openFiles && openFiles[handle].backing.FromUser?
      modifies this`openFiles, this`store, Buffers()
      ensures Linked()
      ensures var h := old(store).handles[handle];
        store == old(store).(files := old(store).files[h.name := bytes],
                             handles := old(store).handles[handle := h.(position := position)])
    {
      SetBytes(openFiles[handle].name, bytes);
      SetPosition(handle, position);
    }

    method SetDirty(value: bool)
      requires Linked()
      modifies this`dirty, this`store
      ensures Linked() && store == old(store).(dirty := value)
    {
      dirty := value;
      store := store.(dirty := value);
    }

    method SetDirs(value: set<string>)
      requires Linked()
      modifies this`dirs, this`store
      ensures Linked() && store == old(store).(dirs := value)
    {
      dirs := value;
      store := store.(dirs := value);
    }

    /** What a handle of the machine and its entry in the table have in common. */
    lemma OnFile(handle: uint32)
      requires Linked()
      ensures handle in openFiles <==> handle in store.handles
      ensures handle in openFiles ==>
        var f, h := openFiles[handle], store.handles[handle];
        && h == Handle(f.name, f.Target(), f.position)
        && (f.backing.FromUser? ==> f.name in store.files && f.Contents() == store.files[f.name])
        && (f.backing.FromAsset? ==> f.Contents() == f.backing.bytes)
    {
    }

    method ReadFrom(handle: uint32, want: uint32) returns (bytes: seq<byte>)
      requires Valid()
      modifies this`openFiles, this`store
      ensures Valid()
      ensures (store, bytes) == Read(cfg, old(store), handle, want)
    {
      hide FileStore.Valid;
      ReadKeepsValid(cfg, store, handle, want);
      if handle !in openFiles {
        return [];
      }
      CursorInside(cfg, store, handle);
      bytes := Fetch(handle, want);
      SetPosition(handle, (openFiles[handle].position + |bytes|) % TWO32);
    }

    /** The bytes a read returns. */
    method Fetch(handle: uint32, want: uint32) returns (bytes: seq<byte>)
      requires Linked() && handle in openFiles && openFiles[handle].position <= |openFiles[handle].Contents()|
      ensures var f := openFiles[handle];
        var n := ReadCount(|f.Contents()|, f.position, want);
        f.position + n <= |f.Contents()| && bytes == BytesFrom(f.Contents(), f.position, n)
    {
      hide Linked;
      var f := openFiles[handle];
      var data := f.Contents();
      RemainingIsDistance(|data|, f.position);
      var n := CountToRead(|data|, f.position, want);
      bytes := CopyOut(data, f.position, n);
    }

    static method CountToRead(size: nat, position: uint32, want: uint32) returns (n: uint32)
      ensures n == ReadCount(size, position, want)
    {
      var remaining := (size % TWO32 - position) % TWO32;
      n := if want < remaining then want else remaining;
    }

    static method CopyOut(data: seq<byte>, position: uint32, n: nat) returns (bytes: seq<byte>)
      requires position + n <= |data|
      ensures bytes == BytesFrom(data, position, n)
    {
      bytes := [];
      for i := 0 to n
        invariant bytes == BytesFrom(data, position, i)
      {
        bytes := bytes + [data[(position + i) % TWO32]];
      }
    }

    /** `bytes` is what guest memory holds at `src`. */
    method WriteTo(handle: uint32, src: uint32, bytes: GuestBytes) returns (result: uint32)
      requires Valid()
      modifies this`openFiles, this`dirty, this`store, Buffers()
      ensures Valid()
      ensures (store, result) == Write(cfg, old(store), handle, src, bytes)
    {
      hide FileStore.Valid, Linked, Resized, Overwritten;
      WriteKeepsValid(cfg, store, handle, src, bytes);
      OnFile(handle);
      if handle !in openFiles || openFiles[handle].backing.FromAsset? {
        return FAILED;
      }
      CursorInside(cfg, store, handle);
      var f := openFiles[handle];
      var end := f.position + |bytes|;
      if (|bytes| != 0 && src == 0) || end > MAX_FILE_BYTES || src + |bytes| > TWO32 {
        return FAILED;
      }
      var data := Overwrite(f.backing.buffer.bytes, f.position, bytes);
      Rewrite(handle, data, end);
      SetDirty(true);
      result := |bytes|;
    }

    method SeekIn(handle: uint32, kind: uint32, distance: int32) returns (result: uint32)
      requires Valid()
      modifies this`openFiles, this`store, Buffers()
      ensures Valid()
      ensures (store, result) == Seek(cfg, old(store), handle, kind, distance)
    {
      hide FileStore.Valid, MoveTo;
      if handle !in openFiles {
        return 1;
      }
      CursorInside(cfg, store, handle);
      var f := openFiles[handle];
      if kind == 2 && distance == 0 {
        return f.position;
      }
      var base := if kind == 0 then 0 else if kind == 1 then |f.Contents()| else f.position;
      result := SeekTo(handle, base + distance);
    }

    method SeekTo(handle: uint32, goal: int) returns (result: uint32)
      requires Valid() && handle in store.handles
      modifies this`openFiles, this`store, Buffers()
      ensures Valid()
      ensures (store, result) == MoveTo(cfg, old(store), handle, goal)
    {
      hide FileStore.Valid, Resized;
      MoveKeepsValid(cfg, store, handle, goal);
      CursorInside(cfg, store, handle);
      var f := openFiles[handle];
      if goal < 0 || (f.backing.FromAsset? && goal > |f.backing.bytes|) {
        return 1;
      }
      if f.backing.FromUser? {
        Rewrite(handle, Resized(f.backing.buffer.bytes, goal), goal % TWO32);
      } else {
        SetPosition(handle, goal % TWO32);
      }
      result := 0;
    }

    method Close(handle: uint32)
      requires Valid()
      modifies this`openFiles, this`store
      ensures Valid() && store == Release(old(store), handle)
    {
      hide FileStore.Valid;
      ReleaseKeepsValid(cfg, store, handle);
      openFiles := openFiles - {handle};
      store := Release(store, handle);
    }

    method TestName(name: string) returns (found: bool)
      requires Valid()
      ensures found <==> Test(cfg, store, name)
    {
      var key := NormalizeWritablePath(name);
      found := cfg.find(name).Some? || key in writable || key in dirs;
    }

    method MakeDir(spelling: string) returns (result: uint32)
      requires Valid()
      modifies this`dirs, this`dirty, this`store
      ensures Valid() && (store, result) == MkDir(cfg, old(store), spelling)
    {
      hide FileStore.Valid, Normalize;
      MkDirKeepsValid(cfg, store, spelling);
      var name := NormalizeWritablePath(spelling);
      if name == "" || cfg.find(name).Some? {
        return 1;
      }
      dirs := dirs + {name};
      dirty := true;
      store := MkDir(cfg, store, spelling).0;
      result := 0;
    }

    // ----- persistence ------------------------------------------------------

    /** `order` and `dirOrder` are the orders in which the map and the set were walked. */
    method Serialize(stream: seq<byte>) returns (out: seq<byte>, ghost order: seq<string>, ghost dirOrder: seq<string>)
      requires Valid()
      modifies this`dirty, this`store
      ensures Valid() && store == old(store).(dirty := false)
      ensures Listing(order, store.files.Keys) && Listing(dirOrder, store.dirs)
      ensures out == stream + SavedBytes(store.files, order, dirOrder)
    {
      hide FileStore.Valid, WordBytes, FilesBytes, NamesBytes, Listing;
      var fileBytes, dirBytes;
      fileBytes, order := WalkFiles();
      dirBytes, dirOrder := WalkNames(dirs);
      ListingSize(order, writable.Keys);
      ListingSize(dirOrder, dirs);
      out := stream + (WordBytes(Size32(|writable|)) + fileBytes);
      out := out + (WordBytes(DIRS_MAGIC) + (WordBytes(Size32(|dirs|)) + dirBytes));
      CleanKeepsValid(cfg, store);
      SetDirty(false);
    }

    method WalkFiles() returns (out: seq<byte>, ghost order: seq<string>)
      requires Linked()
      ensures Listing(order, store.files.Keys) && out == FilesBytes(store.files, order)
    {
      hide CountedBytes, NameBytes, Listing, FilesBytes;
      out, order := [], [];
      var unseen := writable.Keys;
      NothingListed(unseen);
      NoFilesBytes(store.files, []);
      while unseen != {}
        invariant unseen <= writable.Keys && Listing(order, writable.Keys - unseen)
        invariant forall k :: k in order ==> k in store.files
        invariant out == FilesBytes(store.files, order)
        decreases |unseen|
      {
        var name :| name in unseen;
        ListingOneMore(order, writable.Keys, unseen, name);
        unseen := unseen - {name};
        FilesBytesOneMore(store.files, order, name);
        out := out + (CountedBytes(NameBytes(name)) + CountedBytes(writable[name].bytes));
        order := order + [name];
      }
      assert writable.Keys - unseen == writable.Keys == store.files.Keys;
    }

    static method WalkNames(names: set<string>) returns (out: seq<byte>, ghost order: seq<string>)
      ensures Listing(order, names) && out == NamesBytes(order)
    {
      hide CountedBytes;
      out, order := [], [];
      var unseen := names;
      while unseen != {}
        invariant unseen <= names && Listing(order, names - unseen)
        invariant out == NamesBytes(order)
        decreases |unseen|
      {
        var name :| name in unseen;
        unseen := unseen - {name};
        NamesBytesOneMore(order, name);
        out := out + CountedBytes(NameBytes(name));
        order := order + [name];
      }
    }

    /** Loads saved data; a malformed stream, or any open handle, leaves everything as it was. */
    method Deserialize(input: seq<byte>) returns (ok: bool)
      requires Valid()
      modifies this
      ensures Valid()
      ensures ok <==> ReadSaved(input).Parsed? && old(store).handles == map[]
      ensures store == if !ok then old(store)
                       else old(store).(files := ReadSaved(input).value.files,
                                        dirs := ReadSaved(input).value.dirs, dirty := false)
    {
      hide FileStore.Valid, ReadSaved;
      var saved := ParseSaved(input);
      NoHandles();
      if saved.Failed? || openFiles != map[] {
        return false;
      }
      LoadedKeepsValid(cfg, store, saved.value.files, saved.value.dirs);
      AdoptFiles(saved.value.files);
      SetDirs(saved.value.dirs);
      SetDirty(false);
      ok := true;
    }

    lemma NoHandles()
      requires HandlesMatch()
      ensures store.handles == map[] <==> openFiles == map[]
    {
      assert store.handles.Keys == openFiles.Keys;
    }

    static method ParseSaved(input: seq<byte>) returns (r: Parsed<Saved>)
      ensures r == ReadSaved(input)
    {
      hide ReadNames, ReadName, ReadFile;
      var count := ReadWord(input);
      if count.Failed? || count.value > MAX_COUNT {
        return Failed;
      }
      var files := ParseFiles(count.value, count.rest);
      if files.Failed? {
        return Failed;
      }
      if files.rest == [] {
        return Parsed(Saved(files.value, {}), files.rest);
      }
      var magic := ReadWord(files.rest);
      if magic.Failed? || magic.value != DIRS_MAGIC {
        return Failed;
      }
      var dirCount := ReadWord(magic.rest);
      if dirCount.Failed? || dirCount.value > MAX_COUNT {
        return Failed;
      }
      var names := ParseNames(dirCount.value, dirCount.rest);
      if names.Failed? {
        return Failed;
      }
      r := Parsed(Saved(files.value, names.value), names.rest);
    }

    static method ParseFiles(count: nat, input: seq<byte>) returns (r: Parsed<map<string, seq<byte>>>)
      ensures r == ReadFiles(count, 0, input)
    {
      hide ReadFile, ReadFiles;
      var loaded: map<string, seq<byte>> := map[];
      var total: nat, rest := 0, input;
      FilesUnderNothing(count, input);
      for i := 0 to count
        invariant ReadFiles(count, 0, input) == FilesUnder(loaded, ReadFiles(count - i, total, rest))
      {
        var file := ReadFile(total, rest);
        FilesUnderOneMore(loaded, count - i, total, rest);
        if file.Failed? {
          return Failed;
        }
        var (name, data) := file.value;
        if name !in loaded {
          loaded := loaded[name := data];
        }
        total, rest := total + |data|, file.rest;
      }
      NoFilesLeft(loaded, total, rest);
      r := Parsed(loaded, rest);
    }

    static method ParseNames(count: nat, input: seq<byte>) returns (r: Parsed<set<string>>)
      ensures r == ReadNames(count, input)
    {
      hide ReadName;
      var loaded: set<string> := {};
      var rest := input;
      NamesAfterNothing(count, input);
      for i := 0 to count
        invariant ReadNames(count, input) == NamesAfter(loaded, ReadNames(count - i, rest))
      {
        var name := ReadName(rest);
        NamesAfterOneMore(loaded, count - i, rest);
        if name.Failed? {
          return Failed;
        }
        loaded, rest := loaded + {name.value}, name.rest;
      }
      r := Parsed(loaded, rest);
    }

    /** Replaces the user files by freshly allocated buffers holding `files`. */
    method AdoptFiles(files: map<string, seq<byte>>)
      requires Linked() && openFiles == map[]
      modifies this`writable, this`store
      ensures Linked() && store == old(store).(files := files)
    {
      hide Without, Linked;
      DropFiles();
      var unseen := files.Keys;
      assert Without(files, unseen) == map[] by {
        WithoutAll(files);
      }
      while unseen != {}
        invariant Linked() && unseen <= files.Keys && writable.Keys == files.Keys - unseen
        invariant store == old(store).(files := Without(files, unseen))
        decreases |unseen|
      {
        var name :| name in unseen;
        WithoutOneLess(files, unseen, name);
        unseen := unseen - {name};
        Emplace(name, files[name]);
      }
      WithoutNone(files);
    }

    method DropFiles()
      requires Linked() && openFiles == map[]
      modifies this`writable, this`store
      ensures Linked() && writable == map[] && store == old(store).(files := map[])
    {
      writable := map[];
      store := store.(files := map[]);
    }
  }

  lemma NothingListed(keys: set<string>)
    ensures Listing([], keys - keys)
  {
  }

  lemma ListingOneMore(order: seq<string>, keys: set<string>, unseen: set<string>, name: string)
    requires Listing(order, keys - unseen) && name in unseen && unseen <= keys
    ensures Listing(order + [name], keys - (unseen - {name}))
  {
  }

  lemma WithoutAll(files: map<string, seq<byte>>)
    ensures Without(files, files.Keys) == map[]
  {
  }

  lemma WithoutNone(files: map<string, seq<byte>>)
    ensures Without(files, {}) == files
  {
  }

  function Without(files: map<string, seq<byte>>, unseen: set<string>): map<string, seq<byte>> {
    files - unseen
  }

  lemma WithoutOneLess(files: map<string, seq<byte>>, unseen: set<string>, name: string)
    requires name in unseen && unseen <= files.Keys
    ensures Without(files, unseen - {name}) == Without(files, unseen)[name := files[name]]
  {
  }

  // ----- stepping through the readers and writers ---------------------------

  lemma {:induction false} FilesBytesOneMore(files: map<string, seq<byte>>, order: seq<string>, name: string)
    requires name in files && forall k :: k in order ==> k in files
    ensures FilesBytes(files, order + [name])
            == FilesBytes(files, order) + (CountedBytes(NameBytes(name)) + CountedBytes(files[name]))
    decreases |order|
  {
    hide CountedBytes, NameBytes;
    if order == [] {
      assert (order + [name])[1..] == [];
      assert FilesBytes(files, []) == [];
    } else {
      assert (order + [name])[1..] == order[1..] + [name];
      FilesBytesOneMore(files, order[1..], name);
      var a, b := CountedBytes(NameBytes(order[0])), CountedBytes(files[order[0]]);
      var c, d := FilesBytes(files, order[1..]), CountedBytes(NameBytes(name)) + CountedBytes(files[name]);
      assert a + (b + (c + d)) == (a + (b + c)) + d;
    }
  }

  lemma {:induction false} NamesBytesOneMore(order: seq<string>, name: string)
    ensures NamesBytes(order + [name]) == NamesBytes(order) + CountedBytes(NameBytes(name))
    decreases |order|
  {
    hide CountedBytes, NameBytes;
    if order == [] {
      assert (order + [name])[1..] == [];
    } else {
      assert (order + [name])[1..] == order[1..] + [name];
      NamesBytesOneMore(order[1..], name);
      var a, b, c := CountedBytes(NameBytes(order[0])), NamesBytes(order[1..]), CountedBytes(NameBytes(name));
      assert a + (b + c) == (a + b) + c;
    }
  }

  /** Files read later never replace those already loaded. */
  function FilesUnder(loaded: map<string, seq<byte>>, r: Parsed<map<string, seq<byte>>>)
    : Parsed<map<string, seq<byte>>>
  {
    if r.Failed? then Failed else Parsed(r.value + loaded, r.rest)
  }

  lemma FilesUnderNothing(n: nat, input: seq<byte>)
    ensures FilesUnder(map[], ReadFiles(n, 0, input)) == ReadFiles(n, 0, input)
  {
    hide ReadFiles;
    var r := ReadFiles(n, 0, input);
    if r.Parsed? {
      assert r.value + map[] == r.value;
    }
  }

  lemma FilesUnderOneMore(loaded: map<string, seq<byte>>, n: nat, total: nat, input: seq<byte>)
    requires n > 0
    ensures FilesUnder(loaded, ReadFiles(n, total, input))
            == match ReadFile(total, input)
               case Failed => Failed
               case Parsed(file, rest) =>
                 FilesUnder(if file.0 in loaded then loaded else loaded[file.0 := file.1],
                            ReadFiles(n - 1, total + |file.1|, rest))
  {
    hide ReadFile;
    var head := ReadFile(total, input);
    if head.Parsed? {
      var file := head.value;
      var tail := ReadFiles(n - 1, total + |file.1|, head.rest);
      if tail.Parsed? {
        var next := if file.0 in loaded then loaded else loaded[file.0 := file.1];
        assert tail.value[file.0 := file.1] + loaded == tail.value + next;
      }
    }
  }

  lemma NoFilesLeft(loaded: map<string, seq<byte>>, total: nat, input: seq<byte>)
    ensures FilesUnder(loaded, ReadFiles(0, total, input)) == Parsed(loaded, input)
  {
    assert map[] + loaded == loaded;
  }

  function NamesAfter(loaded: set<string>, r: Parsed<set<string>>): Parsed<set<string>> {
    if r.Failed? then Failed else Parsed(r.value + loaded, r.rest)
  }

  lemma NamesAfterNothing(n: nat, input: seq<byte>)
    ensures NamesAfter({}, ReadNames(n, input)) == ReadNames(n, input)
  {
    hide ReadNames;
    var r := ReadNames(n, input);
    if r.Parsed? {
      assert r.value + {} == r.value;
    }
  }

  lemma NamesAfterOneMore(loaded: set<string>, n: nat, input: seq<byte>)
    requires n > 0
    ensures NamesAfter(loaded, ReadNames(n, input))
            == match ReadName(input)
               case Failed => Failed
               case Parsed(name, rest) => NamesAfter(loaded + {name}, ReadNames(n - 1, rest))
  {
    hide ReadName;
    var head := ReadName(input);
    if head.Parsed? {
      var tail := ReadNames(n - 1, head.rest);
      if tail.Parsed? {
        assert tail.value + {head.value} + loaded == tail.value + (loaded + {head.value});
      }
    }
  }

  lemma OverwrittenOneMore(data: seq<byte>, at: nat, bytes: seq<byte>, b: byte)
    requires at + |bytes| < |data|
    ensures |Overwritten(data, at, bytes)| == |data|
    ensures Overwritten(data, at, bytes)[at + |bytes| := b] == Overwritten(data, at, bytes + [b])
  {
  }

  lemma NothingOverwritten(data: seq<byte>, at: nat)
    requires at <= |data|
    ensures Overwritten(data, at, []) == data
  {
  }

  /** Writes `bytes` at `at`, first growing the data with zeros when they end past it. */
  method Overwrite(was: seq<byte>, at: nat, bytes: seq<byte>) returns (data: seq<byte>)
    requires at <= |was|
    ensures data == Overwritten(Resized(was, at + |bytes|), at, bytes)
  {
    hide Overwritten;
    var end := at + |bytes|;
    data := if end > |was| then was + seq(end - |was|, _ => 0) else was;
    ghost var grown := data;
    NothingOverwritten(grown, at);
    for i := 0 to |bytes|
      invariant |data| == |grown| && data == Overwritten(grown, at, bytes[..i])
    {
      OverwrittenOneMore(grown, at, bytes[..i], bytes[i]);
      assert bytes[..i] + [bytes[i]] == bytes[..i + 1];
      data := data[at + i := bytes[i]];
    }
    assert bytes[..|bytes|] == bytes;
  }
}
