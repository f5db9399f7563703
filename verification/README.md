# Verified models of the emulator's stateful cores

This project models the parts of the emulator whose correctness depends on long runs of state changes, and
proves what those parts are for:

- **The GL texture log** (`TextureLog`, `TextureMachine`, `CompactionShape`, `CompactionMeaning`, `LastWrites`,
  `CompactionSession`, `CompactionPoint`, `CompactionExact`, `TextureRecorder`, `TextureLogFormat`, `SavedSession`):
  recording texture commands, rewriting the record to a short one, replaying it on a fresh context, saving and loading
  it. The texture store is an abstract machine whose names come from any allocator that looks only at the Gen/Delete
  history.
- **MD5** (`Rfc1321`, `Md5Engine`, `Md5Answers`): the definition in sections 3.1 to 3.5 of RFC 1321 over whole messages,
  the incremental engine with its carry buffer proved to compute it, and two answers of the RFC's appendix A.5.
- **The file manager** (`WritablePath`, `FileStore`, `FileLaws`, `FileHistory`, `FileHle`, `UserData`): canonical names, a
  machine over values, what its single calls do and leave alone, its properties over whole runs, the object over shared
  growing buffers that refines the machine step by step, and the persistence format.
- **The mixer** (`MixerModel`, `MixerLaws`, `MixerRuns`, `Mixer`): resampling with exact positions, looping, voice retirement,
  truncation and saturation, and the mixing loops over the accumulator array.
- **GL marshalling** (`PixelUnpack`, `EglSurfaces`): row-padded pixel unpacking against the row stride of section
  3.6.4 of the OpenGL 1.5 specification, and the pbuffer surface machine.
- **Smaller machines** (`BrewResources`, `HidQueue`, `GifCanvas`, `RamSearch`): the resource-file parser against its
  documented layout, the button event queue, the composition of animation frames with the disposal methods of
  section 23 of the GIF89a specification, and the incremental memory search.

`HostTypes`, `GlFormats`, `IntegerLaws`, `Keyed` and `ByteStream` hold fixed-width integers, bytes per pixel,
arithmetic facts, small association tables and little-endian words. Each loop of the program is a method proved equal to a function of its inputs or of
the old state; the lemmas are about those functions, so they hold of the loops.

## Where the code and its documentation disagree

- `CompactLog` is documented as safe to call at any time (core/gl_texture_log.h:82-91). Compaction keeps textures but
  forgets which one is bound, so a texture bound but not yet written when the log is compacted loses what is written
  to it next: `CompactionForgetsBinding` is a three-command session and what its save lacks, and
  `UnsafePointSpoilsSave` finds such a command, for any parameter, at every unsafe point. For logs whose textures
  have one target each, `CompactionSafeIff` says exactly which points are safe on drivers that never hand out a name
  in use; a binding of a texture made before the log began does no harm.
- A compacted log is documented to reproduce every texture still alive (core/gl_texture_log.h:221-230). It reproduces
  those generated in the log. What the log writes to a texture made before it began, as after `ClearLog`
  (core/gl_texture_log.h:93-102), is lost: `EarlierTextureLosesWrites` is a two-command session, `CompactionRebuilds`
  says what is kept for every log, and `CompactionPreservesMeaningIff` says exactly when nothing is lost: the
  documented single target (core/gl_texture_log.h:243-248), and no write to an earlier texture that changes it.
- Compaction is documented to keep the log bounded (core/gl_texture_log.h:82-91 and 232-241). The Gen and Delete calls
  are all kept: `CompactIsBounded` bounds everything else by what is alive, and `ChurnIsNotBounded` is a session with
  nothing alive whose compacted log grows for ever.
- A save is meant to be loaded again (core/gl_texture_log.h:63-69). The writer takes a log of any length and the reader
  refuses more than 65536 entries (core/gl_texture_log.cpp:283): `RecordedSaveReloads` says exactly which compacted
  sessions are loaded back, and by `ChurnReloadsIff` the session above is saved without complaint and cannot be loaded
  once it has made and deleted 32769 textures.
- The byte cap of the recorder (core/gl_texture_log.cpp:51) never decides anything: `RecordedFaithfullyIff` has only
  the side cap in its condition.
- The handle region is meant to hold 0x10000 bytes from any start (core/brew/file_hle.cpp:67-70). `RegionIsSoundIff`
  shows the two starts, 0 and 0xffff0000, at which a run of opens takes the object at 0 and returns the failure value.
- The memory search is documented to scan [lo, hi) (tools/game_probe.cpp:6128-6133). Its 32-bit address wraps when the
  range ends within one cell of 4 GiB and the scan then goes on from address 0; `SeedsAreTheCellsIff` is the condition.
- A read counts what lies ahead in 32 bits and indexes the file by a 32-bit sum (core/brew/file_hle.cpp:274-277), and
  a seek stores its goal in 32 bits. `ReadIsExactIff` and `SeekThenTellIff` say exactly when none of the cuts is visible,
  and `ReadWrapsPastFourGiB` is a file and six seeks after which a read of two bytes returns the second from the
  file's start.

## Model

| member | source | states |
|---|---|---|
| TextureLog.CompactGlTextureLog | core/gl_texture_log.cpp:93-191 | The compaction loops, in place over their tables, compute `Compact`: the scan's kept Gen/Delete entries followed by one section per touched live texture in first-generated order |
| LastWrites.LastWritesSurvive | core/gl_texture_log.h:221-230 | By positions in the log: replaying it, and when textures have one target each replaying its compaction, leaves each texture generated in it and alive at its end with exactly the parameters and the levels some command set while the texture was bound (bound by an earlier bind of that target, and neither rebound nor deleted since), each as the last such command gave it |
| LastWrites.ScanKnowsLastWrites | core/gl_texture_log.cpp:115-174 | What the scan has accumulated at any point is, for each live texture, the last write of each parameter and of each level since it was generated |
| LastWrites.ScanKnowsBindings | core/gl_texture_log.cpp:123-140 | At any point a target has the texture the last bind of that target named, unless that name was deleted since |
| TextureMachine.DeletingUnbinds | core/gl_texture_log.cpp:126-134 | For the store and for the scan, whatever they hold: a target bound to a deleted name has 0, every other target what it had, and exactly the deleted textures are gone |
| TextureMachine.WritesReachTheBound | core/gl_texture_log.cpp:59-91 | A replayed parameter or image goes to the texture bound to its target, which comes into being if need be, and to nothing else |
| TextureMachine.HistoryGrows | core/gl_texture_log.h:204-215 | What the allocator sees of a replay is one event for each Gen and each Delete, in order |
| CompactionShape.SectionsInOrder | core/gl_texture_log.cpp:115-188 | The compacted log is the Gen and Delete calls and then one section for each touched live texture, in the order in which the names were first generated |
| CompactionPoint.SectionIsParamsThenImages | core/gl_texture_log.cpp:182-188 | A section is the bind, the parameters through its target, and the images as they were uploaded |
| CompactionMeaning.CompactionRebuilds | core/gl_texture_log.h:221-230 | For every allocator, start context and log whose surviving textures have one target: replaying the compacted log is given the same names, leaves the same Gen/Delete history, builds every texture generated in the log and alive at its end with the same parameters and per-level images as the full log, also when names are deleted and reused, and leaves every earlier texture as at the start; the full log leaves the same with its writes to earlier textures on top |
| CompactionMeaning.CompactionPreservesMeaning | core/gl_texture_log.h:221-230 | For such logs the two stores are the same if and only if the log's writes to textures it did not generate put there what those already held |
| CompactionExact.CompactionPreservesMeaningIff | core/gl_texture_log.h:243-248 | From any context where what is bound exists, on any driver that hands out unused names, the same stores result if and only if every surviving texture was uploaded through a single target and no write to an earlier texture changes it |
| CompactionExact.UnusedNamesAreSeen | core/gl_texture_log.h:204-215 | On a driver that hands out unused names, no binding older than the log ever reaches a texture generated in it |
| CompactionExact.EarlierTextureLosesWrites | core/gl_texture_log.cpp:141-157 | A two-entry log (bind an earlier texture, set a parameter) that compacts to nothing, so the save loses the parameter |
| CompactionExact.EmissionLosesLevel | core/gl_texture_log.cpp:176-188 | If some surviving texture mixes targets, the synthesized single bind makes the replay miss a level of some texture |
| CompactionMeaning.ScanFollows | core/gl_texture_log.cpp:115-174 | At every point of the log, what the scan accumulated per live name denotes exactly what the store holds, every other texture is what the Gen and Delete calls alone leave with the stray writes on top, and the bindings agree |
| CompactionMeaning.EmissionReplay | core/gl_texture_log.cpp:176-188 | Replaying the emitted sections fills in exactly the live textures and leaves every other one alone |
| CompactionShape.ScanKeepsValid | core/gl_texture_log.cpp:115-174 | Every scan keeps names in first-seen order without repetition, one entry per pname and per level of a live texture, and an untouched texture fresh |
| CompactionShape.CompactKeepsNaming | core/gl_texture_log.h:222-226 | The Gen/Delete subsequence of the compacted log is the log's own, verbatim, and comes before everything else |
| CompactionShape.CompactIsBounded | core/gl_texture_log.h:232-241 | The compacted length is at least the number of Gen and Delete calls, and at most that plus, per live name, one bind and one entry per distinct pname and level |
| CompactionShape.ChurnIsNotBounded | core/gl_texture_log.cpp:116-134 | Generating and deleting one texture n times leaves nothing alive and 2n entries in the compacted log |
| CompactionSession.RescanCompact | core/gl_texture_log.cpp:93-191 | Scanning a compacted log recovers everything the scan of the full log knew, except the bindings, which are those of the last sections |
| CompactionSession.CompactionUnobservable | core/gl_texture_log.h:82-91 | If what follows rebinds before every write, compacting first and again later gives the same log as compacting once |
| CompactionSession.CompactIdempotent | core/gl_texture_log.cpp:93-191 | Compacting a compacted log changes nothing |
| CompactionSession.SessionCompactsTheSame | core/gl_texture_log.h:82-91 | Any number of compactions at rebind points leaves the final log that never compacting would give |
| CompactionSession.SessionRebuilds | core/gl_texture_log.h:63-69 | For every such session, also one that writes to earlier textures: what it saves is given the recorded names, builds every texture of its own as the complete, never compacted history does, and leaves every earlier one as at the start; the full history leaves the same with its writes to those on top |
| CompactionSession.SessionSavesItsTextures | core/gl_texture_log.h:63-69 | What such a session saves replays to exactly the textures of its complete, never compacted history, if and only if that history's writes to earlier textures change nothing |
| CompactionPoint.CompactionSafeIff | core/gl_texture_log.h:82-91 | Compacting at a point is invisible in every continuation whose Gens hand out names not in use, if and only if a write to any target would reach the same of the log's textures before and after |
| CompactionPoint.NextWriteTells | core/gl_texture_log.cpp:141-157 | If a write to some target reaches a texture of the log after one log and not after another that knows the same textures, a single parameter write of any pname makes their compactions differ |
| CompactionPoint.NextWriteShows | core/gl_texture_log.cpp:141-157 | On every driver and from every context, the two compactions then replay to different stores: the texture reached has different parameters |
| CompactionPoint.UnsafePointSpoilsSave | core/gl_texture_log.h:82-91 | At every point that is not safe, on every driver and for every pname, a single parameter write follows after which the compacted session and the compacted full history replay to different stores |
| CompactionPoint.CompactionForgetsBinding | core/gl_texture_log.cpp:135-140 | Generate and bind texture 1, compact, set a parameter: the full history has it, and what the session saves leaves texture 1 blank |
| CompactionPoint.EmissionTellsSections | core/gl_texture_log.cpp:176-188 | Two scans with equal emissions have equal sections for every name |
| TextureMachine.ReplayGlTextureLog | core/gl_texture_log.cpp:59-91 | Replays the log onto a store in place and reports whether every Gen was given the recorded names |
| TextureMachine.NamingDecidesIds | core/gl_texture_log.h:204-215 | From equal histories, two logs with the same Gen/Delete subsequence get the same names and leave the same history |
| TextureRecorder.RecordedFaithfullyIff | core/gl_texture_log.cpp:37-57 | An upload is logged as the driver stores it if and only if it has no pixels, no area, or sides of at most 2048 |
| TextureRecorder.RecordedFields | core/gl_texture_log.cpp:37-57 | A logged upload has the image's own fields, and the first width * height pixels' bytes, or none when a side is over 2048 |
| TextureRecorder.RecordingDescribes | core/gl_texture_log.cpp:9-57 | Recording the next disciplined command keeps: replaying the held log from where recording began matches every name and gives the wrapped store's history and textures, except at most the earlier ones the session wrote to |
| TextureRecorder.CompactingDescribes | core/gl_texture_log.h:91 | So does compacting the held log, after which a target must be bound again before it is written; what is then held rebuilds the session's own textures and leaves every earlier one as at the start |
| TextureRecorder.GlTextureRecordingBackend.GenTextures | core/gl_texture_log.cpp:9-14 | Forwards, appends the assigned names, and keeps the session invariant |
| TextureRecorder.GlTextureRecordingBackend.DeleteTextures | core/gl_texture_log.cpp:16-21 | Appends, forwards, and keeps the session invariant |
| TextureRecorder.GlTextureRecordingBackend.BindTexture | core/gl_texture_log.cpp:23-26 | Appends, forwards, keeps the session invariant, and makes the target safe to write |
| TextureRecorder.GlTextureRecordingBackend.TexParameter | core/gl_texture_log.cpp:28-31 | Appends, forwards, and keeps the session invariant when the command is disciplined, also when it writes an earlier texture |
| TextureRecorder.GlTextureRecordingBackend.TexImage2D | core/gl_texture_log.cpp:37-57 | Appends the copied image, forwards the original, and keeps the session invariant when the command is disciplined and was logged faithfully, also when it writes an earlier texture |
| TextureRecorder.GlTextureRecordingBackend.CompactLog | core/gl_texture_log.h:82-91 | Replaces the log by its compaction, keeps the session invariant, and then holds exactly the compaction of the whole history, which rebuilds the session's own textures |
| TextureRecorder.GlTextureRecordingBackend.ClearLog | core/gl_texture_log.h:93-102 | Empties the log and restarts the session from the wrapped store's present state |
| TextureLogFormat.SerializeGlTextureLog | core/gl_texture_log.cpp:240-279 | Appends the log's bytes to the stream, counts cut to 32 bits |
| TextureLogFormat.DeserializeGlTextureLog | core/gl_texture_log.cpp:281-345 | Succeeds exactly when the bytes parse, then yields the parsed log and the rest of the stream; on failure the output log is untouched |
| TextureLogFormat.LogRoundTripIff | core/gl_texture_log.cpp:240-345 | Reading back a written log followed by anything yields that log and leaves exactly what follows, if and only if the log is within the reader's caps |
| TextureLogFormat.StoredLog | core/gl_texture_log.cpp:240-245 | A stored log is its number of entries in four bytes, the low-order one first, and then its entries in order |
| TextureLogFormat.StoredNames | core/gl_texture_log.cpp:246-251 | A Gen is stored as the byte 0 and a Delete as the byte 1, then the count and the names |
| TextureLogFormat.StoredBindAndParameter | core/gl_texture_log.cpp:252-260 | A bind is the byte 2, the target and the texture; a parameter the byte 3, the target, its name and its value |
| TextureLogFormat.StoredImage | core/gl_texture_log.cpp:261-276 | An image is the byte 4, its seven fields, a byte that says whether it has pixels, their count, and the pixels |
| TextureLogFormat.ReadEntryTakes | core/gl_texture_log.cpp:290-341 | The reader accepts nothing but an entry as the writer stores it, within the caps, except that any byte but 0 says that an image has pixels |
| SavedSession.CompactWithinCapsIff | core/gl_texture_log.cpp:281-345 | For every log whose images the reader takes, the compacted log is within the reader's caps if and only if it has at most 65536 entries and no Gen or Delete of the full log names more than 65536 textures |
| SavedSession.ReadsCountedEntries | core/gl_texture_log.cpp:240-345 | Reading a written log of any length, each of whose entries the reader takes, fails if its length modulo 2^32 is over 65536, and otherwise yields that many first entries and leaves the others unread |
| SavedSession.SavedSessionReloads | core/gl_texture_log.h:63-69 | What a session compacted any number of times saves is loaded back if and only if at most 65536 entries are left and no call named more than 65536 textures; what is loaded then rebuilds the session's textures as the complete history does |
| SavedSession.RecordedSaveReloads | core/gl_texture_log.h:63-91 | The same of the recording backend in any state its invariant allows: compact, save, load and replay give the wrapped store's own textures, exactly under those two conditions |
| SavedSession.ChurnReloadsIff | core/gl_texture_log.cpp:281-283 | Generating and deleting one texture n times, compacting and saving is loaded back if and only if n is at most 32768, and the load fails for every n from there to 2^31 |
| Rfc1321.PadZerosIsLeast | core/brew/hash_hle.cpp:109-114 | The number of padding zeros fills whole 64-byte blocks and is the least that does |
| Md5Answers.Md5OfEmpty | core/brew/hash_hle.cpp:33-133 | MD5 of the empty message is the one in appendix A.5 of RFC 1321, all 64 operations spelled out |
| Md5Answers.Md5OfAbc | core/brew/hash_hle.cpp:33-133 | So is MD5 of "abc" |
| Rfc1321.OutputBytes | core/brew/hash_hle.cpp:121-132 | The digest has 16 bytes: registers A, B, C, D, each by division from its low-order byte to its high-order byte |
| Rfc1321.WordValue | core/brew/hash_hle.cpp:44-50 | Word i of a block is its bytes 4i to 4i + 3 as a number, the low-order byte first |
| Rfc1321.LittleEndianByte | core/brew/hash_hle.cpp:115-119 | Byte k of the stored length is the length divided by 256^k, modulo 256 |
| Rfc1321.BlocksConcat | core/brew/hash_hle.cpp:89-102 | Later blocks start from the registers the earlier blocks leave |
| Rfc1321.OneBlock | core/brew/hash_hle.cpp:43-78 | One block is its 64 operations, whose registers are added to those before |
| Md5Engine.TablesAgree | core/brew/hash_hle.cpp:52-66 | The computed word indices and the flat shift table are the schedule of section 3.4 of RFC 1321, for all 64 operations |
| Md5Engine.SelectorIsAux | core/brew/hash_hle.cpp:54-66 | The four round formulas are the RFC's F, G, H and I |
| Md5Engine.TurnFollowsSchedule | core/brew/hash_hle.cpp:67-72 | After each turn the four rotating variables are the RFC's registers in the order the next operation names them |
| Md5Engine.Md5State.ProcessBlock | core/brew/hash_hle.cpp:43-78 | Adds to the registers exactly the RFC's 64 operations on the block's 16 little-endian words |
| Md5Engine.AbsorbSplit | core/brew/hash_hle.cpp:80-102 | Absorbing a message in two parts with the tail carried across absorbs the whole |
| Md5Engine.ChunkingIsInvisible | core/brew/hash_hle.cpp:80-102 | However a message is cut into updates, the registers and the carry are those of the whole message |
| Md5Engine.Md5State.Update | core/brew/hash_hle.cpp:80-102 | Keeps the carry-buffer invariant and extends what has been fed by exactly the data |
| Md5Engine.Md5State.AppendPadding | core/brew/hash_hle.cpp:109-114 | The byte-by-byte padding ends for every carry length and feeds the one bit's byte and the least number of zeros |
| Md5Engine.LengthSurvivesWrap | core/brew/hash_hle.cpp:108 | The stored bit count is 8n modulo 2^64 although the byte counter wraps |
| Md5Engine.Md5State.Finish | core/brew/hash_hle.cpp:104-133 | Returns the RFC's MD5 of everything fed since the last reset, for every way it was fed, and changes nothing, so it may be repeated and updates may go on |
| Md5Engine.Md5State.Reset | core/brew/hash_hle.cpp:33-41 | Forgets everything fed |
| WritablePath.NormalizeWritablePath | core/brew/file_hle.cpp:32-58 | The folding, splitting and joining loops compute `Normalize` |
| WritablePath.NormalizeKeepsComponents | core/brew/file_hle.cpp:32-58 | A canonical name leads where its spelling leads, and splits into components none of which is empty, a dot name, or holds a backslash, a separator or upper case |
| WritablePath.SameNameIff | core/brew/file_hle.cpp:30-58 | Two spellings get the same name if and only if they lead to the same list of components |
| WritablePath.NormalizeIdempotent | core/brew/file_hle.cpp:32-58 | Canonicalizing a canonical name changes nothing |
| WritablePath.NormalizeBelow | core/brew/file_hle.cpp:32-58 | A path may be canonicalized before or after something is appended below it, also when that climbs with dot-dot |
| WritablePath.OneMoreComponent | core/brew/file_hle.cpp:39-51 | One more component below any path does nothing if empty or a dot, goes up one level but not past the root if a double dot, and otherwise goes down one level without regard to case; with the empty path this decides every spelling |
| WritablePath.NormalizeCharacters | core/brew/file_hle.cpp:33-36 | A canonical name holds no backslash and no upper-case letter |
| WritablePath.FoldedCharacter | core/brew/file_hle.cpp:33-36 | Folding moves codes 65 to 90 up by 32, turns 92 into 47, and leaves every other code |
| FileStore.StepKeepsValid | core/brew/file_hle.cpp:93-427 | Whatever the call, handles stay distinct and below the bump pointer, name existing files, and every cursor stays inside its file |
| FileLaws.WriteMovesOnly | core/brew/file_hle.cpp:312-325 | An accepted write leaves its handle at the old position plus the number of bytes, every byte of the file as written, as it was, or zero in between, the file as long as needed, and every other handle and file as it was |
| FileLaws.WritesContinue | core/brew/file_hle.cpp:295-331 | Writing a and then b through one handle gives the files, the cursor and the results of writing both at once, whenever the total is accepted |
| FileLaws.WriteAcceptedIff | core/brew/file_hle.cpp:297-318 | A write succeeds exactly on a user file, from a source that is not null unless nothing is written, ending within 64 MiB of the file and 4 GiB of memory; otherwise it returns the failure value and changes nothing |
| FileLaws.SeekMovesOnly | core/brew/file_hle.cpp:390-421 | A seek fails exactly for a goal before the start or past the end of an asset; otherwise the cursor is at the goal, counted from start, end or cursor, a user file is extended with zeros to reach it, and nothing else changes |
| FileLaws.TellAndRefuse | core/brew/file_hle.cpp:384-402 | Type 2 with distance 0 returns the position; a handle that is not open is refused |
| FileLaws.ReleaseForgets | core/brew/file_hle.cpp:440-443 | A released handle reads nothing, writes nothing and cannot be sought in, and every other handle and every file stays |
| FileLaws.OthersStand | core/brew/file_hle.cpp:265-427 | No call moves, retargets or drops a handle it does not name |
| FileLaws.RoomIff | core/brew/file_hle.cpp:67-70 | A handle is refused exactly when it would end past 64 KiB from the region's start, or past the end of memory |
| FileLaws.OpenDecides | core/brew/file_hle.cpp:103-177 | Which of the six outcomes an open has, by what exists under the name and bits 1 and 2 of the mode, and the new handle, file and pointer of each |
| FileLaws.AssetOpens | core/brew/file_hle.cpp:113-123 | An asset opened with bit 1 of the mode can be written at once and reads as the asset; opened without, it refuses every write |
| FileLaws.DirExistsIff | core/brew/file_hle.cpp:130-171 | A directory is there exactly when found as an asset, made, or when an asset or a user file lies below it, letters compared without case |
| FileLaws.RunKeepsNames | core/brew/file_hle.cpp:30-58 | Every name of a file or directory is canonical after any run |
| FileLaws.TestIff | core/brew/file_hle.cpp:197-207 | After any run a name tests as present exactly when it is an asset's, or leads where some user file or made directory stands |
| FileLaws.MkDirIff | core/brew/file_hle.cpp:209-223 | A directory is made exactly when its name leads below the root and is no asset's |
| FileHistory.SpellingsShareOneFile | core/brew/file_hle.cpp:109-123 | Once a user file exists, after any further run every open of any spelling, in any mode, either finds the region full or gets a new handle at the start of that same file |
| FileHistory.FilesComeFromOpens | core/brew/file_hle.cpp:117-129 | After any run, a user file exists that did not before if and only if some call of the run was a read-write open of an asset under that name or a create without one, and it began as the first such call made it: the asset's copy, or empty |
| FileHistory.MadeDirectoryIsFound | core/brew/file_hle.cpp:197-223 | A directory made once is found under every spelling after any further run |
| FileHistory.FileHoldsLastWrites | core/brew/file_hle.cpp:295-331 | At every moment of every run, each byte of each user file is the last one written there through any handle, else what the file first held, else the zero of an extension |
| FileHistory.ReadReturnsLastWrites | core/brew/file_hle.cpp:265-288 | What any handle reads is exactly those bytes, each at the cursor plus its place, modulo 2^32 |
| FileHistory.ReadIsExactIff | core/brew/file_hle.cpp:274-280 | A read returns as many bytes as asked for and present if and only if less than 4 GiB lie ahead or no more than the wrapped distance is wanted, and these are the slice at the cursor, whatever a file of that size holds, if and only if it ends at most at 4 GiB |
| FileHistory.ReadWrapsPastFourGiB | core/brew/file_hle.cpp:274-280 | A file of the byte 1, stretched by three seeks from its end to 2^32 + 99 bytes: three more seeks reach its byte 2^32 - 1, and reading two gives 0 and 1 where two zeros lie |
| FileHistory.CreateAndWriteStands | core/brew/file_hle.cpp:111-129 | Such a file is one create and one write away from an empty store |
| FileHistory.ReadsContinue | core/brew/file_hle.cpp:265-288 | While a file is under 4 GiB, two reads give the bytes and the cursor of one read of their total |
| FileHistory.WriteThenReadBack | core/brew/file_hle.cpp:265-427 | Bytes written through one handle are read back by any handle on the same file that seeks to where they were written |
| FileHistory.HandleKeepsItsTarget | core/brew/file_hle.cpp:111-126 | Until released a handle stays on the asset or file it was opened on, so an asset handle reads the asset even after the copy for writing was made |
| FileHistory.SeekThenTellIff | core/brew/file_hle.cpp:370-427 | After a successful seek, tell returns the goal if and only if it fits in 32 bits; a user file has grown exactly to reach it and an asset is unchanged |
| FileHistory.RegionIsSoundIff | core/brew/file_hle.cpp:62-97 | In every run of opens each file object taken has a non-zero handle not in use, if and only if the region starts neither at 0 nor at 0xffff0000, where a run returns 0 |
| FileHistory.HandlesAreNeverReused | core/brew/file_hle.cpp:93-101 | However long the run, and whatever it releases, a handle returned once is never returned again |
| FileHle.FileHle.AllocateFileObject | core/brew/file_hle.cpp:93-101 | Refines the machine's allocation on the open-file table |
| FileHle.FileHle.OpenByName | core/brew/file_hle.cpp:103-177 | Refines the machine's open, all branches, with one shared buffer per user file |
| FileHle.FileHle.DirectoryExists | core/brew/file_hle.cpp:139-165 | The two prefix searches find a directory exactly when one of the listed kinds of evidence exists |
| FileHle.FileHle.TestName | core/brew/file_hle.cpp:197-207 | Refines the machine's existence test |
| FileHle.FileHle.MakeDir | core/brew/file_hle.cpp:209-223 | Refines the machine's directory creation |
| FileHle.FileHle.ReadFrom | core/brew/file_hle.cpp:265-288 | Refines the machine's read, with the wrapped subtraction and the wrapped index of the copy loop |
| FileHle.FileHle.WriteTo | core/brew/file_hle.cpp:295-331 | Refines the machine's write: rejections, growth with zeros, and the byte loop, seen through every handle on the buffer |
| FileHle.FileHle.SeekIn | core/brew/file_hle.cpp:370-427 | Refines the machine's seek and tell |
| FileHle.FileHle.Close | core/brew/file_hle.cpp:440-443 | Refines the machine's release |
| FileHle.FileHle.Serialize | core/brew/file_hle.cpp:501-527 | Appends the saved form of the current files and directories, in whatever order the tables were walked, and clears the dirty flag |
| FileHle.FileHle.Deserialize | core/brew/file_hle.cpp:529-590 | Adopts the parsed files and directories exactly when the bytes parse and no handle is open; otherwise every field is as it was |
| UserData.SavedRoundTripIff | core/brew/file_hle.cpp:501-590 | Saving and loading restores the same files and directories for every walk order, if and only if counts, names and total size are within the reader's caps |
| UserData.LegacyLoadsWithoutDirs | core/brew/file_hle.cpp:558-577 | A stream that ends after the file list loads with those files and no directories |
| UserData.StoredFileAndDirectory | core/brew/file_hle.cpp:501-527 | One file and one directory byte for byte: counts and lengths low-order byte first, each name before its data, and the letters DIRS in between |
| UserData.FirstOfTwoIsLoaded | core/brew/file_hle.cpp:529-557 | Of two files with one name in a stream the first is loaded |
| UserData.ForeignTailFails | core/brew/file_hle.cpp:558-577 | A stream that goes on after the files with anything but the letters DIRS is refused |
| MixerLaws.ChunkingIsInvisible | core/audio/mixer.cpp:79-142 | Mixing n frames and then m emits the frames, and leaves the voices, of mixing n + m at once, for looping and one-shot voices at any rate ratio |
| MixerRuns.OneShotLifetime | core/audio/mixer.cpp:57-129 | Through any sequence of mixing and pausing, a one-shot voice of N frames at rate r is heard in exactly ceil(N R / r) unpaused output frames and is retired by exactly the sequences that mix as many |
| MixerRuns.VoicesLiveAlone | core/audio/mixer.cpp:57-134 | After any sequence of mixing and pausing the voices left are exactly those whose own run has not finished, in order |
| MixerRuns.OthersNeverRetire | core/audio/mixer.cpp:85-134 | Looping voices and those without a whole frame are never retired by any sequence of mixing and pausing |
| MixerModel.IndicesInRange | core/audio/mixer.cpp:103-118 | Both frames interpolated between, on both sides, are inside the voice's samples |
| MixerLaws.LevelStaysBetween | core/audio/mixer.cpp:108-121 | The interpolated, scaled and truncated value lies between the two samples at full volume, and between them and zero otherwise |
| MixerLaws.SampleIsInterpolated | core/audio/mixer.cpp:91-121 | At place k * rate + part, left and right are ((s[k] * (rate - part) + s[next] * part) * volume) / (100 * rate) without its fraction, next being k + 1, then the last frame again for a one-shot voice and frame 0 for a loop; stereo takes samples 2k and 2k + 1, any other voice sample k for both |
| MixerLaws.SilentWhen | core/audio/mixer.cpp:84-100 | Paused and ended voices, those without a whole frame, and one-shot voices past their end add nothing |
| MixerLaws.OutputIsHeldSum | core/audio/mixer.cpp:136-139 | Each output value is the sum of what the voices add, held at -32768 and 32767 |
| MixerLaws.SumOfSplit | core/audio/mixer.cpp:84-122 | A voice adds its own value to the sum, wherever it stands in the list |
| MixerLaws.NativeRateIsExact | core/audio/mixer.cpp:93-121 | At the output's own rate and full volume a voice is heard bit for bit, each side its own samples, mono on both sides, a looping voice over and over |
| MixerLaws.SoloIsExact | core/audio/mixer.cpp:79-139 | Such a voice played alone comes out of the whole mixer unchanged |
| MixerLaws.AccumulatorFitsIff | core/audio/mixer.cpp:80-121 | The 32-bit accumulator holds every sum of n voices if and only if n is at most 65536 |
| MixerLaws.OutputIgnoresOrder | core/audio/mixer.cpp:84-139 | The output depends only on the multiset of voices |
| Mixer.Mixer.Mix | core/audio/mixer.cpp:79-142 | The nested loops emit the saturated sums of all voices' samples, move every sounding voice on, and drop exactly the ended ones |
| Mixer.Mixer.Play | core/audio/mixer.cpp:29-41 | Appends a voice at the beginning of its audio with its volume clamped, whatever its channel count and rate, under the next identifier |
| Mixer.Mixer.SetVolume | core/audio/mixer.cpp:43-48 | Changes the clamped volume of that identifier's voices and nothing else |
| Mixer.ClampedIsNearest | core/audio/mixer.cpp:29-48 | The volume set is the percentage from 0 to 100 nearest to the one asked for |
| Mixer.Mixer.SetPaused | core/audio/mixer.cpp:57-69 | Pauses or resumes that identifier's voices and nothing else |
| Mixer.Mixer.Stop | core/audio/mixer.cpp:50-55 | Keeps exactly the voices of other identifiers, in order |
| Mixer.OthersAreKept | core/audio/mixer.cpp:50-55 | A voice is dropped or kept in its place by its identifier alone |
| Mixer.Mixer.IsPlaying | core/audio/mixer.cpp:71-77 | True exactly when the first voice of that identifier exists and has not finished |
| PixelUnpack.StrideMeetsSpecification | core/brew/gl_hle.cpp:128-133 | For element sizes 1, 2, 4 and 8, rounding the row up is the row stride of section 3.6.4 of the OpenGL 1.5 specification for the requested alignment 1, 2, 4 or 8, and for the initial 4 when anything else was requested |
| PixelUnpack.PixelSizeMeetsSpecification | core/brew/gl_types.h:126-154 | A pixel has one 16-bit element in each packed type, and otherwise one byte for each component: 1, 3, 4, 1, 2 from ALPHA to LUMINANCE_ALPHA |
| PixelUnpack.TightByte | core/brew/gl_hle.cpp:145-151 | Byte i of row r of the unpacked image is byte i of row r of the padded one |
| PixelUnpack.SizesFit | core/brew/gl_hle.cpp:127-137 | The 64-bit sizes never wrap for any 32-bit width and height |
| PixelUnpack.CopyGuestPixels | core/brew/gl_hle.cpp:123-153 | Succeeds exactly for a drawable size under the cap whose padded rows lie in memory, and then yields the tight image |
| EglSurfaces.EveryRunIsValid | core/brew/gl_hle.cpp:293-355 | In every reachable state pbuffers are page-aligned, not empty, pairwise disjoint and inside [0x8a000000, 0x8c000000), and the current draw surface is 0 or live |
| EglSurfaces.PbuffersNeverOverlap | core/brew/gl_hle.cpp:331-343 | After any run from the start, every pbuffer's 2 * width * height bytes lie page-aligned in [0x8a000000, 0x8c000000) and apart from every other's |
| EglSurfaces.PbufferCreatedIff | core/brew/gl_hle.cpp:331-347 | A pbuffer is given out exactly for a positive size within 640 by 480 whose 2 * width * height bytes still fit, at the first free page, and the next page boundary is free after it |
| EglSurfaces.TwoPbuffers | core/brew/gl_hle.cpp:331-347 | The first two 320 by 240 pbuffers are surfaces 2 and 3, at 0x8a000000 and 0x8a026000 |
| EglSurfaces.RequestedIsLast | core/brew/gl_hle.cpp:321-330 | The size asked for is the last value given for it before the terminator among the first 64 attributes |
| EglSurfaces.NothingRequested | core/brew/gl_hle.cpp:321-330 | Without such an attribute, or without a list, it is 0 |
| EglSurfaces.MakeCurrentIff | core/brew/gl_hle.cpp:442-461 | A surface is made current exactly when both exist, the context is 1, and a host context is there or can be created; it is the draw surface that becomes current |
| EglSurfaces.CurrentStays | core/brew/gl_hle.cpp:350-355 | What was made current stays so through any run that makes nothing else current and does not destroy it |
| EglSurfaces.DestroyedIsGone | core/brew/gl_hle.cpp:350-355 | Destroying a surface takes it and no other from the table and from being current, and gives no pixels back |
| EglSurfaces.HandlesAreNeverReused | core/brew/gl_hle.cpp:344-345 | However long the run, a pbuffer handle given out once is never given out again |
| EglSurfaces.RefusedForEver | core/brew/gl_hle.cpp:332-342 | A pbuffer size refused once is refused for ever and changes nothing, whatever is destroyed in between |
| EglSurfaces.SurfaceTable.EglCreatePbufferSurface | core/brew/gl_hle.cpp:315-348 | Reads the size from the attribute list, last value first terminator, at most 64 entries, and does to the fields what the machine does |
| EglSurfaces.SurfaceTable.EglCreateWindowSurface | core/brew/gl_hle.cpp:293-296 | Puts the window surface in the table under its fixed handle |
| EglSurfaces.SurfaceTable.EglDestroySurface | core/brew/gl_hle.cpp:350-355 | Removes the surface, also from being current, and says whether it existed |
| EglSurfaces.SurfaceTable.EglMakeCurrent | core/brew/gl_hle.cpp:442-476 | Makes a live draw surface current, or none, and refuses everything else |
| BrewResources.LayoutParses | core/brew/brew_resource_file.h:11-35 | A file laid out as documented is accepted with exactly the directory it was built from |
| BrewResources.ParsesIff | core/brew/brew_resource_file.cpp:15-45 | Which headers are accepted, condition by condition over the bytes, and the directory each gives, the end of the data clamped to the file |
| BrewResources.HeaderLayout | core/brew/brew_resource_file.h:11-24 | Where the header of a file laid out as documented has its counts, offsets and sizes |
| BrewResources.ResourceLayout | core/brew/brew_resource_file.h:22-35 | Where such a file has the type, identifier and index of a record, a resource's absolute offset, and its bytes |
| BrewResources.FirstMatchIsFirst | core/brew/brew_resource_file.h:65-72 | The record looked up is the first with that identifier and, unless any will do, that type |
| BrewResources.StoredUnit | core/brew/brew_resource_file.h:74-78 | Each code unit is two bytes, the high-order one first in big-endian text |
| BrewResources.UpToZeroIsPrefix | core/brew/brew_resource_file.cpp:97-103 | The text read ends before its first zero unit |
| BrewResources.LookupInvertsLayout | core/brew/brew_resource_file.h:11-35 | Looking a resource up in such a file returns exactly the bytes of the first matching record, and nothing exactly when no record matches or it names no data |
| BrewResources.StringsDecodeAlike | core/brew/brew_resource_file.h:74-78 | The same text decodes to the same code units whichever byte order it is stored in |
| BrewResources.TextReadsBack | core/brew/brew_resource_file.cpp:72-106 | In a file laid out as documented, the first text record with an identifier, stored in either byte order, is read as its code units up to the first zero |
| BrewResources.ReadBrewResourceRecord | core/brew/brew_resource_file.cpp:47-70 | For every file and every directory whose offset table lies in it, parsed from it or not, the record loop finds the first match's extent, which lies inside the file |
| BrewResources.ReadBrewResourceString | core/brew/brew_resource_file.cpp:72-106 | Yields the text resource with that identifier, and leaves the output alone when there is none |
| HidQueue.EventsTellThePadState | core/brew/hid_hle.cpp:272-282 | Over any interleaving of updates and polls, each button's events start with a press and alternate, and replaying those delivered and queued gives the last pad state on every mapped button |
| HidQueue.RunIsFaithful | core/brew/hid_hle.cpp:109-136 | The same from any faithful queue and pad state |
| HidQueue.NothingLostOrReordered | core/brew/hid_hle.cpp:109-136 | What is delivered followed by what is queued is exactly what the updates produced, in order |
| HidQueue.ButtonsAreBits | core/backend.h:19-30 | Buttons 0 to 10 are the low eleven bits of the pad state |
| HidQueue.EveryButtonPressed | core/brew/hid_hle.cpp:86-98 | Pressing everything at once queues one press for each button, in table order, under its identifier |
| HidQueue.Pad.UpdateState | core/brew/hid_hle.cpp:272-282 | Appends one event per mapped button that changed, in table order, and remembers the state |
| GifCanvas.Compose | tools/game_probe.cpp:1993-2034 | Every composed canvas shows, at every pixel, the frame over what the earlier frames left there, with clipping, transparency and the disposal methods |
| GifCanvas.ShownAt | tools/game_probe.cpp:2003-2019 | At each pixel a frame shows its own pixel, made opaque, where it has one that is not transparent, and what lies beneath elsewhere |
| GifCanvas.LeftBehind | tools/game_probe.cpp:1996-2034 | The screen starts transparent; disposal 2 clears the frame's rectangle, 3 takes the frame back, any other leaves it |
| GifCanvas.RestoringFrameLeavesNoTrace | tools/game_probe.cpp:2002-2033 | Dropping a frame that restores the previous canvas leaves every other composed canvas unchanged |
| RamSearch.SeedsAreTheCellsIff | tools/game_probe.cpp:6411-6431 | The seeds are exactly the whole cells of the range, up to the cap, if and only if the cap is reached or one more cell would still end below 4 GiB |
| RamSearch.EmptyRangeSeedsOneCellIff | tools/game_probe.cpp:6416-6431 | An empty range seeds just the cell at its start, if and only if that cell ends past the address space or the next one would still end below 4 GiB |
| RamSearch.CellAt | tools/game_probe.cpp:6427-6430 | Cell i of a range is i widths from its start |
| RamSearch.CellCountIsLargest | tools/game_probe.cpp:6417-6430 | As many cells are meant as end within the range, but at most 4194304 |
| RamSearch.FiltersMean | tools/game_probe.cpp:6434-6466 | What each of the filters asks of a cell, given its value at this moment and at the one before, and that a comparison with a missing value keeps nothing |
| RamSearch.PassesEach | tools/game_probe.cpp:6437-6473 | Meeting all filters is meeting each, compared with the moment of the one before |
| RamSearch.SelectedInPlace | tools/game_probe.cpp:6451-6469 | The survivors keep their order, and each seed is kept or dropped by its own values alone |
| RamSearch.SearchIsExact | tools/game_probe.cpp:6128-6140 | After any number of filters the survivors are exactly the seeds that meet every filter over the whole history of snapshots, in seed order, with the values of the last moment |
| RamSearch.RamSearch.Reset | tools/game_probe.cpp:6410-6432 | The 32-bit loop seeds the walk and its values, replacing whatever was searched before |
| RamSearch.RamSearch.Apply | tools/game_probe.cpp:6437-6473 | One filter leaves the matching candidates with their new values, or nothing happens before the first seeding |
| HidQueue.Pad.GetNextButtonEvent | core/brew/hid_hle.cpp:109-117 | Takes the oldest event, or reports that there is none |

## Left out

- TextureRecorder.GlTextureRecordingBackend.TexImage2D: keeps the invariant only for uploads within the side cap, because larger ones are logged without their pixels.
- CompactionMeaning.CompactionPreservesMeaning: asks that no write reach a texture generated in the log through a binding older than the log, which `UnusedNamesAreSeen` derives for every driver that hands out unused names.
- CompactionPoint.CompactionSafeIff: is about logs whose surviving textures have a single target.
- `TexSubImage2D` is forwarded without being recorded, so a session that uses it is not described by its log.
- The default texture 0, active texture units, and driver errors (negative counts, one texture bound to two kinds of target) are not part of the texture store. An upload whose pixels were not copied is replayed as an empty pixel block.
- Real OpenGL, the host file system, environment-variable logging, and failures of the output stream or of memory allocation.
- Copying between guest memory and host buffers in `Read` and `Write`: the bytes read are returned and the bytes to write are passed in. Names are passed as strings. `GuestBytes` is any sequence of fewer than 2^32 bytes.
- The resolver of immutable assets is any function from names to contents; `Exists` is taken to mean that it finds something.
- `GetInfo` (which looks user files up by the spelling as given), `GetFreeSpace` and its quota, enumeration, and the proxy for the last opened file. The dirty flag is modelled as the code sets it, but nothing is promised about it.
- UserData.SavedRoundTripIff: is about names of 8-bit characters, which is what the program's strings hold.
- The guest-call wrappers around the MD5 engine, and its table's derivation from the sine function: the constants are data.
- Mixer.Mixer.Mix: rounding of floating-point positions and gains is not modelled, positions being exact multiples of 1 / output rate; the accumulator is unbounded, which `AccumulatorFitsIff` shows to be the same up to 65536 voices. Mixing a playing voice with no channels or a negative rate is undefined in the program, and asked not to happen. The mutex, the WAV dump and the mixer's own save format are left out.
- Vertex extraction for the draw calls, matrices, and the colour-buffer readback with its memo.
- BrewResources.ReadBrewResourceRecord: asks that the directory's offset table lie in the file, as reading outside it is undefined in the program; `ParsedIsInBounds` shows that every parsed directory meets it.
- EglSurfaces.SurfaceTable.EglCreatePbufferSurface: clearing the new pbuffer's pixels in guest memory is not modelled.
- EglSurfaces.SurfaceTable.EglMakeCurrent: switching the host's offscreen target is not modelled, and whether the host can create a context is a parameter.
- GifCanvas.Compose: a canvas is rows of pixels rather than one byte buffer, and frames come decoded.
- RamSearch.RamSearch.Reset: a snapshot gives the value of the cell at each address; how a cell is read, and the defaults for missing arguments, are not modelled.
- The button events' fixed range and zero timestamp, device enumeration and connection events.
- Archive loaders, schedulers, ARM execution, fonts, save-state headers, and the rest of the inspection tools.
