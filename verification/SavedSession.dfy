/** Whether a session's saved log can be loaded again, and what it then rebuilds. */
module SavedSession {
  import opened HostTypes
  import opened ByteStream
  import opened Keyed
  import opened TextureLog
  import opened TextureMachine
  import opened TextureLogFormat
  import opened CompactionShape
  import opened CompactionMeaning
  import opened CompactionSession
  import opened TextureRecorder

  ghost predicate NamesFit(log: seq<Entry>) {
    forall e :: e in log && IsNaming(e) ==> EntryWithinCaps(e)
  }

  ghost predicate ImagesFit(log: seq<Entry>) {
    forall e :: e in log && e.TexImage2D? ==> EntryWithinCaps(e)
  }

  // ----- what compaction leaves of the reader's caps ----------------------

  ghost predicate LiveImagesFit(live: map<GLuint, LiveTexture>) {
    forall id :: id in live ==> forall c :: c in live[id].images ==> EntryWithinCaps(TexImage2D(c))
  }

  lemma StepImagesFit(s: Scan, e: Entry)
    requires ValidScan(s) && LiveImagesFit(s.live) && (e.TexImage2D? ==> EntryWithinCaps(e))
    ensures LiveImagesFit(ScanStep(s, e).live)
  {
    if e.TexImage2D? {
      var id := BoundName(s.bound, e.call.target);
      if id != 0 && id in s.live {
        PutKeepsDistinct(LEVEL_OF, s.live[id].images, e.call);
      }
    }
  }

  lemma {:induction false} ScanImagesFit(s: Scan, log: seq<Entry>)
    requires ValidScan(s) && LiveImagesFit(s.live) && ImagesFit(log)
    ensures LiveImagesFit(ScanFrom(s, log).live)
    decreases |log|
  {
    hide ScanStep, ValidScan, LiveImagesFit, EntryWithinCaps;
    if log != [] {
      StepKeepsValid(s, log[0]);
      StepImagesFit(s, log[0]);
      ScanImagesFit(ScanStep(s, log[0]), log[1..]);
    }
  }

  lemma {:induction false} EmissionImagesFit(order: seq<GLuint>, live: map<GLuint, LiveTexture>)
    requires LiveImagesFit(live)
    ensures ImagesFit(Emit(order, live))
  {
    if order != [] {
      EmissionImagesFit(order[1..], live);
    }
  }

  lemma {:induction false} NamingElements(log: seq<Entry>)
    ensures forall e :: e in Naming(log) <==> e in log && IsNaming(e)
  {
    if log != [] {
      NamingElements(log[1..]);
    }
  }

  /** Of the reader's three caps, compaction can meet or miss only that on the number of entries; the caps on names
      are met exactly when the full log meets them. */
  lemma CompactWithinCapsIff(log: seq<Entry>)
    requires ImagesFit(log)
    ensures WithinCaps(Compact(log)) <==> |Compact(log)| <= 65536 && NamesFit(log)
  {
    hide EntryWithinCaps;
    var s, saved := ScanLog(log), Compact(log);
    ScanImagesFit(EMPTY_SCAN, log);
    EmissionImagesFit(s.order, s.live);
    EmissionIsNotNaming(s.order, s.live);
    ScanKeepsNaming(EMPTY_SCAN, log);
    assert s.kept == Naming(log);
    NamingElements(log);
    assert forall e :: e in saved <==> (e in log && IsNaming(e)) || e in Emit(s.order, s.live);
    if NamesFit(log) {
      forall i | 0 <= i < |saved| ensures EntryWithinCaps(saved[i]) {
        assert saved[i] in saved;
        if !IsNaming(saved[i]) && !saved[i].TexImage2D? {
          OthersFit(saved[i]);
        }
      }
    }
  }

  lemma OthersFit(e: Entry)
    requires !IsNaming(e) && !e.TexImage2D?
    ensures EntryWithinCaps(e)
  {
  }

  // ----- what is read back ------------------------------------------------

  /** The writer stores the number of entries in 32 bits, and the reader believes it. */
  lemma ReadsCountedEntries(log: seq<Entry>, rest: seq<byte>)
    requires forall e :: e in log ==> EntryWithinCaps(e)
    ensures var n := Size32(|log|);
      ReadLog(LogBytes(log) + rest)
      == if n > 65536 then Failed else Parsed(log[..n], EntriesBytes(log[n..]) + rest)
  {
    hide WordBytes, ReadWord, EntriesBytes, ReadEntries, EntryWithinCaps;
    var n: uint32 := Size32(|log|);
    var tail := EntriesBytes(log[n..]) + rest;
    assert log == log[..n] + log[n..];
    EntriesBytesConcat(log[..n], log[n..]);
    assert LogBytes(log) + rest == WordBytes(n) + (EntriesBytes(log[..n]) + tail);
    ReadWordBytes(n, EntriesBytes(log[..n]) + tail);
    ReadEntriesBack(log[..n], tail);
  }

  // ----- whole sessions ---------------------------------------------------

  /** A session compacted however often before it was saved is loaded back if and only if at most 65536 entries are
      left, and no call named more than 65536 textures.  What is loaded then rebuilds the session's textures. */
  lemma SavedSessionReloads(alloc: Allocator, start: Gl, first: seq<Entry>, parts: seq<seq<Entry>>, rest: seq<byte>)
    requires SingleTarget(EMPTY_SCAN, first + Flatten(parts))
    requires forall i :: 0 <= i < |parts| ==> Rebinds({}, parts[i])
    requires SeesWrites(alloc, start, EMPTY_SCAN, first + Flatten(parts))
    requires IdsMatch(alloc, start, first + Flatten(parts))
    requires ImagesFit(first + Flatten(parts))
    ensures var full, saved := first + Flatten(parts), Compact(Session(first, parts));
      var loaded := ReadLog(LogBytes(saved) + rest);
      && (loaded == Parsed(saved, rest) <==> |saved| <= 65536 && NamesFit(full))
      && (loaded == Parsed(saved, rest) ==>
            && IdsMatch(alloc, start, loaded.value)
            && Rebuilds(start, LiveNames({}, full), DeletedNames(full), StraysOf(alloc, start, full),
                        Replay(alloc, start, loaded.value), Replay(alloc, start, full)))
  {
    hide Rebuilds, ReadLog, LogBytes, NamesFit, ImagesFit;
    SessionCompactsTheSame(first, first, parts);
    SessionRebuilds(alloc, start, first, parts);
    CompactWithinCapsIff(first + Flatten(parts));
    LogRoundTripIff(Compact(Session(first, parts)), rest);
  }

  /** The same of the recording backend at any moment of a disciplined session: its own uploads never exceed what
      the reader takes. */
  lemma RecordedSaveReloads(backend: GlTextureRecordingBackend, rest: seq<byte>)
    requires backend.Valid()
    ensures var (alloc, start, history) := (backend.wrapped.alloc, backend.start, backend.history);
      var saved := Compact(backend.log);
      var loaded := ReadLog(LogBytes(saved) + rest);
      && (loaded == Parsed(saved, rest) <==> |saved| <= 65536 && NamesFit(history))
      && (loaded == Parsed(saved, rest) ==>
            && IdsMatch(alloc, start, loaded.value)
            && Rebuilds(start, LiveNames({}, history), DeletedNames(history), StraysOf(alloc, start, history),
                        Replay(alloc, start, loaded.value), backend.wrapped.gl))
  {
    hide Rebuilds, ReadLog, LogBytes, NamesFit, Compact;
    var (alloc, start, history) := (backend.wrapped.alloc, backend.start, backend.history);
    CompactingDescribes(alloc, start, backend.trusted, history, backend.log, backend.wrapped.gl);
    CompactWithinCapsIff(history);
    LogRoundTripIff(Compact(backend.log), rest);
  }

  lemma {:induction false} ChurnFits(n: nat)
    ensures forall e :: e in Churn(n) ==> IsNaming(e) && EntryWithinCaps(e)
  {
    if n > 0 {
      ChurnFits(n - 1);
    }
  }

  lemma ChurnStays(n: nat)
    ensures |Compact(Churn(n))| == 2 * n && ImagesFit(Churn(n)) && NamesFit(Churn(n))
    ensures forall e :: e in Compact(Churn(n)) ==> EntryWithinCaps(e)
  {
    hide Compact, Churn, Naming, EntryWithinCaps;
    ChurnFits(n);
    ChurnFacts(n);
    ChurnIsNotBounded(n);
    CompactKeepsNaming(Churn(n));
    NamingElements(Churn(n));
    assert Compact(Churn(n)) == Naming(Churn(n));
  }

  /** A session that only generates and deletes a texture, n times, is saved without complaint whatever n is, and
      loaded back if and only if n is at most 32768; up to 2^31 the load then fails. */
  lemma ChurnReloadsIff(n: nat, rest: seq<byte>)
    ensures var saved := Compact(Churn(n));
      var loaded := ReadLog(LogBytes(saved) + rest);
      && (loaded == Parsed(saved, rest) <==> n <= 32768)
      && (32768 < n < 0x8000_0000 ==> loaded.Failed?)
  {
    hide ReadLog, LogBytes, Compact, Churn, EntriesBytes, EntryWithinCaps, WithinCaps, NamesFit, ImagesFit;
    var saved := Compact(Churn(n));
    ChurnStays(n);
    CompactWithinCapsIff(Churn(n));
    LogRoundTripIff(saved, rest);
    ReadsCountedEntries(saved, rest);
  }
}
