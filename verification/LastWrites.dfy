/** What a log says of each texture, by the positions of its commands, and that replaying it, compacted or not,
    leaves exactly that: the last write of every parameter and of every level. */
module LastWrites {
  import opened HostTypes
  import opened Keyed
  import opened TextureLog
  import opened TextureMachine
  import opened CompactionShape
  import opened CompactionMeaning

  // ----- a log by positions -----------------------------------------------

  /** The command binds the target anew, or deletes what was bound. */
  predicate Unbinds(e: Entry, target: GLenum, id: GLuint) {
    (e.BindTexture? && e.target == target) || (e.DeleteTextures? && id in e.ids)
  }

  /** Command i binds `id` to `target`, and none from there to command n unbinds it. */
  ghost predicate BindsUntil(log: seq<Entry>, i: nat, n: nat, target: GLenum, id: GLuint)
    requires n <= |log|
  {
    i < n && log[i] == BindTexture(target, id) && forall k :: i < k < n ==> !Unbinds(log[k], target, id)
  }

  /** Just before command n, `id` is bound to `target`. */
  ghost predicate BoundAt(log: seq<Entry>, n: nat, target: GLenum, id: GLuint)
    requires n <= |log|
  {
    exists i: nat :: BindsUntil(log, i, n, target, id)
  }

  predicate Generates(e: Entry, id: GLuint) {
    e.GenTextures? && id in e.names
  }

  predicate Deletes(e: Entry, id: GLuint) {
    e.DeleteTextures? && id in e.ids
  }

  /** Just before command n, `id` has been generated and not deleted since. */
  ghost predicate AliveAt(log: seq<Entry>, n: nat, id: GLuint)
    requires n <= |log|
  {
    exists i :: 0 <= i < n && Generates(log[i], id) && forall k :: i < k < n ==> !Deletes(log[k], id)
  }

  /** Command i sets this parameter of `id`. */
  ghost predicate SetsParam(log: seq<Entry>, i: nat, id: GLuint, pname: GLenum)
    requires i < |log|
  {
    log[i].TexParameter? && log[i].pname == pname && BoundAt(log, i, log[i].ptarget, id)
  }

  /** Command i uploads this level of `id`. */
  ghost predicate Uploads(log: seq<Entry>, i: nat, id: GLuint, level: int32)
    requires i < |log|
  {
    log[i].TexImage2D? && log[i].call.level == level && BoundAt(log, i, log[i].call.target, id)
  }

  predicate StartsOver(e: Entry, id: GLuint) {
    Generates(e, id) || Deletes(e, id)
  }

  /** Before command n, command i is the last to set this parameter of `id`, which did not start over since. */
  ghost predicate LastSet(log: seq<Entry>, n: nat, i: nat, id: GLuint, pname: GLenum)
    requires n <= |log|
  {
    && i < n && SetsParam(log, i, id, pname)
    && forall k :: i < k < n ==> !StartsOver(log[k], id) && !SetsParam(log, k, id, pname)
  }

  ghost predicate LastUpload(log: seq<Entry>, n: nat, i: nat, id: GLuint, level: int32)
    requires n <= |log|
  {
    && i < n && Uploads(log, i, id, level)
    && forall k :: i < k < n ==> !StartsOver(log[k], id) && !Uploads(log, k, id, level)
  }

  // ----- the scan knows the bindings and what is alive -----------------------

  lemma ScanOneMore(log: seq<Entry>, n: nat)
    requires n < |log|
    ensures ScanLog(log[..n + 1]) == ScanStep(ScanLog(log[..n]), log[n])
  {
    assert log[..n + 1] == log[..n] + [log[n]];
    ScanConcat(EMPTY_SCAN, log[..n], [log[n]]);
    assert [log[n]][1..] == [];
  }

  lemma BoundOneMore(log: seq<Entry>, n: nat, target: GLenum, id: GLuint)
    requires n < |log|
    ensures BoundAt(log, n + 1, target, id) <==>
            log[n] == BindTexture(target, id) || (BoundAt(log, n, target, id) && !Unbinds(log[n], target, id))
  {
    if BoundAt(log, n, target, id) && !Unbinds(log[n], target, id) {
      var i: nat :| BindsUntil(log, i, n, target, id);
      assert BindsUntil(log, i, n + 1, target, id);
    }
    if log[n] == BindTexture(target, id) {
      assert BindsUntil(log, n, n + 1, target, id);
    }
    if BoundAt(log, n + 1, target, id) {
      var i: nat :| BindsUntil(log, i, n + 1, target, id);
      assert i < n ==> BindsUntil(log, i, n, target, id) && !Unbinds(log[n], target, id);
    }
  }

  lemma {:induction false} ScanKnowsBindings(log: seq<Entry>, n: nat, target: GLenum, id: GLuint)
    requires n <= |log| && id != 0
    ensures BoundName(ScanLog(log[..n]).bound, target) == id <==> BoundAt(log, n, target, id)
  {
    hide BoundAt;
    if n == 0 {
      NothingBoundYet(log, target, id);
    } else {
      ScanKnowsBindings(log, n - 1, target, id);
      ScanOneMore(log, n - 1);
      BoundOneMore(log, n - 1, target, id);
    }
  }

  lemma NothingBoundYet(log: seq<Entry>, target: GLenum, id: GLuint)
    ensures !BoundAt(log, 0, target, id)
  {
  }

  lemma AliveOneMore(log: seq<Entry>, n: nat, id: GLuint)
    requires n < |log|
    ensures AliveAt(log, n + 1, id) <==> Generates(log[n], id) || (AliveAt(log, n, id) && !Deletes(log[n], id))
  {
    if AliveAt(log, n, id) && !Deletes(log[n], id) {
      var i :| 0 <= i < n && Generates(log[i], id) && forall k :: i < k < n ==> !Deletes(log[k], id);
      assert forall k :: i < k < n + 1 ==> !Deletes(log[k], id);
    }
  }

  lemma {:induction false} ScanKnowsAlive(log: seq<Entry>, n: nat, id: GLuint)
    requires n <= |log|
    ensures id in ScanLog(log[..n]).live <==> AliveAt(log, n, id)
  {
    hide AliveAt;
    if n == 0 {
      NothingAliveYet(log, id);
    } else {
      ScanKnowsAlive(log, n - 1, id);
      ScanOneMore(log, n - 1);
      AliveOneMore(log, n - 1, id);
      StepAlive(ScanLog(log[..n - 1]), log[n - 1], id);
    }
  }

  lemma StepAlive(s: Scan, e: Entry, id: GLuint)
    ensures id in ScanStep(s, e).live <==> Generates(e, id) || (id in s.live && !Deletes(e, id))
  {
    hide StoreParam, StoreImage;
  }

  lemma NothingAliveYet(log: seq<Entry>, id: GLuint)
    ensures !AliveAt(log, 0, id)
  {
  }

  // ----- the scan knows the last writes ---------------------------------------

  /** The command, which does not start `id` over, sets this parameter of it or not. */
  lemma LastSetOneMore(log: seq<Entry>, n: nat, i: nat, id: GLuint, pname: GLenum)
    requires n < |log|
    ensures LastSet(log, n + 1, i, id, pname) <==>
            if i == n then SetsParam(log, n, id, pname)
            else LastSet(log, n, i, id, pname) && !StartsOver(log[n], id) && !SetsParam(log, n, id, pname)
    ensures LastSet(log, n, i, id, pname) ==> i < n
  {
    hide SetsParam;
  }

  lemma LastUploadOneMore(log: seq<Entry>, n: nat, i: nat, id: GLuint, level: int32)
    requires n < |log|
    ensures LastUpload(log, n + 1, i, id, level) <==>
            if i == n then Uploads(log, n, id, level)
            else LastUpload(log, n, i, id, level) && !StartsOver(log[n], id) && !Uploads(log, n, id, level)
    ensures LastUpload(log, n, i, id, level) ==> i < n
  {
    hide Uploads;
  }

  /** The scan's table of a live texture has for this parameter what the last command to set it gave. */
  ghost predicate ParamKnown(log: seq<Entry>, n: nat, params: seq<(GLenum, GLint)>, id: GLuint, pname: GLenum)
    requires n <= |log|
  {
    var table := Index(PNAME_OF, params);
    && (pname in table <==> exists i: nat :: LastSet(log, n, i, id, pname))
    && forall i: nat :: LastSet(log, n, i, id, pname) ==> pname in table && table[pname] == (pname, log[i].param)
  }

  ghost predicate LevelKnown(log: seq<Entry>, n: nat, images: seq<TexImage2DCall>, id: GLuint, level: int32)
    requires n <= |log|
  {
    var table := Index(LEVEL_OF, images);
    && (level in table <==> exists i: nat :: LastUpload(log, n, i, id, level))
    && forall i: nat :: LastUpload(log, n, i, id, level) ==> level in table && table[level] == log[i].call
  }

  lemma StepParam(s: Scan, e: Entry, id: GLuint, pname: GLenum)
    requires id != 0 && id in s.live && !StartsOver(e, id)
    ensures id in ScanStep(s, e).live
    ensures var was, now := Index(PNAME_OF, s.live[id].params), Index(PNAME_OF, ScanStep(s, e).live[id].params);
      if e.TexParameter? && e.pname == pname && BoundName(s.bound, e.ptarget) == id
      then pname in now && now[pname] == (pname, e.param)
      else (pname in now <==> pname in was) && (pname in was ==> now[pname] == was[pname])
  {
    if e.TexParameter? && BoundName(s.bound, e.ptarget) == id {
      PutUpdatesIndex(PNAME_OF, s.live[id].params, (e.pname, e.param));
    }
  }

  lemma StepLevel(s: Scan, e: Entry, id: GLuint, level: int32)
    requires id != 0 && id in s.live && !StartsOver(e, id)
    ensures id in ScanStep(s, e).live
    ensures var was, now := Index(LEVEL_OF, s.live[id].images), Index(LEVEL_OF, ScanStep(s, e).live[id].images);
      if e.TexImage2D? && e.call.level == level && BoundName(s.bound, e.call.target) == id
      then level in now && now[level] == e.call
      else (level in now <==> level in was) && (level in was ==> now[level] == was[level])
  {
    if e.TexImage2D? && BoundName(s.bound, e.call.target) == id {
      PutUpdatesIndex(LEVEL_OF, s.live[id].images, e.call);
    }
  }

  lemma GeneratedIsFresh(s: Scan, e: Entry, id: GLuint)
    requires Generates(e, id)
    ensures id in ScanStep(s, e).live && ScanStep(s, e).live[id] == FRESH_TEXTURE
  {
  }

  lemma FreshKnown(log: seq<Entry>, n: nat, id: GLuint, pname: GLenum, level: int32)
    requires n < |log| && Generates(log[n], id)
    ensures ParamKnown(log, n + 1, [], id, pname) && LevelKnown(log, n + 1, [], id, level)
  {
    hide LastSet, LastUpload;
    var m := n + 1;
    forall i: nat ensures !LastSet(log, m, i, id, pname) {
      LastSetOneMore(log, n, i, id, pname);
    }
    forall i: nat ensures !LastUpload(log, m, i, id, level) {
      LastUploadOneMore(log, n, i, id, level);
    }
  }

  lemma ParamStaysKnown(log: seq<Entry>, n: nat, id: GLuint, pname: GLenum)
    requires n < |log| && id != 0 && !StartsOver(log[n], id)
    requires id in ScanLog(log[..n]).live && ParamKnown(log, n, ScanLog(log[..n]).live[id].params, id, pname)
    ensures var t := ScanStep(ScanLog(log[..n]), log[n]);
      id in t.live && ParamKnown(log, n + 1, t.live[id].params, id, pname)
  {
    hide LastSet, BoundAt, ScanStep, StartsOver;
    var s, e := ScanLog(log[..n]), log[n];
    StepParam(s, e, id, pname);
    if e.TexParameter? {
      ScanKnowsBindings(log, n, e.ptarget, id);
    }
    var m := n + 1;
    forall i: nat
      ensures LastSet(log, n, i, id, pname) ==> i < n
      ensures LastSet(log, m, i, id, pname) <==>
              if SetsParam(log, n, id, pname) then i == n else LastSet(log, n, i, id, pname)
    {
      LastSetOneMore(log, n, i, id, pname);
    }
    if SetsParam(log, n, id, pname) {
      assert LastSet(log, m, n, id, pname);
    }
    assert ParamKnown(log, m, ScanStep(s, e).live[id].params, id, pname);
  }

  lemma LevelStaysKnown(log: seq<Entry>, n: nat, id: GLuint, level: int32)
    requires n < |log| && id != 0 && !StartsOver(log[n], id)
    requires id in ScanLog(log[..n]).live && LevelKnown(log, n, ScanLog(log[..n]).live[id].images, id, level)
    ensures var t := ScanStep(ScanLog(log[..n]), log[n]);
      id in t.live && LevelKnown(log, n + 1, t.live[id].images, id, level)
  {
    hide LastUpload, BoundAt, ScanStep, StartsOver;
    var s, e := ScanLog(log[..n]), log[n];
    StepLevel(s, e, id, level);
    if e.TexImage2D? {
      ScanKnowsBindings(log, n, e.call.target, id);
    }
    var m := n + 1;
    forall i: nat
      ensures LastUpload(log, n, i, id, level) ==> i < n
      ensures LastUpload(log, m, i, id, level) <==>
              if Uploads(log, n, id, level) then i == n else LastUpload(log, n, i, id, level)
    {
      LastUploadOneMore(log, n, i, id, level);
    }
    if Uploads(log, n, id, level) {
      assert LastUpload(log, m, n, id, level);
    }
    assert LevelKnown(log, m, ScanStep(s, e).live[id].images, id, level);
  }

  /** The scan accumulates, for each live texture, exactly the last write of each parameter and of each level. */
  lemma {:induction false} ScanKnowsLastWrites(log: seq<Entry>, n: nat, id: GLuint, pname: GLenum, level: int32)
    requires n <= |log| && id != 0 && id in ScanLog(log[..n]).live
    ensures var t := ScanLog(log[..n]).live[id];
      ParamKnown(log, n, t.params, id, pname) && LevelKnown(log, n, t.images, id, level)
  {
    hide ParamKnown, LevelKnown, ScanStep;
    var m := n - 1;
    ScanOneMore(log, m);
    StepAlive(ScanLog(log[..m]), log[m], id);
    if Generates(log[m], id) {
      FreshKnown(log, m, id, pname, level);
      GeneratedIsFresh(ScanLog(log[..m]), log[m], id);
    } else {
      ScanKnowsLastWrites(log, m, id, pname, level);
      ParamStaysKnown(log, m, id, pname);
      LevelStaysKnown(log, m, id, level);
    }
  }

  // ----- and so does every replay ---------------------------------------------

  /** Texture `id` has the parameters and the levels last written, and no others. */
  ghost predicate HasLastWrites(log: seq<Entry>, id: GLuint, t: Texture) {
    && (forall pname :: pname in t.params <==> exists i: nat :: LastSet(log, |log|, i, id, pname))
    && (forall pname, i: nat :: LastSet(log, |log|, i, id, pname) ==>
          pname in t.params && t.params[pname] == log[i].param)
    && (forall level :: level in t.images <==> exists i: nat :: LastUpload(log, |log|, i, id, level))
    && (forall level, i: nat :: LastUpload(log, |log|, i, id, level) ==>
          level in t.images &&
          var c := log[i].call;
          t.images[level] == Image(c.internalFormat, c.width, c.height, c.format, c.pixelType,
                                   if c.hasPixels then Some(c.pixels) else None))
  }

  lemma KnownIsHeld(log: seq<Entry>, id: GLuint, t: LiveTexture)
    requires forall pname :: ParamKnown(log, |log|, t.params, id, pname)
    requires forall level :: LevelKnown(log, |log|, t.images, id, level)
    ensures HasLastWrites(log, id, Denote(t))
  {
    hide BoundAt, StartsOver;
    var d := Denote(t);
    forall pname
      ensures pname in d.params <==> exists i: nat :: LastSet(log, |log|, i, id, pname)
      ensures forall i: nat :: LastSet(log, |log|, i, id, pname) ==>
        pname in d.params && d.params[pname] == log[i].param
    {
      assert ParamKnown(log, |log|, t.params, id, pname);
    }
    forall level
      ensures level in d.images <==> exists i: nat :: LastUpload(log, |log|, i, id, level)
      ensures forall i: nat :: LastUpload(log, |log|, i, id, level) ==>
        level in d.images && d.images[level] == LoggedImage(log[i].call)
    {
      assert LevelKnown(log, |log|, t.images, id, level);
    }
  }

  lemma DenotesLastWrites(log: seq<Entry>, id: GLuint)
    requires id != 0 && id in ScanLog(log).live
    ensures HasLastWrites(log, id, Denote(ScanLog(log).live[id]))
  {
    hide LastSet, LastUpload, ParamKnown, LevelKnown;
    assert log[..|log|] == log;
    var t := ScanLog(log).live[id];
    forall pname ensures ParamKnown(log, |log|, t.params, id, pname) {
      ScanKnowsLastWrites(log, |log|, id, pname, 0);
    }
    forall level ensures LevelKnown(log, |log|, t.images, id, level) {
      ScanKnowsLastWrites(log, |log|, id, 0, level);
    }
    KnownIsHeld(log, id, t);
  }

  /** Replaying a log leaves each texture generated in it and alive at its end with the last write of each parameter
      and of each level; so does replaying its compaction. */
  lemma LastWritesSurvive(alloc: Allocator, start: Gl, log: seq<Entry>, id: GLuint)
    requires SeesWrites(alloc, start, EMPTY_SCAN, log) && IdsMatch(alloc, start, log)
    requires id != 0 && AliveAt(log, |log|, id)
    ensures var full := Replay(alloc, start, log);
      id in full.textures && HasLastWrites(log, id, full.textures[id])
    ensures Homogeneous(ScanLog(log)) ==>
      var short := Replay(alloc, start, Compact(log));
      id in short.textures && HasLastWrites(log, id, short.textures[id])
  {
    hide HasLastWrites, AliveAt, Denote, OthersFollow, StraysOf, Compact, Homogeneous, DeletedNames, LiveNames;
    assert log[..|log|] == log;
    ScanKnowsAlive(log, |log|, id);
    DenotesLastWrites(log, id);
    FullFollows(alloc, start, log);
    if Homogeneous(ScanLog(log)) {
      CompactionRebuilds(alloc, start, log);
      LiveNamesAreLive(log);
    }
  }
}
