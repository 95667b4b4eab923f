/** What the callback handler guarantees, stated over Handler.Handle for every input. */
module HandlerProperties {
  import opened Wrappers
  import opened Token
  import opened Handler
  import Pending

  /**
   * The calls the try block would make if none of them raised: the path through its
   * branches, which depends on the payload, the table, the download's answer and the
   * file size, but not on which calls raise.
   */
  ghost function Script(data: string, entries: map<string, string>, disk: set<string>, env: Env): seq<Call> {
    match Parse(data)
    case None => []
    case Some((tag, id)) => ClaimScript(tag, id, entries, disk, env)
  }

  /** The script once the payload has split into `tag` and `id`. */
  ghost function ClaimScript(tag: string, id: string, entries: map<string, string>, disk: set<string>, env: Env): seq<Call> {
    var link := Pending.Lookup(entries, id);
    if !Truthy(link) then [AnswerExpired, EditExpired]
    else
      [AnswerDownloading, EditProcessing, Extract(link.value, OptionsFor(tag, id))]
        + Delivery(tag, env.filepath, AfterDownload(disk, env), env.size).0
  }

  /**
   * What a call of the script for request `id` with format `tag` is like: never a
   * failure report or a removal; a download only of the link stored under `id`, with
   * the tag's options; an upload only as the tag's kind of media and only at or below
   * the size limit; the too-large notice only above it, carrying the file's size.
   */
  ghost predicate ScriptCall(c: Call, tag: string, id: string, entries: map<string, string>, env: Env) {
    && !c.RemoveFile? && c != EditError && c != SendError
    && (c.Extract? ==> id in entries && c.link == entries[id] && c.link != "" && c.options == OptionsFor(tag, id))
    && (c.SendMedia? ==> c.media == MediaFor(tag) && env.size <= MaxSizeBytes)
    && (c.EditTooLarge? ==> c.size == env.size > MaxSizeBytes)
    && (c == EditUploading ==> env.size <= MaxSizeBytes)
  }

  /** Every call of the stretch after the download is a ScriptCall. */
  lemma DeliveryFacts(tag: string, id: string, entries: map<string, string>, env: Env, disk: set<string>)
    ensures forall c | c in Delivery(tag, env.filepath, disk, env.size).0 :: ScriptCall(c, tag, id, entries, env)
  {
    var filename := env.filepath;
    if !ExistsFile(filename, disk) {
      assert ScriptCall(EditFileMissing, tag, id, entries, env);
    } else if env.size > MaxSizeBytes {
      assert ScriptCall(GetSize(filename.value), tag, id, entries, env);
      assert ScriptCall(EditTooLarge(env.size), tag, id, entries, env);
    } else {
      assert ScriptCall(GetSize(filename.value), tag, id, entries, env);
      assert ScriptCall(EditUploading, tag, id, entries, env);
      assert ScriptCall(SendMedia(MediaFor(tag), filename.value), tag, id, entries, env);
      assert ScriptCall(DeleteStatus, tag, id, entries, env);
    }
  }

  /** Every call of the script of a claimed request is a ScriptCall. */
  lemma ClaimScriptFacts(tag: string, id: string, entries: map<string, string>, disk: set<string>, env: Env)
    ensures forall c | c in ClaimScript(tag, id, entries, disk, env) :: ScriptCall(c, tag, id, entries, env)
  {
    var link := Pending.Lookup(entries, id);
    if !Truthy(link) {
      assert ScriptCall(AnswerExpired, tag, id, entries, env) && ScriptCall(EditExpired, tag, id, entries, env);
    } else {
      var head := [AnswerDownloading, EditProcessing, Extract(link.value, OptionsFor(tag, id))];
      var tail := Delivery(tag, env.filepath, AfterDownload(disk, env), env.size).0;
      assert forall c | c in head :: ScriptCall(c, tag, id, entries, env);
      DeliveryFacts(tag, id, entries, env, AfterDownload(disk, env));
      assert ClaimScript(tag, id, entries, disk, env) == head + tail;
    }
  }

  /** Every call of the script of a parsed payload is a ScriptCall; an unparsed payload has no script. */
  lemma ScriptFacts(data: string, entries: map<string, string>, disk: set<string>, env: Env)
    ensures Parse(data).None? ==> Script(data, entries, disk, env) == []
    ensures Parse(data).Some? ==>
      forall c | c in Script(data, entries, disk, env) ::
        ScriptCall(c, Parse(data).value.0, Parse(data).value.1, entries, env)
  {
    if Parse(data).Some? {
      var (tag, id) := Parse(data).value;
      ClaimScriptFacts(tag, id, entries, disk, env);
    }
  }

  /** Once the payload has split, the try block makes a prefix of its script, the whole of it when it returns. */
  lemma ClaimBlockFollowsScript(tag: string, id: string, entries: map<string, string>, disk: set<string>, env: Env)
    ensures var st := ClaimBlock(tag, id, entries, disk, env);
      var script := ClaimScript(tag, id, entries, disk, env);
      && st.calls <= script
      && (st.exit.Returned? ==> st.calls == script)
  {
    var link := Pending.Lookup(entries, id);
    if Truthy(link) {
      var head := [AnswerDownloading, EditProcessing, Extract(link.value, OptionsFor(tag, id))];
      var fetch := Execute(head, env.fails);
      if !fetch.raised {
        var tail := Delivery(tag, env.filepath, AfterDownload(disk, env), env.size).0;
        var deliver := Execute(tail, env.fails);
        assert fetch.calls == head;
        assert head + deliver.calls <= head + tail;
      }
    }
  }

  /** The try block makes a prefix of its script, the whole of it when it returns. */
  lemma TryBlockFollowsScript(data: string, entries: map<string, string>, disk: set<string>, env: Env)
    ensures var st := TryBlock(data, entries, disk, env);
      var script := Script(data, entries, disk, env);
      && st.calls <= script
      && (forall c | c in st.calls :: c in script)
      && (st.exit.Returned? ==> st.calls == script)
  {
    if Parse(data).Some? {
      var (tag, id) := Parse(data).value;
      ClaimBlockFollowsScript(tag, id, entries, disk, env);
    }
  }

  /**
   * How the try block ends once the payload has split: the file name it leaves is the
   * reported one or none; the only file it can add is the reported one, and only with
   * that name left set; TooLarge means the file is above the limit and nothing was
   * uploaded; Uploaded means it is within the limit and was uploaded under that name as
   * the tag's kind of media.
   */
  lemma ClaimBlockEnd(tag: string, id: string, entries: map<string, string>, disk: set<string>, env: Env)
    ensures var st := ClaimBlock(tag, id, entries, disk, env);
      && (st.filename == None || st.filename == env.filepath)
      && (st.disk == disk || (st.disk == AfterDownload(disk, env) && st.filename == env.filepath))
      && (st.exit == Returned(TooLarge) ==> env.size > MaxSizeBytes && forall c | c in st.calls :: !c.SendMedia?)
      && (st.exit == Returned(Uploaded) ==>
            && env.size <= MaxSizeBytes && Truthy(st.filename)
            && SendMedia(MediaFor(tag), st.filename.value) in st.calls)
  {
    var link := Pending.Lookup(entries, id);
    if Truthy(link) {
      var head := [AnswerDownloading, EditProcessing, Extract(link.value, OptionsFor(tag, id))];
      var fetch := Execute(head, env.fails);
      if !fetch.raised {
        var d := AfterDownload(disk, env);
        var (tail, outcome) := Delivery(tag, env.filepath, d, env.size);
        var deliver := Execute(tail, env.fails);
        if !deliver.raised {
          assert deliver.calls == tail;
          if outcome == Uploaded {
            assert tail[2] == SendMedia(MediaFor(tag), env.filepath.value);
          }
        }
      }
    }
  }

  /** ClaimBlockEnd, for the whole try block. */
  lemma TryBlockEnd(data: string, entries: map<string, string>, disk: set<string>, env: Env)
    ensures var st := TryBlock(data, entries, disk, env);
      && (st.filename == None || st.filename == env.filepath)
      && (st.disk == disk || (st.disk == AfterDownload(disk, env) && st.filename == env.filepath))
      && (st.exit == Returned(TooLarge) ==> env.size > MaxSizeBytes && forall c | c in st.calls :: !c.SendMedia?)
      && (st.exit == Returned(Uploaded) ==>
            && env.size <= MaxSizeBytes && Parse(data).Some? && Truthy(st.filename)
            && SendMedia(MediaFor(Parse(data).value.0), st.filename.value) in st.calls)
  {
    if Parse(data).Some? {
      var (tag, id) := Parse(data).value;
      ClaimBlockEnd(tag, id, entries, disk, env);
    }
  }

  /** The calls respect the size limit: no too-large notice at or below it, no upload above it. */
  ghost predicate SizeRespected(calls: seq<Call>, size: nat) {
    && (forall c | c in calls && c.EditTooLarge? :: c.size == size > MaxSizeBytes)
    && (forall c | c in calls && c.SendMedia? :: size <= MaxSizeBytes)
    && (EditUploading in calls ==> size <= MaxSizeBytes)
  }

  /** The try block respects the size limit. */
  lemma TryBlockSize(data: string, entries: map<string, string>, disk: set<string>, env: Env)
    ensures SizeRespected(TryBlock(data, entries, disk, env).calls, env.size)
  {
    ScriptFacts(data, entries, disk, env);
    TryBlockFollowsScript(data, entries, disk, env);
  }

  /** The except and finally clauses add no size-dependent call and keep the try block's outcome. */
  lemma ConcludeSize(st: Stage, env: Env)
    requires st.exit.Returned? ==> !st.exit.outcome.Failed?
    requires SizeRespected(st.calls, env.size)
    ensures var run := Conclude(st, env);
      && SizeRespected(run.calls, env.size)
      && (run.outcome == TooLarge ==> st.exit == Returned(TooLarge))
      && (run.outcome == Uploaded ==> st.exit == Returned(Uploaded))
      && (forall c | c in run.calls && c.SendMedia? :: c in st.calls)
  {
  }

  /**
   * The finally clause removes only the try block's file: given where that file can come
   * from, the files added or removed are at most the reported one, and an added one stays
   * only when its removal raised.
   */
  lemma ConcludeDisk(st: Stage, env: Env, disk: set<string>)
    requires st.exit.Returned? ==> !st.exit.outcome.Failed?
    requires st.filename == None || st.filename == env.filepath
    requires st.disk == disk || (st.disk == AfterDownload(disk, env) && st.filename == env.filepath)
    ensures var run := Conclude(st, env);
      && (forall p | p in run.disk && p !in disk :: RemoveFile(p) in env.fails)
      && (forall p | p in disk && p !in run.disk :: RemoveFile(p) in run.calls)
      && (forall p | p in run.disk && p !in disk :: Truthy(env.filepath) && p == env.filepath.value)
      && (forall p | p in disk && p !in run.disk :: Truthy(env.filepath) && p == env.filepath.value)
  {
  }

  /** A payload that does not split into two parts takes the generic error path and touches nothing. */
  lemma MalformedPayload(data: string, entries: map<string, string>, disk: set<string>, env: Env)
    requires Parse(data).None?
    ensures var run := Handle(data, entries, disk, env);
      && run.outcome.Failed?
      && run.entries == entries && run.disk == disk
      && run.calls == Except([], env.fails).1
  {
  }

  /** A payload that parses pops its id from the table, whatever happens afterwards. */
  lemma ClaimConsumesEntry(data: string, entries: map<string, string>, disk: set<string>, env: Env, tag: string, id: string)
    requires Parse(data) == Some((tag, id))
    ensures Handle(data, entries, disk, env).entries == entries - {id}
  {
    assert TryBlock(data, entries, disk, env).entries == entries - {id};
  }

  /**
   * An id with no (or an empty) link in the table ends in Expired once both notices go
   * through, and never starts a download or touches a file.
   */
  lemma ExpiredWithoutDownload(data: string, entries: map<string, string>, disk: set<string>, env: Env, tag: string, id: string)
    requires Parse(data) == Some((tag, id))
    requires id !in entries || entries[id] == ""
    ensures var run := Handle(data, entries, disk, env);
      && run.disk == disk
      && (forall c | c in run.calls :: !c.Extract?)
      && (AnswerExpired !in env.fails && EditExpired !in env.fails ==>
            run.outcome == Expired && run.calls == [AnswerExpired, EditExpired])
  {
  }

  /** The outcome is Expired only for a parsed payload whose id had no link to hand out. */
  lemma ExpiredOnlyWhenUnclaimed(data: string, entries: map<string, string>, disk: set<string>, env: Env)
    requires Handle(data, entries, disk, env).outcome == Expired
    ensures Parse(data).Some?
    ensures var id := Parse(data).value.1; id !in entries || entries[id] == ""
  {
    var st := TryBlock(data, entries, disk, env);
    assert st.exit == Returned(Expired);
    var (tag, id) := Parse(data).value;
    ClaimBlockExpired(tag, id, entries, disk, env);
  }

  /** Once the payload has split, the try block returns Expired only when the claimed link is missing or empty. */
  lemma ClaimBlockExpired(tag: string, id: string, entries: map<string, string>, disk: set<string>, env: Env)
    requires ClaimBlock(tag, id, entries, disk, env).exit == Returned(Expired)
    ensures !Truthy(Pending.Lookup(entries, id))
  {
  }

  /** A download is started only for the link stored under the payload's id, with that tag's options. */
  lemma DownloadOnlyForClaimedLink(data: string, entries: map<string, string>, disk: set<string>, env: Env)
    ensures var run := Handle(data, entries, disk, env);
      forall c | c in run.calls && c.Extract? ::
        && Parse(data).Some?
        && var (tag, id) := Parse(data).value;
        && id in entries && c.link == entries[id] && c.link != ""
        && c.options == OptionsFor(tag, id)
        && (c.options == AudioOptions(id) <==> tag == Mp3Tag)
  {
    ScriptFacts(data, entries, disk, env);
    TryBlockFollowsScript(data, entries, disk, env);
  }

  /** The uploaded file is sent as audio exactly when the tag is "mp3". */
  lemma UploadKindFollowsTag(data: string, entries: map<string, string>, disk: set<string>, env: Env)
    ensures var run := Handle(data, entries, disk, env);
      forall c | c in run.calls && c.SendMedia? ::
        Parse(data).Some? && (c.media == Audio <==> Parse(data).value.0 == Mp3Tag)
  {
    ScriptFacts(data, entries, disk, env);
    TryBlockFollowsScript(data, entries, disk, env);
  }

  /**
   * Pressing a button twice: after the first callback (whatever its outcome) the id is
   * gone, so the second callback starts no download and, once both notices go through,
   * ends in Expired.
   */
  lemma SecondPressExpires(data: string, entries: map<string, string>, disk: set<string>, env1: Env, env2: Env)
    requires Parse(data).Some?
    ensures var run1 := Handle(data, entries, disk, env1);
      var run2 := Handle(data, run1.entries, run1.disk, env2);
      && Parse(data).value.1 !in run1.entries
      && run2.entries == run1.entries
      && run2.disk == run1.disk
      && (forall c | c in run2.calls :: !c.Extract?)
      && (AnswerExpired !in env2.fails && EditExpired !in env2.fails ==> run2.outcome == Expired)
  {
    var (tag, id) := Parse(data).value;
    var run1 := Handle(data, entries, disk, env1);
    ClaimConsumesEntry(data, entries, disk, env1, tag, id);
    ExpiredWithoutDownload(data, run1.entries, run1.disk, env2, tag, id);
  }

  /**
   * The size limit is 50 * 1024 * 1024 bytes. The too-large notice is given only above
   * it and the upload only at or below it; TooLarge means larger and nothing sent,
   * Uploaded means at most that large and the file sent.
   */
  lemma SizeLimit(data: string, entries: map<string, string>, disk: set<string>, env: Env)
    ensures MaxSizeBytes == 52428800
    ensures var run := Handle(data, entries, disk, env);
      && (forall c | c in run.calls && c.EditTooLarge? :: c.size == env.size > MaxSizeBytes)
      && (forall c | c in run.calls && c.SendMedia? :: env.size <= MaxSizeBytes)
      && (EditUploading in run.calls ==> env.size <= MaxSizeBytes)
      && (run.outcome == TooLarge ==> env.size > MaxSizeBytes && forall c | c in run.calls :: !c.SendMedia?)
      && (run.outcome == Uploaded ==> env.size <= MaxSizeBytes && exists c | c in run.calls :: c.SendMedia?)
  {
    var st := TryBlock(data, entries, disk, env);
    TryBlockSize(data, entries, disk, env);
    TryBlockEnd(data, entries, disk, env);
    ConcludeSize(st, env);
    if st.exit == Returned(Uploaded) {
      var c := SendMedia(MediaFor(Parse(data).value.0), st.filename.value);
      assert c in Conclude(st, env).calls;
    }
  }

  /**
   * The decision at the size check is exact: when the link was claimed, nothing raises
   * and the file exists, the handler returns TooLarge iff the file has more than
   * 50 * 1024 * 1024 bytes, and uploads it otherwise, a file of exactly 50 MB included.
   */
  lemma SizeDecision(data: string, entries: map<string, string>, disk: set<string>, env: Env, tag: string, id: string)
    requires Parse(data) == Some((tag, id)) && id in entries && entries[id] != ""
    requires env.fails == {} && ExistsFile(env.filepath, AfterDownload(disk, env))
    ensures Handle(data, entries, disk, env).outcome == if env.size > MaxSizeBytes then TooLarge else Uploaded
  {
    var st := ClaimBlock(tag, id, entries, disk, env);
    assert TryBlock(data, entries, disk, env) == st;
    var head := [AnswerDownloading, EditProcessing, Extract(entries[id], OptionsFor(tag, id))];
    assert !Execute(head, env.fails).raised;
    assert !Execute(Delivery(tag, env.filepath, AfterDownload(disk, env), env.size).0, env.fails).raised;
    assert st.exit == Returned(if env.size > MaxSizeBytes then TooLarge else Uploaded);
  }

  /**
   * Cleanup on every exit path: whenever the try block ends (returning early, succeeding
   * or raising) with a file name that exists, the last call removes that file, and the
   * file is gone unless the removal raised.
   */
  lemma CleanupOnEveryPath(data: string, entries: map<string, string>, disk: set<string>, env: Env)
    ensures var st := TryBlock(data, entries, disk, env);
      var run := Handle(data, entries, disk, env);
      && (ExistsFile(st.filename, st.disk) ==>
            && run.calls != [] && run.calls[|run.calls| - 1] == RemoveFile(st.filename.value)
            && (st.filename.value in run.disk <==> RemoveFile(st.filename.value) in env.fails))
      && (!ExistsFile(st.filename, st.disk) ==> forall c | c in run.calls :: !c.RemoveFile?)
  {
    ScriptFacts(data, entries, disk, env);
    TryBlockFollowsScript(data, entries, disk, env);
  }

  /**
   * The handler never leaves a file behind unless removing it raised, and the only file it
   * can add or remove is the one the download library reported.
   */
  lemma NoFileLeftBehind(data: string, entries: map<string, string>, disk: set<string>, env: Env)
    ensures var run := Handle(data, entries, disk, env);
      && (forall p | p in run.disk && p !in disk :: RemoveFile(p) in env.fails)
      && (forall p | p in disk && p !in run.disk :: RemoveFile(p) in run.calls)
      && (forall p | p in run.disk && p !in disk :: Truthy(env.filepath) && p == env.filepath.value)
      && (forall p | p in disk && p !in run.disk :: Truthy(env.filepath) && p == env.filepath.value)
  {
    TryBlockEnd(data, entries, disk, env);
    ConcludeDisk(TryBlock(data, entries, disk, env), env, disk);
  }

  /**
   * Every failure is reported: the status message is edited, and if that raises a new
   * message is sent instead. A failure is exactly a try block that raised.
   */
  lemma FailureIsReported(data: string, entries: map<string, string>, disk: set<string>, env: Env)
    ensures var run := Handle(data, entries, disk, env);
      && (run.outcome.Failed? <==> TryBlock(data, entries, disk, env).exit.Raised?)
      && (run.outcome.Failed? ==>
            && EditError in run.calls
            && (run.outcome.report == StatusEdited <==> EditError !in env.fails)
            && (EditError in env.fails ==> SendError in run.calls)
            && (run.outcome.report == ReportRaised <==> EditError in env.fails && SendError in env.fails))
  {

  }

  /** The happy path's calls, as three stretches laid end to end. */
  lemma FlattenEight(c0: Call, c1: Call, c2: Call, c3: Call, c4: Call, c5: Call, c6: Call, c7: Call)
    ensures [c0, c1, c2] + [c3, c4, c5, c6] + [c7] == [c0, c1, c2, c3, c4, c5, c6, c7]
  {
  }

  /** When nothing raises and the file fits, the handler uploads it and removes it, in this order. */
  lemma HappyPath(data: string, entries: map<string, string>, disk: set<string>, env: Env, tag: string, id: string, path: string)
    requires Parse(data) == Some((tag, id))
    requires id in entries && entries[id] != ""
    requires env.fails == {} && env.written && env.filepath == Some(path) && path != ""
    requires env.size <= MaxSizeBytes
    ensures Handle(data, entries, disk, env) ==
      Run(Uploaded,
          [AnswerDownloading, EditProcessing, Extract(entries[id], OptionsFor(tag, id)),
           GetSize(path), EditUploading, SendMedia(MediaFor(tag), path), DeleteStatus, RemoveFile(path)],
          entries - {id},
          disk - {path})
  {
    var extract := Extract(entries[id], OptionsFor(tag, id));
    var delivered := [GetSize(path), EditUploading, SendMedia(MediaFor(tag), path), DeleteStatus];
    var disk' := disk + {path};
    assert AfterDownload(disk, env) == disk' && ExistsFile(Some(path), disk');
    assert Delivery(tag, Some(path), disk', env.size) == (delivered, Uploaded);
    assert Execute([AnswerDownloading, EditProcessing, extract], {}).calls == [AnswerDownloading, EditProcessing, extract];
    assert Execute(delivered, {}).calls == delivered;
    var st := TryBlock(data, entries, disk, env);
    assert st == ClaimBlock(tag, id, entries, disk, env);
    assert st == Stage(Returned(Uploaded), [AnswerDownloading, EditProcessing, extract] + delivered, entries - {id}, disk', Some(path));
    assert Finally(st.calls, Some(path), disk', {}) == (st.calls + [RemoveFile(path)], disk' - {path});
    assert disk' - {path} == disk - {path};
    assert Conclude(st, env) == Run(Uploaded, st.calls + [RemoveFile(path)], entries - {id}, disk - {path});
    FlattenEight(AnswerDownloading, EditProcessing, extract, GetSize(path), EditUploading, SendMedia(MediaFor(tag), path), DeleteStatus, RemoveFile(path));
    assert Handle(data, entries, disk, env) == Conclude(st, env);
  }
}
