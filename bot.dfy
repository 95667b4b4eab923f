/**
 * The bot's two handlers over its process-wide state: the pending table and the
 * files in the download directory. The message handler registers an accepted link
 * and offers the two format buttons; the callback handler runs the steps of
 * Handler.Handle one call at a time and is proved to do exactly what it describes.
 */
module Bot {
  import opened Wrappers
  import opened Links
  import opened Token
  import opened Handler
  import opened Pending
  import HandlerProperties

  /** The answer to an incoming message: a refusal, or the payloads of the mp3 and mp4 buttons. */
  datatype Reply = Rejected | Offered(mp3Data: string, mp4Data: string)

  /** Every link a table holds was accepted by the link check. */
  ghost predicate AllAccepted(entries: map<string, string>) {
    forall id | id in entries :: IsYouTubeLink(entries[id])
  }

  /** Storing an accepted link keeps every link of the table accepted. */
  lemma RegisterKeepsAccepted(entries: map<string, string>, id: string, link: string)
    requires AllAccepted(entries) && IsYouTubeLink(link)
    ensures AllAccepted(entries[id := link])
  {
  }

  /** An accepted link is never empty, so every link of such a table counts as present when claimed. */
  lemma AcceptedLinksAreTruthy(entries: map<string, string>, id: string)
    requires AllAccepted(entries)
    ensures Truthy(Lookup(entries, id)) <==> id in entries
  {
    if id in entries {
      AcceptedIsLong(entries[id]);
    }
  }

  /** The callback handler only removes entries; what it keeps, it keeps unchanged. */
  lemma HandleShrinksTable(data: string, entries: map<string, string>, disk: set<string>, env: Env)
    ensures var run := Handle(data, entries, disk, env);
      forall id | id in run.entries :: id in entries && run.entries[id] == entries[id]
  {
    var st := TryBlock(data, entries, disk, env);
    assert st.entries == entries || exists id :: st.entries == entries - {id};
  }

  /**
   * For a table of accepted links the callback outcome is Expired exactly for an id the
   * table does not hold, once the expired notices go through; and a payload naming a
   * held id always starts its download once the first two status calls go through.
   */
  lemma ExpiredIffUnknown(data: string, entries: map<string, string>, disk: set<string>, env: Env, tag: string, id: string)
    requires AllAccepted(entries)
    requires Parse(data) == Some((tag, id))
    ensures Handle(data, entries, disk, env).outcome == Expired ==> id !in entries
    ensures id !in entries && AnswerExpired !in env.fails && EditExpired !in env.fails ==>
      Handle(data, entries, disk, env).outcome == Expired
    ensures id in entries && AnswerDownloading !in env.fails && EditProcessing !in env.fails ==>
      Extract(entries[id], OptionsFor(tag, id)) in Handle(data, entries, disk, env).calls
  {
    AcceptedLinksAreTruthy(entries, id);
    var st := ClaimBlock(tag, id, entries, disk, env);
    assert TryBlock(data, entries, disk, env) == st;
    if Handle(data, entries, disk, env).outcome == Expired {
      HandlerProperties.ExpiredOnlyWhenUnclaimed(data, entries, disk, env);
    }
    if id !in entries && AnswerExpired !in env.fails && EditExpired !in env.fails {
      ExecuteCons(AnswerExpired, [EditExpired], env.fails);
      ExecuteCons(EditExpired, [], env.fails);
      assert st.exit == Returned(Expired);
    }
    if id in entries && AnswerDownloading !in env.fails && EditProcessing !in env.fails {
      var extract := Extract(entries[id], OptionsFor(tag, id));
      ExecuteCons(AnswerDownloading, [EditProcessing, extract], env.fails);
      ExecuteCons(EditProcessing, [extract], env.fails);
      ExecuteCons(extract, [], env.fails);
      assert Execute([AnswerDownloading, EditProcessing, extract], env.fails).calls[2] == extract;
      assert extract in st.calls;
    }
  }

  /**
   * The expired branch: answer the callback, then edit the status message, stopping at
   * the first call that raises, exactly as Execute runs that stretch.
   */
  method Notify(fails: set<Call>) returns (calls: seq<Call>, raised: bool)
    ensures Executed(calls, raised) == Execute([AnswerExpired, EditExpired], fails)
  {
    ExecuteCons(AnswerExpired, [EditExpired], fails);
    ExecuteCons(EditExpired, [], fails);
    calls := [AnswerExpired];
    if AnswerExpired in fails { return calls, true; }
    calls := calls + [EditExpired];
    raised := EditExpired in fails;
  }

  /**
   * The download stretch: answer the callback, show the processing notice, pick the
   * options by the tag and run the download library on the link.
   */
  method Fetch(link: string, tag: string, id: string, fails: set<Call>) returns (calls: seq<Call>, raised: bool)
    ensures Executed(calls, raised) ==
      Execute([AnswerDownloading, EditProcessing, Extract(link, OptionsFor(tag, id))], fails)
  {
    var extract := Extract(link, OptionsFor(tag, id));
    ExecuteCons(AnswerDownloading, [EditProcessing, extract], fails);
    ExecuteCons(EditProcessing, [extract], fails);
    ExecuteCons(extract, [], fails);
    calls := [AnswerDownloading];
    if AnswerDownloading in fails { return calls, true; }
    calls := calls + [EditProcessing];
    if EditProcessing in fails { return calls, true; }
    var options;
    if tag == Mp3Tag {
      options := AudioOptions(id);
    } else {
      options := VideoOptions(id);
    }
    calls := calls + [Extract(link, options)];
    raised := Extract(link, options) in fails;
  }

  /**
   * The upload stretch: look up the size, show the uploading notice, send the file as
   * the tag's kind of media and delete the status message.
   */
  method Upload(tag: string, path: string, fails: set<Call>) returns (calls: seq<Call>, raised: bool)
    ensures Executed(calls, raised) ==
      Execute([GetSize(path), EditUploading, SendMedia(MediaFor(tag), path), DeleteStatus], fails)
  {
    var media := if tag == Mp3Tag then Audio else Video;
    ExecuteCons(GetSize(path), [EditUploading, SendMedia(media, path), DeleteStatus], fails);
    ExecuteCons(EditUploading, [SendMedia(media, path), DeleteStatus], fails);
    ExecuteCons(SendMedia(media, path), [DeleteStatus], fails);
    ExecuteCons(DeleteStatus, [], fails);
    calls := [GetSize(path)];
    if GetSize(path) in fails { return calls, true; }
    calls := calls + [EditUploading];
    if EditUploading in fails { return calls, true; }
    calls := calls + [SendMedia(media, path)];
    if SendMedia(media, path) in fails { return calls, true; }
    calls := calls + [DeleteStatus];
    raised := DeleteStatus in fails;
  }

  /**
   * After the download: report a missing file, or look up the size and refuse a file
   * above the limit, or upload it; the calls are Delivery's stretch as Execute runs it,
   * and a return carries Delivery's outcome.
   */
  method Deliver(tag: string, filename: Option<string>, disk: set<string>, size: nat, fails: set<Call>)
    returns (calls: seq<Call>, exit: Exit)
    ensures Executed(calls, exit.Raised?) == Execute(Delivery(tag, filename, disk, size).0, fails)
    ensures exit.Returned? ==> exit.outcome == Delivery(tag, filename, disk, size).1
  {
    var raised;
    if filename.None? || filename.value == "" || filename.value !in disk {
      ExecuteCons(EditFileMissing, [], fails);
      calls := [EditFileMissing];
      raised := EditFileMissing in fails;
      exit := if raised then Raised else Returned(FileMissing);
    } else if size > MaxSizeBytes {
      var path := filename.value;
      ExecuteCons(GetSize(path), [EditTooLarge(size)], fails);
      ExecuteCons(EditTooLarge(size), [], fails);
      calls := [GetSize(path)];
      if GetSize(path) in fails { return calls, Raised; }
      calls := calls + [EditTooLarge(size)];
      raised := EditTooLarge(size) in fails;
      exit := if raised then Raised else Returned(TooLarge);
    } else {
      calls, raised := Upload(tag, filename.value, fails);
      exit := if raised then Raised else Returned(Uploaded);
    }
  }

  /**
   * The except clause: edit the status message with the failure notice; when that edit
   * raises, send the notice as a new message; when that raises too, the report fails.
   */
  method ReportFailure(calls: seq<Call>, fails: set<Call>) returns (outcome: Outcome, calls': seq<Call>)
    ensures (outcome, calls') == Except(calls, fails)
  {
    calls' := calls + [EditError];
    if EditError !in fails {
      return Failed(StatusEdited), calls';
    }
    calls' := calls' + [SendError];
    assert calls' == calls + [EditError, SendError];
    outcome := if SendError in fails then Failed(ReportRaised) else Failed(NewMessageSent);
  }

  /**
   * The finally clause: remove the downloaded file when `filename` names one that exists;
   * a removal that raises is caught and the file stays.
   */
  method Cleanup(calls: seq<Call>, filename: Option<string>, disk: set<string>, fails: set<Call>)
    returns (calls': seq<Call>, disk': set<string>)
    ensures (calls', disk') == Finally(calls, filename, disk, fails)
  {
    calls', disk' := calls, disk;
    if filename.Some? && filename.value != "" && filename.value in disk {
      var path := filename.value;
      calls' := calls' + [RemoveFile(path)];
      if RemoveFile(path) !in fails {
        disk' := disk' - {path};
      }
    }
  }

  class DownloadBot {
    /** The process-wide table `pendientes`. */
    const table: PendingTable
    /** The files present in the download directory. */
    var disk: set<string>

    /** Every pending link passed the link check when it was registered. */
    ghost predicate Valid()
      reads this, table
    {
      AllAccepted(table.entries)
    }

    /** A bot starts with an empty table over the files already on disk. */
    constructor (files: set<string>)
      ensures fresh(table) && table.entries == map[] && disk == files
      ensures Valid()
    {
      table := new PendingTable();
      disk := files;
    }

    /**
     * The message handler: strips the text; refuses it, changing nothing, unless it passes
     * the link check; otherwise stores it under the fresh request id `id` (overwriting an
     * entry with the same id) and offers one button per format, whose payloads parse back
     * to that format and `id` when `id` holds no separator.
     */
    method ReceiveLink(text: string, id: string) returns (reply: Reply)
      requires Valid()
      modifies table
      ensures Valid()
      ensures reply == Rejected <==> !IsYouTubeLink(Strip(text))
      ensures reply == Rejected ==> table.entries == old(table.entries)
      ensures reply != Rejected ==>
        && table.entries == old(table.entries)[id := Strip(text)]
        && reply == Offered(Encode(Mp3Tag, id), Encode(Mp4Tag, id))
      ensures reply != Rejected && Separator !in id ==>
        Parse(reply.mp3Data) == Some((Mp3Tag, id)) && Parse(reply.mp4Data) == Some((Mp4Tag, id))
    {
      var link := Strip(text);
      if !IsYouTubeLink(link) {
        return Rejected;
      }
      ghost var entries := table.entries;
      table.Register(id, link);
      RegisterKeepsAccepted(entries, id, link);
      reply := Offered(Encode(Mp3Tag, id), Encode(Mp4Tag, id));
      if Separator !in id {
        ButtonsParse(id);
      }
    }

    /**
     * The try block of the callback handler: split the payload, pop its id from the
     * table, then the expired branch or the download and delivery. It leaves the table,
     * the files and the local `filename` as TryBlock says, and reports how it was left.
     */
    method RunTry(data: string, env: Env) returns (exit: Exit, calls: seq<Call>, filename: Option<string>)
      modifies this, table
      ensures Stage(exit, calls, table.entries, disk, filename) == TryBlock(data, old(table.entries), old(disk), env)
    {
      filename := None;
      var parsed := Parse(data);
      if parsed.None? {
        return Raised, [], filename;
      }
      var (tag, id) := parsed.value;
      var link := table.Claim(id);
      var raised;
      if link.None? || link.value == "" {
        calls, raised := Notify(env.fails);
        exit := if raised then Raised else Returned(Expired);
        return;
      }
      calls, raised := Fetch(link.value, tag, id, env.fails);
      if raised {
        return Raised, calls, filename;
      }
      if env.written && Truthy(env.filepath) {
        disk := disk + {env.filepath.value};
      }
      filename := env.filepath;
      var more;
      more, exit := Deliver(tag, filename, disk, env.size, env.fails);
      calls := calls + more;
    }

    /**
     * The callback handler: the try block, then the except clause that reports a failure
     * (editing the status message, or sending a new one when that raises), then the
     * finally clause that removes the downloaded file if it exists. Its outcome, its calls
     * and the new table and files are exactly Handle's, and the table stays valid.
     */
    method ProcessCallback(data: string, env: Env) returns (outcome: Outcome, calls: seq<Call>)
      requires Valid()
      modifies this, table
      ensures Run(outcome, calls, table.entries, disk) == Handle(data, old(table.entries), old(disk), env)
      ensures Valid()
    {
      ghost var entries0, disk0 := table.entries, disk;
      var exit, filename;
      exit, calls, filename := RunTry(data, env);
      ghost var st := Stage(exit, calls, table.entries, disk, filename);
      assert st == TryBlock(data, entries0, disk0, env);
      HandleShrinksTable(data, entries0, disk0, env);
      if exit.Raised? {
        outcome, calls := ReportFailure(calls, env.fails);
      } else {
        outcome := exit.outcome;
      }
      assert (outcome, calls) == if st.exit.Raised? then Except(st.calls, env.fails) else (st.exit.outcome, st.calls);
      calls, disk := Cleanup(calls, filename, disk, env.fails);
      assert Run(outcome, calls, table.entries, disk) == Conclude(st, env);
    }
  }
}
