/**
 * What the callback handler does when a format button is pressed, as a function
 * of the button payload, the pending table, the files in the download directory
 * and the answers of the outside world.
 *
 * Every call the handler makes into the chat client, the download library or
 * the file system is recorded, in order, as a `Call`; the environment `Env`
 * says which of them raise, which file path the download library reports,
 * whether that file was written, and how large it is. The handler's body is a
 * try block (TryBlock), an except clause that reports the failure, and a
 * finally clause that removes the downloaded file (Handle).
 */
module Handler {
  import opened Wrappers
  import opened Token
  import Pending

  const DownloadDir: string := "/tmp/descargas"
  const FfmpegPath: string := "/usr/bin/ffmpeg"
  /** The chat platform's upload limit, in MB of 1024 * 1024 bytes. */
  const MaxSizeMb: nat := 50
  const MaxSizeBytes: nat := MaxSizeMb * 1024 * 1024

  /** POSIX `os.path.join(a, b)`: an absolute `b` replaces `a`; otherwise one '/' separates them. */
  function PathJoin(a: string, b: string): (p: string)
    ensures |b| > 0 && b[0] == '/' ==> p == b
    ensures !(|b| > 0 && b[0] == '/') ==> a <= p && |b| <= |p| && p[|p| - |b|..] == b
    ensures !(|b| > 0 && b[0] == '/') ==> p == a + b || p == a + "/" + b
    ensures !(|b| > 0 && b[0] == '/') && a != [] && a[|a| - 1] != '/' ==> p == a + "/" + b
  {
    if |b| > 0 && b[0] == '/' then b
    else if a == [] || a[|a| - 1] == '/' then a + b
    else a + "/" + b
  }

  /**
   * The output template handed to the download library: `<DownloadDir>/<id>.%(ext)s`
   * for an id that does not start with '/'; an id that does is taken as an absolute path.
   */
  function OutputTemplate(id: string): (t: string)
    ensures (id == [] || id[0] != '/') ==> t == DownloadDir + "/" + id + ".%(ext)s"
    ensures !(id == [] || id[0] != '/') ==> t == id + ".%(ext)s"
  {
    assert (id + ".%(ext)s")[0] == (if id == [] then '.' else id[0]);
    PathJoin(DownloadDir, id + ".%(ext)s")
  }

  /** A post-processing step of the download library. */
  datatype PostProcessor = ExtractAudio(codec: string, quality: string)

  /** The option dictionary passed to the download library. */
  datatype DownloadOptions = DownloadOptions(
    format: string,
    postprocessors: seq<PostProcessor>,
    mergeOutputFormat: Option<string>,
    ffmpegLocation: string,
    outputTemplate: string,
    noPlaylist: bool)

  /** Best audio stream, converted to 192 kbit/s mp3. */
  function AudioOptions(id: string): (o: DownloadOptions)
    ensures o.format == "bestaudio/best" && o.postprocessors == [ExtractAudio("mp3", "192")]
    ensures o.mergeOutputFormat.None? && o.ffmpegLocation == FfmpegPath
    ensures o.outputTemplate == OutputTemplate(id) && o.noPlaylist
  {
    DownloadOptions("bestaudio/best", [ExtractAudio("mp3", "192")], None,
                    FfmpegPath, OutputTemplate(id), true)
  }

  /** Best mp4 video of at most 720 lines plus m4a audio, merged into mp4. */
  function VideoOptions(id: string): (o: DownloadOptions)
    ensures o.format == "bestvideo[height<=720][ext=mp4]+bestaudio[ext=m4a]/best[ext=mp4]/best"
    ensures o.postprocessors == [] && o.mergeOutputFormat == Some("mp4") && o.ffmpegLocation == FfmpegPath
    ensures o.outputTemplate == OutputTemplate(id) && o.noPlaylist
  {
    DownloadOptions("bestvideo[height<=720][ext=mp4]+bestaudio[ext=m4a]/best[ext=mp4]/best", [], Some("mp4"),
                    FfmpegPath, OutputTemplate(id), true)
  }

  /** Format dispatch: the audio option set for tag "mp3", the video one for every other tag. */
  function OptionsFor(tag: string, id: string): (o: DownloadOptions)
    ensures o == AudioOptions(id) <==> tag == Mp3Tag
    ensures o == VideoOptions(id) <==> tag != Mp3Tag
    ensures o.outputTemplate == OutputTemplate(id) && o.ffmpegLocation == FfmpegPath && o.noPlaylist
  {
    if tag == Mp3Tag then AudioOptions(id) else VideoOptions(id)
  }

  /** How the file is uploaded: as audio (with a title) or as streamable video (with a caption). */
  datatype Media = Audio | Video

  function MediaFor(tag: string): (m: Media)
    ensures m == Audio <==> tag == Mp3Tag
  {
    if tag == Mp3Tag then Audio else Video
  }

  /** The calls the handler makes into the outside world. */
  datatype Call =
    | AnswerExpired                                   // callback answer: request no longer valid
    | EditExpired                                     // status message: request no longer valid
    | AnswerDownloading                               // callback answer: downloading
    | EditProcessing                                  // status message: processing
    | Extract(link: string, options: DownloadOptions) // download library run
    | EditFileMissing                                 // status message: file not found
    | GetSize(path: string)                           // file size lookup
    | EditTooLarge(size: nat)                         // status message: file too large
    | EditUploading                                   // status message: uploading
    | SendMedia(media: Media, path: string)           // open the file and upload it
    | DeleteStatus                                    // status message removed
    | EditError                                       // status message: generic failure
    | SendError                                       // new message: generic failure
    | RemoveFile(path: string)                        // local file deleted

  /** The outside world, as far as the handler can observe it. */
  datatype Env = Env(
    fails: set<Call>,           // the calls that raise
    filepath: Option<string>,   // the path the download library reports
    written: bool,              // whether the download left a file at that path
    size: nat)                  // that file's size in bytes

  /** How the failure was reported in the except clause. */
  datatype ErrorReport =
    | StatusEdited    // the status message now shows the failure
    | NewMessageSent  // editing raised, so a new message was sent instead
    | ReportRaised    // sending raised as well, and the exception leaves the handler

  datatype Outcome = Expired | FileMissing | TooLarge | Uploaded | Failed(report: ErrorReport)

  /** How the try block was left: by a return with an outcome, or by an exception. */
  datatype Exit = Returned(outcome: Outcome) | Raised

  /** The state at the end of the try block: its exit, the calls made, the table, the files, the local `filename`. */
  datatype Stage = Stage(
    exit: Exit,
    calls: seq<Call>,
    entries: map<string, string>,
    disk: set<string>,
    filename: Option<string>)

  /** The result of one callback: its outcome, every call made, the new table and the new files. */
  datatype Run = Run(outcome: Outcome, calls: seq<Call>, entries: map<string, string>, disk: set<string>)

  /** Python truthiness of an optional string: present and not empty. */
  function Truthy(s: Option<string>): (b: bool)
    ensures s == None || s == Some("") ==> !b
    ensures s.Some? && |s.value| > 0 ==> b
  {
    s.Some? && s.value != ""
  }

  /** `filename and os.path.exists(filename)`. */
  function ExistsFile(filename: Option<string>, disk: set<string>): (b: bool)
    ensures b ==> filename.Some? && filename.value != "" && filename.value in disk
    ensures !Truthy(filename) || filename.value !in disk ==> !b
  {
    Truthy(filename) && filename.value in disk
  }

  /** The calls of a straight stretch of code that were made, and whether the last of them raised. */
  datatype Executed = Executed(calls: seq<Call>, raised: bool)

  /**
   * Runs a straight stretch of calls in order until one raises: the calls made are a
   * prefix of the stretch, every call before the last returned, the last one raised if
   * any did, and the whole stretch ran iff none of its calls raises.
   */
  function Execute(stretch: seq<Call>, fails: set<Call>): (e: Executed)
    ensures e.calls <= stretch
    ensures forall i | 0 <= i < |e.calls| - 1 :: e.calls[i] !in fails
    ensures e.raised <==> exists i | 0 <= i < |stretch| :: stretch[i] in fails
    ensures e.raised ==> e.calls != [] && e.calls[|e.calls| - 1] in fails
    ensures !e.raised ==> e.calls == stretch
  {
    if stretch == [] then Executed([], false)
    else if stretch[0] in fails then Executed([stretch[0]], true)
    else
      var rest := Execute(stretch[1..], fails);
      assert forall i | 1 <= i < |stretch| :: stretch[i] == stretch[1..][i - 1];
      Executed([stretch[0]] + rest.calls, rest.raised)
  }

  /** Running a stretch that starts with `c`: stop after `c` if it raises, otherwise run the rest. */
  lemma ExecuteCons(c: Call, rest: seq<Call>, fails: set<Call>)
    ensures Execute([c] + rest, fails) ==
      if c in fails then Executed([c], true)
      else Executed([c] + Execute(rest, fails).calls, Execute(rest, fails).raised)
  {
    assert ([c] + rest)[1..] == rest;
  }

  /** What the download left on disk: the reported file, if it wrote one. */
  function AfterDownload(disk: set<string>, env: Env): (disk': set<string>)
    ensures disk <= disk' && disk' - disk <= (if Truthy(env.filepath) then {env.filepath.value} else {})
  {
    if env.written && Truthy(env.filepath) then disk + {env.filepath.value} else disk
  }

  /**
   * The stretch after a successful download, chosen by the checks on the file, and the
   * outcome it returns when none of its calls raises.
   */
  function Delivery(tag: string, filename: Option<string>, disk: set<string>, size: nat): (r: (seq<Call>, Outcome))
    ensures r.1 == FileMissing <==> !ExistsFile(filename, disk)
    ensures r.1 == TooLarge <==> ExistsFile(filename, disk) && size > MaxSizeBytes
    ensures r.1 == Uploaded <==> ExistsFile(filename, disk) && size <= MaxSizeBytes
  {
    if !ExistsFile(filename, disk) then
      ([EditFileMissing], FileMissing)
    else if size > MaxSizeBytes then
      ([GetSize(filename.value), EditTooLarge(size)], TooLarge)
    else
      ([GetSize(filename.value), EditUploading, SendMedia(MediaFor(tag), filename.value), DeleteStatus], Uploaded)
  }

  /** The try block of the handler, from the split of the payload to the removal of the status message. */
  function TryBlock(data: string, entries: map<string, string>, disk: set<string>, env: Env): (st: Stage)
    ensures st.exit.Returned? ==> st.exit.outcome in {Expired, FileMissing, TooLarge, Uploaded}
  {
    match Parse(data)
    case None => Stage(Raised, [], entries, disk, None)
    case Some((tag, id)) => ClaimBlock(tag, id, entries, disk, env)
  }

  /**
   * The rest of the try block once the payload has split into `tag` and `id`: pop the id
   * from the table, then the expired notices, or the download and the delivery.
   */
  function ClaimBlock(tag: string, id: string, entries: map<string, string>, disk: set<string>, env: Env): (st: Stage)
    ensures st.entries == entries - {id}
    ensures st.exit.Returned? ==> st.exit.outcome in {Expired, FileMissing, TooLarge, Uploaded}
  {
    var entries' := entries - {id};
    var link := Pending.Lookup(entries, id);
    if !Truthy(link) then
      var notice := Execute([AnswerExpired, EditExpired], env.fails);
      Stage(if notice.raised then Raised else Returned(Expired), notice.calls, entries', disk, None)
    else
      var fetch := Execute([AnswerDownloading, EditProcessing, Extract(link.value, OptionsFor(tag, id))], env.fails);
      if fetch.raised then Stage(Raised, fetch.calls, entries', disk, None)
      else
        var disk' := AfterDownload(disk, env);
        var (stretch, outcome) := Delivery(tag, env.filepath, disk', env.size);
        var deliver := Execute(stretch, env.fails);
        Stage(if deliver.raised then Raised else Returned(outcome), fetch.calls + deliver.calls, entries', disk', env.filepath)
  }

  /** The except clause: edit the status message, or send a new one if editing raises. */
  function Except(calls: seq<Call>, fails: set<Call>): (r: (Outcome, seq<Call>))
    ensures r.0.Failed? && calls <= r.1 && EditError in r.1
    ensures r.0.report == StatusEdited <==> EditError !in fails
    ensures r.0.report == ReportRaised <==> EditError in fails && SendError in fails
    ensures forall c | c in r.1 :: c in calls || c == EditError || (c == SendError && EditError in fails)
  {
    if EditError !in fails then (Failed(StatusEdited), calls + [EditError])
    else if SendError !in fails then (Failed(NewMessageSent), calls + [EditError, SendError])
    else (Failed(ReportRaised), calls + [EditError, SendError])
  }

  /**
   * The finally clause: when `filename` names an existing file, remove it, as the very
   * last call; a removal that raises is swallowed and leaves the file in place. Otherwise
   * nothing happens.
   */
  function Finally(calls: seq<Call>, filename: Option<string>, disk: set<string>, fails: set<Call>): (r: (seq<Call>, set<string>))
    ensures ExistsFile(filename, disk) ==>
      && r.0 == calls + [RemoveFile(filename.value)]
      && (filename.value in r.1 <==> RemoveFile(filename.value) in fails)
      && r.1 - {filename.value} == disk - {filename.value}
    ensures !ExistsFile(filename, disk) ==> r == (calls, disk)
  {
    if ExistsFile(filename, disk) then
      var path := filename.value;
      (calls + [RemoveFile(path)], if RemoveFile(path) in fails then disk else disk - {path})
    else (calls, disk)
  }

  /**
   * What follows the try block: the except clause when it raised, then the finally
   * clause. The table is left as the try block left it and its calls all stay; the
   * outcome is a failure exactly when the try block raised; the file the try block
   * left behind is removed by the very last call, and nothing else on disk changes.
   */
  function Conclude(st: Stage, env: Env): (run: Run)
    requires st.exit.Returned? ==> !st.exit.outcome.Failed?
    ensures run.entries == st.entries
    ensures st.calls <= run.calls
    ensures forall c | c in run.calls ::
      || c in st.calls
      || (st.exit.Raised? && (c == EditError || c == SendError))
      || (ExistsFile(st.filename, st.disk) && c == RemoveFile(st.filename.value))
    ensures run.outcome.Failed? <==> st.exit.Raised?
    ensures st.exit.Returned? ==> run.outcome == st.exit.outcome
    ensures st.exit.Raised? ==> run.outcome == Except(st.calls, env.fails).0 && EditError in run.calls
    ensures ExistsFile(st.filename, st.disk) ==>
      && run.calls != [] && run.calls[|run.calls| - 1] == RemoveFile(st.filename.value)
      && (st.filename.value in run.disk <==> RemoveFile(st.filename.value) in env.fails)
      && run.disk - {st.filename.value} == st.disk - {st.filename.value}
    ensures !ExistsFile(st.filename, st.disk) ==> run.disk == st.disk
  {
    var (outcome, calls) := if st.exit.Raised? then Except(st.calls, env.fails) else (st.exit.outcome, st.calls);
    var (calls', disk') := Finally(calls, st.filename, st.disk, env.fails);
    Run(outcome, calls', st.entries, disk')
  }

  /** The whole handler: the try block, then the except and finally clauses. */
  function Handle(data: string, entries: map<string, string>, disk: set<string>, env: Env): (run: Run)
    ensures Parse(data).None? ==> run.outcome.Failed? && run.entries == entries && run.disk == disk
    ensures Parse(data).Some? ==> run.entries == entries - {Parse(data).value.1}
    ensures run.outcome in {Expired, FileMissing, TooLarge, Uploaded} || run.outcome.Failed?
  {
    Conclude(TryBlock(data, entries, disk, env), env)
  }
}
