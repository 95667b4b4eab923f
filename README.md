# A verified model of a YouTube download bot

The bot takes a chat message and strips surrounding whitespace from its text. It
accepts the text as a link when the text contains one of three YouTube URL fragments.
An accepted link is stored in a process-wide table (`pendientes`) under a short request
id, and the bot offers two buttons. Their callback payloads are `mp3|<id>` and
`mp4|<id>`.

Pressing a button runs the callback handler (`procesar_callback`). It splits the
payload on `'|'` and pops the id from the table. It then does one of two things:

- If the id has no link, it reports that the request has expired.
- Otherwise it downloads the link with the option set chosen by the tag. It checks that
  the file exists and is at most 50 MB, uploads it as audio or as video, and deletes its
  status message.

Any exception is reported by editing the status message, or by sending a new message
when that edit raises. A `finally` clause removes the downloaded file on every path.

The model is organised as follows:

- `Links`: Python's `str.strip` (with `str.isspace`'s whitespace set), the substring
  test, and the link predicate `es_enlace_youtube`.
- `Token`: Python's `split` with an explicit separator, the payload encoding, and
  `Parse`, the two-way unpacking of the split.
- `Pending`: the table as a class with a `map` field; `Register` is `pendientes[id] =
  link` and `Claim` is `pendientes.pop(id, None)`.
- `Handler`: what the callback handler does, as a function of four inputs:
  - the payload;
  - the table;
  - the set of files on disk;
  - an environment `Env` that says which outside calls raise, which path the download
    library reports, whether the file was written, and how large it is.

  Every call into the chat client, the download library or the file system is recorded
  as a `Call`. `TryBlock` is the try block, and `Except` and `Finally` are the two
  clauses after it. `Handle` composes the three.
- `HandlerProperties`: the properties of `Handle` for all inputs:
  - a claim is single use;
  - a malformed payload takes the error path;
  - dispatch follows the tag;
  - the size threshold is exact;
  - the file is cleaned up on every exit path;
  - failures are reported through the edit-or-send fallback.
- `Bot`: the two handlers as methods of a class that holds the table and the files on
  disk. `ReceiveLink` is the message handler. `ProcessCallback` runs the callback
  handler one call at a time, with early returns and then the except and finally
  clauses. It is proved to produce exactly `Handler.Handle`'s outcome, calls, table and
  files. Both methods preserve the invariant that every stored link passed the link
  check.

The source compares sizes as `os.path.getsize(f) / (1024 * 1024) > 50` in floating
point. The model compares integers: `size > 50 * 1024 * 1024`. The two agree for every
size below 2^53 bytes, because dividing by a power of two is exact in binary floating
point. A file of exactly 50 MB is therefore uploaded.

## Model

| member | source | states |
|---|---|---|
| Links.TrimStart | youtube_bot.py:29 | the result is a suffix of the input, everything cut off is whitespace, and the result does not start with whitespace |
| Links.TrimEnd | youtube_bot.py:29 | the result is a prefix of the input, everything cut off is whitespace, and the result does not end with whitespace |
| Links.Strip | youtube_bot.py:29 | `strip()` keeps one block of the text, with only whitespace around it and no whitespace at either end |
| Links.StripIdempotent | youtube_bot.py:29 | stripping an already stripped text changes nothing |
| Links.ContainsIff | youtube_bot.py:24 | Python's `p in s` holds iff `p` occurs in `s` at some index (both directions) |
| Links.ContainsChars | youtube_bot.py:24 | every character of a contained string occurs in the containing string |
| Links.ContainsLength | youtube_bot.py:24 | a contained string is no longer than the containing string |
| Links.AnyContained | youtube_bot.py:24 | `any(x in s for x in ps)` holds iff some pattern of `ps` is contained in `s` |
| Links.IsYouTubeLink | youtube_bot.py:23-24 | `es_enlace_youtube` holds iff `youtube.com/watch?v=`, `youtu.be/` or `youtube.com/shorts/` is a substring of the link (the `any` over the fragment list, unrolled) |
| Links.AcceptsIff | youtube_bot.py:23-24 | a link is accepted iff `youtube.com/watch?v=`, `youtu.be/` or `youtube.com/shorts/` occurs in it |
| Links.RejectsWithoutSlash | youtube_bot.py:23-24 | a text without '/' is rejected |
| Links.AcceptedIsLong | youtube_bot.py:23-24 | an accepted link has at least nine characters, so it is never empty |
| Links.AcceptsShareLink | youtube_bot.py:24 | an example share link is accepted |
| Links.AcceptsShortsLink | youtube_bot.py:24 | an example Shorts link is accepted |
| Links.RejectsPlainText | youtube_bot.py:24 | an example sentence is rejected |
| Token.Count | youtube_bot.py:70 | the count of a character is zero iff the character is absent, and is at most the length |
| Token.CountAppend | youtube_bot.py:70 | the count of a concatenation is the sum of the counts |
| Token.Split | youtube_bot.py:70 | `split(sep)` always yields at least one piece |
| Token.SplitShape | youtube_bot.py:70 | `split(sep)` yields one more piece than there are separators, and no piece holds the separator |
| Token.JoinSplit | youtube_bot.py:70 | joining the pieces of a split with the separator gives the original text |
| Token.SplitJoin | youtube_bot.py:70 | splitting the join of separator-free pieces gives those pieces back |
| Token.Encode | youtube_bot.py:49-50 | the payload (tag, separator, id) holds one separator more than the tag and the id together |
| Token.Parse | youtube_bot.py:70 | unpacking succeeds iff the payload holds exactly one separator; both parts are then free of separators and encode back to the payload |
| Token.ParseEncode | youtube_bot.py:70 | parsing the payload of a tag and an id gives `(tag, id)` when neither part holds a separator |
| Token.ParseFails | youtube_bot.py:70 | a payload with zero or several separators fails to unpack |
| Token.ParseOnlyEncodings | youtube_bot.py:70 | parsing gives `(tag, id)` iff the payload is the encoding of that pair and neither part holds a separator |
| Token.IsRequestId | youtube_bot.py:44 | an id cut from a printed UUID has eight characters and never holds the separator |
| Token.ButtonsParse | youtube_bot.py:49-50 | for an id without a separator, the mp3 and the mp4 payload parse back to their tag and that id |
| Token.RequestButtonsParse | youtube_bot.py:44-50 | for an id cut from a printed UUID, both button payloads parse back to their tag and that id |
| Pending.PendingTable.constructor | youtube_bot.py:20 | the table starts empty |
| Pending.PendingTable.Register | youtube_bot.py:45 | the id maps to the link, an old entry for the id is overwritten, and every other id is unchanged |
| Pending.PendingTable.Claim | youtube_bot.py:71 | `pop(id, None)` returns the stored link or None and removes only that id |
| Pending.Lookup | youtube_bot.py:71 | the result is present iff the id is stored, and is then the stored link |
| Pending.RegisterThenClaimTwice | youtube_bot.py:71 | after registering, the first claim returns the link and the second returns nothing |
| Handler.PathJoin | youtube_bot.py:82 | POSIX `os.path.join`: an absolute second part replaces the first; otherwise the two parts are laid end to end, with one '/' between them when the first does not already end in one |
| Handler.OutputTemplate | youtube_bot.py:82 | the output template is `/tmp/descargas/<id>.%(ext)s` for an id that does not start with '/', and `<id>.%(ext)s` for one that does |
| Handler.AudioOptions | youtube_bot.py:85-91 | the mp3 option set: best audio, converted to mp3 at quality 192, no merge format, the ffmpeg path, the id's output template, no playlists |
| Handler.VideoOptions | youtube_bot.py:92-99 | the mp4 option set: mp4 video of at most 720 lines plus m4a audio, merged into mp4, no post-processing, the ffmpeg path, the id's output template, no playlists |
| Handler.OptionsFor | youtube_bot.py:84-99 | the audio option set is chosen iff the tag is "mp3" and the video set otherwise; both use the id's output template, the ffmpeg path and no playlists |
| Handler.MediaFor | youtube_bot.py:124-132 | the file is sent as audio iff the tag is "mp3" |
| Handler.Truthy | youtube_bot.py:73 | Python truthiness of an optional string: None and the empty string are false, every other string is true |
| Handler.ExistsFile | youtube_bot.py:105 | `filename and os.path.exists(filename)` holds only for a present, non-empty name that is on disk, and fails for every other name |
| Handler.Execute | youtube_bot.py:74-80 | a straight stretch of calls runs in order until one raises: it raised iff some call of the stretch fails, and the whole stretch ran otherwise |
| Handler.ExecuteCons | youtube_bot.py:74-80 | a stretch stops after its first call if that call raises, and otherwise continues with the rest |
| Handler.AfterDownload | youtube_bot.py:101-103 | the download adds at most the reported file to the disk |
| Handler.Delivery | youtube_bot.py:105-136 | after the download the outcome is FileMissing iff the file does not exist, TooLarge iff it exists and exceeds 52428800 bytes, and Uploaded iff it exists and is within that size |
| Handler.ClaimBlock | youtube_bot.py:71-136 | once the payload has split, the id is popped from the table whatever follows, and a return is Expired, FileMissing, TooLarge or Uploaded |
| Handler.TryBlock | youtube_bot.py:69-136 | the try block ends in a return with a non-failure outcome or an exception |
| Handler.Except | youtube_bot.py:138-147 | the except clause edits the status message; the result is StatusEdited iff that edit works; it sends a new message only when the edit raised; the report raises iff both raise |
| Handler.Finally | youtube_bot.py:153-158 | when the file name exists on disk it is removed by the last call, and it stays iff the removal raised; otherwise nothing happens |
| Handler.Conclude | youtube_bot.py:138-158 | the except and finally clauses keep the table and every earlier call; the outcome is a failure iff the try block raised; the existing file is removed last and nothing else on disk changes |
| Handler.Handle | youtube_bot.py:63-158 | the whole callback handler: a payload that does not unpack fails and leaves table and disk alone; one that does removes its id; every outcome is a return outcome or a reported failure (the HandlerProperties rows state the rest) |
| HandlerProperties.DeliveryFacts | youtube_bot.py:105-136 | after the download, the too-large notice carries the size and comes only above the limit; the upload comes only at or below the limit and as the tag's kind of media |
| HandlerProperties.ClaimScriptFacts | youtube_bot.py:71-136 | on the no-raise path of a parsed payload, the only download is of the link stored under the id, with the tag's options, and no call is a failure report or a removal |
| HandlerProperties.ScriptFacts | youtube_bot.py:70-136 | an unparsed payload makes no try-block calls, and a parsed payload's calls are as ClaimScriptFacts says |
| HandlerProperties.ClaimBlockFollowsScript | youtube_bot.py:71-136 | once the payload has split, the calls made are a prefix of the no-raise path, and the whole of it when the try block returns |
| HandlerProperties.TryBlockFollowsScript | youtube_bot.py:69-136 | the try block's calls are a prefix of its no-raise path, and the whole of it when it returns |
| HandlerProperties.ClaimBlockEnd | youtube_bot.py:103-136 | the local `filename` is None or the reported path; a file is added only under that name; TooLarge means above the limit and no upload; Uploaded means within the limit and the file was sent |
| HandlerProperties.TryBlockEnd | youtube_bot.py:69-136 | ClaimBlockEnd's facts, stated for any payload |
| HandlerProperties.TryBlockSize | youtube_bot.py:110-121 | in the try block, the too-large notice comes only above the limit and the upload notice and upload only at or below it |
| HandlerProperties.ConcludeSize | youtube_bot.py:138-158 | the except and finally clauses add no size-dependent call and keep the TooLarge and Uploaded outcomes |
| HandlerProperties.ConcludeDisk | youtube_bot.py:153-158 | the finally clause changes the disk only at the reported file, and a new file stays only when its removal raised |
| HandlerProperties.MalformedPayload | youtube_bot.py:70 | a payload that does not unpack into two parts fails through the except clause and changes neither the table nor the disk |
| HandlerProperties.ClaimConsumesEntry | youtube_bot.py:71 | a payload that parses removes its id from the table, whatever the outcome |
| HandlerProperties.ExpiredWithoutDownload | youtube_bot.py:73-76 | an absent or empty link leads to no download and no disk change, and to Expired with exactly two calls when those do not raise |
| HandlerProperties.ClaimBlockExpired | youtube_bot.py:73-76 | once the payload has split, the try block returns Expired only when the popped link is missing or empty |
| HandlerProperties.ExpiredOnlyWhenUnclaimed | youtube_bot.py:73-76 | the outcome is Expired only for a parsed payload whose id has no non-empty link |
| HandlerProperties.DownloadOnlyForClaimedLink | youtube_bot.py:84-102 | every download is of the link stored under the payload's id, with that tag's options; the options are the audio set iff the tag is "mp3" |
| HandlerProperties.UploadKindFollowsTag | youtube_bot.py:124-132 | every upload is audio iff the tag is "mp3" |
| HandlerProperties.SecondPressExpires | youtube_bot.py:71-76 | after one callback the id is gone, so a second callback with the same payload starts no download and ends in Expired when its notices do not raise |
| HandlerProperties.SizeLimit | youtube_bot.py:110-121 | the limit is 52428800 bytes; the too-large notice comes only above it and the upload only at or below it; TooLarge means larger and nothing sent; Uploaded means the file was sent |
| HandlerProperties.SizeDecision | youtube_bot.py:110-118 | when the link was claimed, nothing raises and the file exists, the outcome is TooLarge iff the size exceeds 50 * 1048576 bytes, and Uploaded otherwise (exactly 50 MB included) |
| HandlerProperties.CleanupOnEveryPath | youtube_bot.py:153-158 | on every exit (early return, success or exception), an existing `filename` is removed by the last call and stays only if the removal raised; otherwise no file is removed |
| HandlerProperties.NoFileLeftBehind | youtube_bot.py:153-158 | the handler adds or removes only the reported file, and a file it added stays only if its removal raised |
| HandlerProperties.FailureIsReported | youtube_bot.py:138-147 | the outcome is a failure iff the try block raised; the status edit is always attempted, and a new message is sent only when the edit raised |
| HandlerProperties.HappyPath | youtube_bot.py:69-158 | with nothing raising and a file within the limit, the handler makes the eight calls from download to removal in order, uploads, pops the id and removes the file |
| Bot.RegisterKeepsAccepted | youtube_bot.py:45 | storing an accepted link keeps every link of the table accepted |
| Bot.AcceptedLinksAreTruthy | youtube_bot.py:73 | in a table of accepted links, a claimed link counts as present iff the id is stored |
| Bot.HandleShrinksTable | youtube_bot.py:71 | the callback handler only removes table entries and keeps the others unchanged |
| Bot.ExpiredIffUnknown | youtube_bot.py:71-80 | for a table of accepted links, Expired happens only for an id not in the table, and an id not in the table gives Expired when the two expired notices work; a stored id always reaches its download when the first two calls work |
| Bot.Notify | youtube_bot.py:74-76 | the expired notices are made in order until one raises |
| Bot.Fetch | youtube_bot.py:78-102 | the two status calls and the download, with options picked by the tag, run in order until one raises |
| Bot.Upload | youtube_bot.py:110-136 | the size lookup, uploading notice, upload and status deletion run in order until one raises |
| Bot.Deliver | youtube_bot.py:105-136 | after the download, the calls and the outcome follow the file checks |
| Bot.ReportFailure | youtube_bot.py:138-147 | the imperative except clause computes Except |
| Bot.Cleanup | youtube_bot.py:153-158 | the imperative finally clause computes Finally |
| Bot.DownloadBot.constructor | youtube_bot.py:20 | a bot starts with an empty table over the files on disk, and the table invariant holds |
| Bot.DownloadBot.ReceiveLink | youtube_bot.py:28-59 | the bot refuses, changing nothing, iff the stripped text fails the link check; otherwise it stores the stripped link under the id (overwriting) and offers the two payloads, which parse back to (mp3, id) and (mp4, id); it keeps the invariant |
| Bot.DownloadBot.RunTry | youtube_bot.py:69-136 | the step-by-step try block leaves the exit, calls, table, files and `filename` that TryBlock specifies |
| Bot.DownloadBot.ProcessCallback | youtube_bot.py:63-158 | the whole callback handler produces exactly Handle's outcome, calls, table and files, and keeps the invariant that every stored link passed the link check |

## Left out

- The download library (yt_dlp): format negotiation and ffmpeg transcoding are not
  modelled. One `Extract` call stands for `extract_info` together with the lookup of
  `requested_downloads[0]['filepath']`. Its result is an input: whether it raises, the
  reported path (or none), whether a file was written there, and the file's size.
- A download that raises after writing part of a file leaves that file on disk in the
  source, with `filename` still unset. In the model, a raising download writes nothing.
- The chat client (telebot): message wording, emoji, Markdown, markup, chat, message
  and callback ids, and `tipo.upper()` in the answer text are not modelled. Each call is
  recorded by its kind, plus the size in the too-large notice and the media kind and
  path of the upload. Whether it raises is an input.
- `infinity_polling`, the `BOT_TOKEN` environment variable and the creation of the
  download directory at start-up are not modelled.
- Bot.DownloadBot.ReceiveLink: it does not record its chat calls, which are the reply
  to a rejected link, the deletion of the user's message (whose failure the source
  catches and only prints) and the sending of the buttons. If sending the buttons
  raises, the source has still registered the link, exactly as the model does.
- A message without text (`message.text` is None) raises before any state changes.
  This is not modelled.
- A callback without a message raises at `call.message.chat.id` (youtube_bot.py:65-67)
  before the `try`: it pops nothing and answers nothing. The model always has a message,
  so `Handle` cannot express this path.
- `uuid.uuid4()`: the request id is a parameter. The model does not take it to be fresh,
  so `Register` overwrites. `Token.IsRequestId` describes the shape of a UUID prefix.
- The floating-point size in MB and its `:.2f` formatting are not modelled. The size
  is compared in integer bytes, exactly as explained above.
- Concurrency: the chat client can run handlers on several threads, and the check and
  the pop on `pendientes` are not synchronised. Each handler is modelled as running
  alone.
- `print` and `traceback` output are not modelled.
- Handler.Finally: every exception from `os.remove` is treated as caught. The source
  catches only `OSError`, so another exception type would propagate.
- Exceptions outside `Exception` (such as KeyboardInterrupt) are not modelled; every
  failing call raises an ordinary exception.
