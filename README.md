# WebServer core, modelled in Dafny

A model of the sequential core of Metapyziks/WebServer, a small C# HTTP
server, with proofs of what each part promises:

- **The URL router** (`Server.CreateServlet`, `BindServletToURL`, the
  constructor's pre-binding). The route table is a `map` from exact URL to
  an opaque servlet token. `CreateServlet` is a method whose loop is proved
  to compute `Routing.Resolve`. Lemmas show that Resolve picks the longest
  candidate prefix that is bound or is the resource root, that the
  candidates shrink strictly, and that there are at most one more of them
  than there are `/` characters.
- **The job scheduler** (`Server.ScheduleJob`, the locked step of
  `ScheduledJobTask`, `Stop`, and the `ScheduledJob` class). The job list is
  a `seq` of `ScheduledJob` objects held in the `Server` class. The wake
  handle is a boolean, and time is an integer tick count passed in as a
  parameter. `ScheduleJob` walks the list as the code is written: before
  the first strictly later job, and at the front when there is none.
  Lemmas over the jobs' fire times show when that keeps the list ordered
  and when it does not.
- **multipart/form-data parsing** (`FormFieldHeader`, `FormField.Create`,
  the `FormField` constructor, `HeaderCollection`, and the
  `MultipartFormField` constructor and indexer).
  - The header-line regular expression is a hand parser that returns the
    captures .NET's backtracking matcher reports.
  - Field classification and the multipart constructor are functions over
    a body of lines.
  - `MultipartReader` holds the constructor's nested loops as methods,
    each proved to compute those functions.
  - A `Variant` argument selects either the code as written or the
    corrected reading described under Findings.
- **URL-encoded POST bodies** (`Extensions.GetParsedPost`): a loop proved to
  build `PostBody.ParsedPost`, with lemmas on splitting, empty segments,
  what each segment adds, and a round trip from name/value pairs.

The delimiter syntax the multipart parser loosely follows is that of
section 5.1.1 of RFC 2046, matched here by prefix as the code does. The
transfer-encoding names are those of section 6 of RFC 2045.

Modules: `Wrappers` (Option, Result), `Strings`, `NameValues`
(NameValueCollection), `Logging`, `Routing`, `JobQueue`, `ScheduledJobs`,
`WebServer` (the `Server` class), `FormHeaders`, `FormFields`,
`MultipartReader`, `PostBody`.

## Model

| member | source | states |
|---|---|---|
| Routing.StripQuery | Server.cs:164-167 | the result has no `?`; a URL without `?` is unchanged; otherwise it is the prefix before the first `?` |
| Routing.Cut | Server.cs:179-180 | an unmatched candidate becomes its prefix before the last `/`, or "" when it has none, and strictly shrinks |
| Routing.CutCandidates | Server.cs:179-181 | the candidates other than the URL are exactly the candidates of its cut, and there are none when the cut is empty |
| Routing.CandidatesAreSlashPrefixes | Server.cs:170-181 | a string is tried by the loop iff it is the URL or a non-empty prefix of it followed by `/` |
| Routing.CandidatesShrink | Server.cs:179-181 | each candidate is a strict prefix of the one before, and only the first can be "", so "" is tried only for an empty stripped URL |
| Routing.CandidatesCount | Server.cs:170-181 | the loop makes at most (number of `/`) + 1 passes |
| Routing.FirstMatchIsLongest | Server.cs:170-177 | the first match is the longest matching candidate, a bound key beating the resource root; with no match, the fallback |
| Routing.ResolveIsLongestMatch | Server.cs:162-184 | CreateServlet's servlet is that of the longest candidate of the stripped URL that is bound or is the resource root |
| Routing.ResolveWithoutMatch | Server.cs:169-183 | with no matching candidate, the resource servlet when the resource root is "/", else the not-found servlet |
| Strings.IndexOf | Server.cs:164 | -1 iff the character is absent, otherwise its first position |
| Strings.LastIndexOf | Server.cs:179 | -1 iff the character is absent, otherwise its last position |
| Strings.ToLower | MultipartForm.cs:83 | same length, each ASCII capital folded to lower case and every other character kept |
| WebServer.Server.constructor | Server.cs:49-67 | no jobs, not stopped, resource root "/res", the default servlets, and only "/favicon.ico" bound, to the resource servlet |
| WebServer.Server.BindServletToUrl | Server.cs:135-144 | succeeds iff the URL was unbound, adding exactly that binding; otherwise the table is unchanged |
| WebServer.Server.CreateServlet | Server.cs:162-184 | the do-while loop returns Routing.Resolve of the bound table, the resource root and the two default servlets |
| WebServer.Server.ScheduleJob | Server.cs:196-218 | the list gains the job at the written position (before the first strictly later job, else at the front) and keeps the others in order; the handle is set iff the walk never advanced; no job is queued twice |
| WebServer.Server.ScheduleJobAt | Server.cs:191-194 | a fresh job with the given identifier, time and interval is inserted as ScheduleJob does |
| WebServer.Server.ScheduleJobAfter | Server.cs:186-189 | a fresh, uncancelled one-shot job with the given identifier and action, due `after` ticks from now, is inserted as ScheduleJob does, and the wake handle is set when the queue was empty or its head was strictly later |
| WebServer.Server.RunDueJob | Server.cs:234-242 | it fires iff the queue has a due head; otherwise the queue, the log, the wake handle and every fire time are unchanged. A due head is removed, its fire time moved as Perform does, its messages logged, and it is re-inserted through ScheduleJob unless cancelled; no other job's fire time, no cancel flag, and neither the server's state nor its resource root and servlets change |
| WebServer.Server.PerformHead | Server.cs:235-240 | the head leaves the list, which keeps the other jobs and their times, and is performed |
| WebServer.Server.PopHead | Server.cs:237 | RemoveFirst: the list loses exactly its head, which is no longer queued |
| WebServer.Server.Stop | Server.cs:289-297 | the stop flags are set and every queued job is cancelled, its fire time unchanged |
| JobQueue.FirstLater | Server.cs:199-207 | the walk stops at the first job strictly later than the new one, past every job not later, or at the end |
| JobQueue.WakesIff | Server.cs:200-216 | the wake handle is set iff the list was empty or its head is strictly later than the new job |
| JobQueue.InsertBeforeLaterKeepsSorted | Server.cs:202-212 | when some job is strictly later, the written insertion keeps an ordered list ordered |
| JobQueue.WrittenInsertSortedIff | Server.cs:199-216 | the written insertion keeps a non-empty ordered list ordered iff some job is strictly later or every job has the new job's time |
| JobQueue.AddFirstBreaksOrder | Server.cs:215 | a list holding a job due at 1, given a job due at 5, becomes [5, 1], which is not ordered |
| JobQueue.IntendedInsertKeepsSorted | Server.cs:196-218 | inserting at the end when nothing is later keeps every ordered list ordered, after every job not later |
| ScheduledJobs.ScheduledJob.constructor | ScheduledJob.cs:24-33 | identifier, fire time, interval and action are those given; the job is not cancelled |
| ScheduledJobs.ScheduledJob.Perform | ScheduledJob.cs:35-50 | a recurring job's fire time becomes now + interval; a one-shot job's becomes MaxValue, so it is due at no time below MaxValue; only the fire time changes, and the messages are those of PerformLog |
| ScheduledJobs.PerformLog | ScheduledJob.cs:43-49 | "Performing" is logged first; "Completed" follows iff the action returns, otherwise the exception is logged as an error |
| ScheduledJobs.ScheduledJob.Cancel | Server.cs:295 | the job is cancelled |
| NameValues.ValuesOf | MultipartForm.cs:52-55 | empty iff no pair has the name, ignoring case |
| NameValues.Get | MultipartForm.cs:52-55 | null iff no pair has the name, ignoring case |
| NameValues.GetAfterAdd | MultipartForm.cs:43 | after Add, a lookup under another name is unchanged; one under the same name gains the new value after a comma, or is the new value alone |
| NameValues.GetOnlyPair | MultipartForm.cs:133 | a name added once reads back as the value added |
| FormHeaders.SpaceRun | MultipartForm.cs:16 | `\s*` takes the maximal white-space run |
| FormHeaders.KeyRun | MultipartForm.cs:16 | `[A-Z-]+` under IgnoreCase takes the maximal run of letters and hyphens |
| FormHeaders.QuoteEnd | MultipartForm.cs:17 | a quoted value closes at the first quote after the opening one, leaving a non-empty value |
| FormHeaders.UnquotedRun | MultipartForm.cs:17 | `[^;]*` runs up to the first `;` or the end |
| FormHeaders.Tail | MultipartForm.cs:18-19 | the opkey and opvalue capture lists have the same length |
| FormHeaders.ValueThen | MultipartForm.cs:17-19 | the opkey and opvalue capture lists have the same length |
| FormHeaders.HeaderMatch | MultipartForm.cs:15-20 | a match has a non-empty key of letters and hyphens and as many opkey as opvalue captures |
| FormHeaders.NoColonNoMatch | MultipartForm.cs:16 | a line without `:` never matches |
| FormHeaders.HeaderStep | MultipartForm.cs:16-20 | after `key: ` the match is the key with whatever the value reading of the rest gives |
| FormHeaders.QuotedStep | MultipartForm.cs:17 | a quoted value reads without its quotes |
| FormHeaders.UnquotedFallback | MultipartForm.cs:17-19 | when the quoted reading leads to no match, the value is everything up to the first `;`, quotes included, and the options are what the rest reads as |
| FormHeaders.QuotedThenTextFallsBack | MultipartForm.cs:17-19 | `"a" x` reads as the value `"a" x`, because ` x` after the quoted `a` is no option group |
| FormHeaders.EmptyQuotesFallsBack | MultipartForm.cs:17 | `""` reads as the two-quote value, because a quoted value must not be empty |
| FormHeaders.UnquotedStep | MultipartForm.cs:17 | an unquoted value reads as everything up to `;`, trailing white space included |
| FormHeaders.FormattedTail | MultipartForm.cs:18-19 | `; k="v"` groups read back as their keys and values, in order |
| FormHeaders.FormatHeaderRoundTrip | MultipartForm.cs:15-20 | a line `key: "value"; k="v"...` reads back as its key, value and options, in order |
| FormHeaders.TokenHeaderRoundTrip | MultipartForm.cs:15-20 | a line with a bare token value, such as `Content-Disposition: form-data; name="f"`, reads back as its key, token and options |
| FormHeaders.Zip | MultipartForm.cs:39-44 | one option per opkey capture, the i-th paired with the i-th opvalue |
| FormHeaders.ParseKeyValue | MultipartForm.cs:27-47 | the (null, null) pair iff the line does not match; otherwise the key and a header with the value and the zipped options |
| FormHeaders.CollectOptions | MultipartForm.cs:34-44 | the loop adds the i-th opkey with the i-th opvalue, in order |
| FormHeaders.Parse | MultipartForm.cs:22-25 | null iff the line is not a valid value with options; otherwise that value and its options |
| FormHeaders.ParseMatchesValue | MultipartForm.cs:22-25 | the "--: " prefix always matches key and colon, so Parse depends only on the value reading of the line |
| FormFields.Find | MultipartForm.cs:73 | the value stored under exactly the key, or absent iff no entry has that key |
| FormFields.RawGet | MultipartForm.cs:73-78 | a present key gives its value; a missing key throws KeyNotFound as written, and reads as null when corrected |
| FormFields.NewHeaderCollection | MultipartForm.cs:120-123 | succeeds iff no two keys are equal ignoring case, keeping the entries; otherwise a duplicate-key failure on such a key |
| FormFields.HcGet | MultipartForm.cs:115-118 | a value found is stored under a key equal ignoring case; null when no key matches |
| FormFields.HcGetFinds | MultipartForm.cs:115-123 | every spelling of a key finds the one entry stored under it |
| FormFields.EncodingOf | MultipartForm.cs:141-160 | base64, 8bit and 7bit in any case map to their encodings; anything else is Unknown with IsBinary; no header gives SevenBit |
| FormFields.NewFieldInfo | MultipartForm.cs:128-131 | the constructor succeeds iff no two header keys are equal ignoring case |
| FormFields.FieldInfoReads | MultipartForm.cs:128-161 | Name is the disposition's `name` option; ContentType and Boundary are Content-Type's value and `boundary` option; each is null without its header; the encoding follows EncodingOf |
| FormFields.Delimiter | MultipartForm.cs:195 | "--" followed by the boundary, or by nothing when it is null |
| FormFields.Rebase | MultipartForm.cs:221 | a frame's lines keep their text, their positions made relative to the frame start |
| FormFields.FrameOf | MultipartForm.cs:213-221 | the frame over lines [si, ei) starts after line si - 1 and ends after line ei - 1 |
| FormFields.LeafField | MultipartForm.cs:78-90 | a field made here is a file or text field over the whole frame, carrying the headers as the constructor reads them |
| FormFields.MultipartField | MultipartForm.cs:185-226 | a field made here is multipart and carries the headers as the constructor reads them |
| FormFields.HeaderBlock | MultipartForm.cs:201-211 | the header loop consumes lines only forward, within the stream |
| FormFields.Scan | MultipartForm.cs:213-222 | as written the scan always consumes the whole stream and hands back no line |
| FormFields.Lookup | MultipartForm.cs:174-177 | the first sub-field whose name equals the key exactly, null matching null; null iff there is none |
| FormFields.CreateInfo | MultipartForm.cs:71-91 | any field Create makes carries its headers as the constructor reads them |
| FormFields.CreateKinds | MultipartForm.cs:73-87 | multipart iff Content-Type starts with "multipart/" in any case; otherwise file iff the disposition is "file" and text iff it is "form-data", in any case, over the whole frame |
| FormFields.CreateRejects | MultipartForm.cs:78-90 | a non-multipart part with a null disposition is rejected with 0x00, and one with any other disposition with 0x01 |
| FormFields.MissingContentTypeThrows | MultipartForm.cs:73 | as written, a part without a Content-Type header throws KeyNotFound |
| FormFields.MissingContentTypeText | MultipartForm.cs:73-87 | corrected, such a part with disposition "form-data" is a text field over its frame, named by the `name` option, with no content type |
| FormFields.WrittenRounds | MultipartForm.cs:194-223 | as written the outer loop succeeds only on a closing delimiter line, with no sub-field added |
| FormFields.WrittenMultipart | MultipartForm.cs:185-226 | as written the constructor returns normally only when its first line is a closing delimiter, and then with no sub-fields |
| FormFields.MissingDelimiter | MultipartForm.cs:193-197 | an empty stream, or a first line without the delimiter prefix, is rejected with 0x10 |
| FormFields.ClosingFirstLine | MultipartForm.cs:193-199 | a first line that is a closing delimiter gives a multipart field with no sub-fields |
| FormFields.FirstPart | MultipartForm.cs:195-222 | in a body laid out part by part, the first part's content lines lack the delimiter prefix and the line after them has it |
| FormFields.FirstHeaderLines | MultipartForm.cs:204-210 | the first part's header lines parse as its headers, with no repeated key, and a blank line follows them |
| FormFields.FirstHeaders | MultipartForm.cs:201-211 | header lines that parse with fresh keys, then a blank line: the header loop reads them into their dictionary and stops after the blank line |
| FormFields.BlankLineStops | MultipartForm.cs:204 | a blank line ends the header loop |
| FormFields.HeaderBlockOf | MultipartForm.cs:204-211 | header lines that parse with fresh keys are added to the dictionary in order |
| FormFields.HeaderLineStep | MultipartForm.cs:205-210 | a line that parses with a fresh key is added and the loop goes on |
| FormFields.HeaderLineParses | MultipartForm.cs:205 | a well-formed header line is accepted and reads back as its header |
| FormFields.RoundsThrough | MultipartForm.cs:194-223 | a pass of the outer loop is the header block, then the scan, then the loop from where the scan stopped |
| FormFields.RoundsFail | MultipartForm.cs:221 | a part that fails ends the outer loop with its failure |
| FormFields.ScanSkips | MultipartForm.cs:215-218 | lines without the delimiter prefix only move the end of the part forward |
| FormFields.ScanStops | MultipartForm.cs:216-221 | corrected, a delimiter line makes one field over the part's lines and goes back to the outer loop |
| FormFields.ScanIntended | MultipartForm.cs:213-222 | corrected, the content lines up to the next delimiter line become one field, or the part's failure |
| FormFields.ScanMade | MultipartForm.cs:213-222 | corrected, a part that makes field f adds f and hands its delimiter line back |
| FormFields.PartMade | MultipartForm.cs:199-222 | corrected, a pass over a part that makes field f continues at the next delimiter line with f added |
| FormFields.HeaderLineRejected | MultipartForm.cs:204-208 | a non-blank header line that does not match ends the header loop with 0x11 |
| FormFields.HeaderKeyRepeated | MultipartForm.cs:204-210 | a header line whose key is already in the dictionary ends the header loop with the repeated-key failure |
| FormFields.HeaderAdded | MultipartForm.cs:204-210 | a header line that matches with a fresh key is added and the loop goes on at the next line |
| FormFields.TwoHeadersRepeat | MultipartForm.cs:204-210 | two consecutive header lines with the same key end the header loop with the repeated-key failure |
| FormFields.HeaderFailureRejects | MultipartForm.cs:193-210 | a failure of the first part's header loop is the failure of the whole multipart field, in either reading |
| FormFields.FirstHeaderRejected | MultipartForm.cs:193-208 | a first part whose first header line does not match rejects the multipart field with 0x11 |
| FormFields.RepeatedHeaderRejected | MultipartForm.cs:193-210 | a first part whose first two header lines share a key rejects the multipart field with the repeated-key failure |
| FormFields.PartRejected | MultipartForm.cs:199-222 | corrected, a pass over a part that is rejected ends with that part's failure |
| MultipartReader.CreateField | MultipartForm.cs:71-91 | computes Create |
| MultipartReader.NewMultipartFormField | MultipartForm.cs:185-226 | the outer loop computes MultipartField |
| MultipartReader.ReadHeaders | MultipartForm.cs:201-211 | the header loop computes HeaderBlock |
| MultipartReader.ScanContent | MultipartForm.cs:213-222 | the content loop computes Scan |
| PostBody.Split | Extensions.cs:17 | one piece more than there are separators |
| PostBody.SplitPieces | Extensions.cs:17 | no piece holds the separator |
| PostBody.JoinSplit | Extensions.cs:17 | the pieces joined with the separator give the string back |
| PostBody.SplitJoin | Extensions.cs:17 | pieces without the separator, joined with it, split back into those pieces |
| PostBody.SplitAround | Extensions.cs:22 | the first piece is the text before the first separator; with exactly one separator, the second piece is the text after it |
| PostBody.NonEmpty | Extensions.cs:17 | RemoveEmptyEntries keeps exactly the non-empty pieces: a string is kept iff it is a non-empty piece |
| PostBody.NonEmptyAppend | Extensions.cs:17 | removing the empty pieces of two lists joined is removing them from each and joining, so the order of the pieces is kept |
| PostBody.NonEmptyKeeps | Extensions.cs:17 | a list of non-empty pieces is kept whole, in order |
| PostBody.EmptySegmentsDropped | Extensions.cs:17 | `a&&b` gives the two segments a and b |
| PostBody.PairEntryReads | Extensions.cs:22-27 | the name is the text before the first `=`, never decoded; exactly one `=` gives the decoded text after it as value, any other count gives "" |
| PostBody.GetParsedPost | Extensions.cs:14-31 | the loop adds one entry per segment, in segment order |
| PostBody.ParsedPostRoundTrip | Extensions.cs:14-31 | pairs free of `&` and `=`, written as `n=v` joined by `&`, come back in order with each value through UrlDecode |

## Left out

- I/O and concurrency are not modelled. This covers the HttpListener, `Run`,
  `HttpRequestTask`, thread start, and the wait and timeout arithmetic of
  `ScheduledJobTask` (Server.cs:220-233). It also covers the `lock`
  statements and the reset events: `_scheduledJobHandle` is a boolean and
  `_stop` is the `stopRequested` flag.
- Reflection is not modelled: `GetServletCtor`, `BindServletsInAssembly`
  and the attribute scan of `BindServletToURL(Type)`. Servlet constructors
  are opaque tokens, and both `BindServletToURL(.., url)` overloads are one
  method.
- Logging is an appended list of (entry type, text) messages. String.Format
  is written out as concatenation, and a logged exception is its text.
- The clock is an integer tick count passed in as `now`. DateTime overflow
  (an ArgumentOutOfRangeException from `Now + Interval`) is not modelled.
  `MaxValue` is DateTime.MaxValue in ticks.
- The action a job runs is a token, and its behaviour is an outcome passed
  in: it returns or throws a message.
- `Cancel` and `Cancelled` are not declared in the ScheduledJob.cs of this
  version, although Server.cs:242 and Server.cs:295 use them. They are
  modelled as a boolean field that Cancel sets.
- Stream positions are idealised: each line carries the position just after
  it. In the source, `BaseStream.Position` is where the StreamReader's
  128-byte read-ahead stopped, so the frame ranges it computes are not the
  line ends. The model does not capture that.
- The content of text and file fields is not read (`TextFormField`,
  `FileFormField`). A field keeps only its (start, length) range, and a
  nested multipart field parses the frame's own lines. FrameStream is not
  part of this model.
- Culture-sensitive comparisons are modelled as ordinal comparisons with
  ASCII case folding: `StartsWith`/`EndsWith` without a comparison,
  InvariantCultureIgnoreCase and `ToLower`. This includes the header
  expression's `RegexOptions.IgnoreCase` on `[A-Z-]` (MultipartForm.cs:20):
  FormHeaders.KeyRun accepts ASCII letters and `-` only, while .NET also
  accepts non-ASCII characters whose case folding is an ASCII letter, such
  as U+212A KELVIN SIGN.
- `WebUtility.UrlDecode` is an opaque function parameter, and the request
  body is the string `ReadToEnd` returns.
- FormFields.PartMade: the corrected multipart constructor is proved one
  part at a time (FirstPart, FirstHeaderLines, FirstHeaders, PartMade,
  PartRejected). There is no single round-trip lemma over a whole body of
  parts, because that proof exceeded the solver's resource limit.
- FormHeaders.Tail: its contract says only that the capture lists pair up.
  What it matches is stated by FormattedTail, QuotedStep, UnquotedStep,
  UnquotedFallback and the round-trip lemmas.
- FormHeaders.ValueThen: as for Tail.
- FormFields.HeaderBlock: its contract bounds the lines consumed. What it
  reads is stated by HeaderBlockOf, HeaderLineStep, HeaderAdded,
  BlankLineStops and FirstHeaders; its two failures by HeaderLineRejected,
  HeaderKeyRepeated and TwoHeadersRepeat, lifted to the multipart field by
  HeaderFailureRejects, FirstHeaderRejected and RepeatedHeaderRejected. The
  loop is MultipartReader.ReadHeaders.
- FormFields.Scan: its contract states only the written reading's end
  state. The corrected reading is stated by ScanSkips, ScanStops and
  ScanIntended.
- The `ShouldPerform` and `OnceOnly` properties are predicates read directly
  (`now >= nextTime`, `interval == 0`), with no contract of their own.

## Findings

| source | as written | input that shows it | evidently intended | confidence | as-written member | corrected member |
|---|---|---|---|---|---|---|
| MultipartForm.cs:215-222 | the content loop never breaks at a delimiter line: it adds a field and reads on to the end of the stream, so the outer check then meets a null line and rejects with 0x10 | a body with one part: `--b`, `Content-Disposition: form-data; name="f"`, `Content-Type: text/plain`, a blank line, `x`, `--b--` (without the Content-Type line, the MultipartForm.cs:73 finding below throws first) | stop at the delimiter line and let the outer loop test it as the next part or the closing line | high; not executed | FormFields.WrittenMultipart | FormFields.PartMade |
| MultipartForm.cs:73 | `headers["Content-Type"]` on a Dictionary throws KeyNotFoundException when the part has no Content-Type header, which is the usual case for a plain text input | a part whose only header is `Content-Disposition: form-data; name="f"` | read a missing header as null, as the null test on the next line expects, and make a text field | high; not executed | FormFields.MissingContentTypeThrows | FormFields.MissingContentTypeText |
| Server.cs:215 | a job later than every queued job goes to the front of the list (AddFirst), ahead of jobs that are due earlier | a list holding one job due at 1, given a job due at 5, becomes [5, 1] | add it at the end (AddLast), which keeps the list ordered | medium; not executed | JobQueue.AddFirstBreaksOrder | JobQueue.IntendedInsertKeepsSorted |

The multipart model takes a `Variant` argument that selects the written or
the corrected reading, and `MultipartReader` is proved for both. The
`Server` class keeps the written insertion of Server.cs:215, because that
is the order the scheduler actually runs in. The corrected insertion is
stated and proved in JobQueue.
