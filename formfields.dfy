/** FormField, HeaderCollection and MultipartFormField (MultipartForm.cs:64-237).

    A stream is a sequence of lines, each with the stream position just
    after it (`Line.end`). A sub-field's stream (FrameStream) is the range
    [start, start + length) of its parent's stream. Here it is that range
    together with the parent's lines that fall in it, their positions
    rebased to the frame. Text and file fields keep only their range; their
    content is not read.

    The exceptions the source throws become `Failure` values. `Variant`
    selects the code as written, or the corrected reading described in
    README.md under "Findings". The corrected reading treats a missing
    Content-Type or Content-Disposition as null, and ends a part's content
    scan at the next delimiter line. */
module FormFields {
  import opened Wrappers
  import opened Strings
  import opened NameValues
  import opened FormHeaders

  /** The transfer encodings the constructor distinguishes. */
  datatype TransferEncoding = SevenBit | EightBit | Base64 | Unknown

  /** An IDictionary<String, FormFieldHeader>: its entries in enumeration
      order, keys compared ordinally; a value may be null (None). */
  type Dict = seq<(string, Option<Header>)>

  /** The exceptions: HttpException(400) with its format code,
      KeyNotFoundException from a dictionary indexer, and ArgumentException
      from adding a key that is already present. */
  datatype Failure = BadRequest(code: int) | KeyNotFound(key: string) | DuplicateKey(key: string)

  /** The code as written, or the corrected reading. */
  datatype Variant = AsWritten | Intended

  /** One line of a stream and the stream position after it. */
  datatype Line = Line(text: string, end: int)

  type Body = seq<Line>

  /** A FrameStream: the range [start, start + length) of the parent
      stream and the lines it holds, positioned relative to `start`. */
  datatype Frame = Frame(start: int, length: int, lines: Body)

  /** A case-insensitive copy of the headers. */
  type HeaderCollection = seq<(string, Option<Header>)>

  /** What the FormField constructor sets. */
  datatype FieldInfo = FieldInfo(
    headers: HeaderCollection,
    name: Option<string>,
    contentType: Option<string>,
    boundary: Option<string>,
    encoding: TransferEncoding,
    isBinary: bool)

  /** The three kinds of field: a text or file field keeps the range of its
      content, a multipart field its sub-fields in order. */
  datatype FieldBody =
    | Text(start: int, length: int)
    | File(start: int, length: int)
    | Multipart(subFields: seq<FormField>)

  datatype FormField = FormField(info: FieldInfo, body: FieldBody) {
    predicate IsMultipart() { body.Multipart? }
    predicate IsFile() { body.File? }
    predicate IsText() { body.Text? }
  }

  // ---------------------------------------------------------------------
  // Dictionaries

  /** The raw dictionary's TryGetValue: the value stored under exactly
      `key`, or None when the key is absent. */
  function Find(d: Dict, key: string): (r: Option<Option<Header>>)
    ensures r.None? <==> forall i :: 0 <= i < |d| ==> d[i].0 != key
    ensures r.Some? ==> exists i :: 0 <= i < |d| && d[i] == (key, r.value)
  {
    if d == [] then None
    else if d[0].0 == key then Some(d[0].1)
    else
      var r := Find(d[1..], key);
      assert forall i :: 0 <= i < |d| - 1 ==> d[1..][i] == d[i + 1];
      r
  }

  /** The raw indexer headers[key] that Create uses (MultipartForm.cs:73,
      78): a missing key throws KeyNotFoundException as written, and reads
      as null in the corrected reading. */
  function RawGet(d: Dict, key: string, v: Variant): (r: Result<Option<Header>, Failure>)
    ensures Find(d, key).Some? ==> r == Ok(Find(d, key).value)
    ensures Find(d, key).None? ==> r == if v == AsWritten then Err(KeyNotFound(key)) else Ok(None)
  {
    match Find(d, key)
    case Some(h) => Ok(h)
    case None => if v == AsWritten then Err(KeyNotFound(key)) else Ok(None)
  }

  /** No two keys are equal ignoring case. */
  predicate CaseDistinct(d: Dict) {
    forall i, j :: 0 <= i < j < |d| ==> !EqualsIgnoreCase(d[i].0, d[j].0)
  }

  predicate HasKeyIgnoreCase(d: Dict, key: string) {
    exists i :: 0 <= i < |d| && EqualsIgnoreCase(d[i].0, key)
  }

  /** new Dictionary(headers, InvariantCultureIgnoreCase)
      (MultipartForm.cs:120-123): the entries are added in order, and the
      first one whose key equals an earlier key ignoring case throws. */
  function NewHeaderCollection(d: Dict): (r: Result<HeaderCollection, Failure>)
    ensures r.Ok? <==> CaseDistinct(d)
    ensures r.Ok? ==> r.value == d
    ensures r.Err? ==> r.error.DuplicateKey? && HasKeyIgnoreCase(d, r.error.key)
  {
    if d == [] then Ok([])
    else
      var init := d[..|d| - 1];
      var last := d[|d| - 1];
      assert d == init + [last];
      match NewHeaderCollection(init)
      case Err(e) => Err(e)
      case Ok(h) =>
        if HasKeyIgnoreCase(h, last.0) then
          var i :| 0 <= i < |h| && EqualsIgnoreCase(h[i].0, last.0);
          assert !CaseDistinct(d) by {
            assert d[i].0 == h[i].0 && d[|d| - 1].0 == last.0;
          }
          Err(DuplicateKey(last.0))
        else
          Ok(h + [last])
  }

  /** HeaderCollection's indexer (MultipartForm.cs:115-118): the value
      under a key equal to `key` ignoring case, or null when there is none. */
  function HcGet(h: HeaderCollection, key: string): (r: Option<Header>)
    ensures r.Some? ==> exists i :: 0 <= i < |h| && EqualsIgnoreCase(h[i].0, key) && h[i].1 == r
    ensures !HasKeyIgnoreCase(h, key) ==> r.None?
  {
    if h == [] then None
    else if EqualsIgnoreCase(h[0].0, key) then h[0].1
    else
      var r := HcGet(h[1..], key);
      assert forall i :: 0 <= i < |h| - 1 ==> h[1..][i] == h[i + 1];
      r
  }

  /** In a collection without case-insensitive duplicates, every spelling
      of a key finds the one entry stored under it. */
  lemma {:induction false} HcGetFinds(h: HeaderCollection, i: nat, key: string)
    requires CaseDistinct(h) && i < |h| && EqualsIgnoreCase(h[i].0, key)
    ensures HcGet(h, key) == h[i].1
    decreases i
  {
    if i > 0 {
      assert !EqualsIgnoreCase(h[0].0, h[i].0);
      assert h[1..][i - 1] == h[i];
      assert CaseDistinct(h[1..]) by {
        forall a, b | 0 <= a < b < |h| - 1
          ensures !EqualsIgnoreCase(h[1..][a].0, h[1..][b].0)
        {
          assert h[1..][a] == h[a + 1] && h[1..][b] == h[b + 1];
        }
      }
      HcGetFinds(h[1..], i - 1, key);
    }
  }

  // ---------------------------------------------------------------------
  // The FormField constructor

  /** The Content-Transfer-Encoding switch (MultipartForm.cs:141-160): the
      encoding and IsBinary. */
  function EncodingOf(tenc: Option<Header>): (r: (TransferEncoding, bool))
    ensures r.1 <==> r.0 == Unknown
    ensures tenc.None? ==> r.0 == SevenBit
    ensures tenc.Some? ==>
              (r.0 == Base64 <==> ToLower(tenc.value.value) == "base64")
              && (r.0 == EightBit <==> ToLower(tenc.value.value) == "8bit")
              && (r.0 == SevenBit <==> ToLower(tenc.value.value) == "7bit")
  {
    match tenc
    case None => (SevenBit, false)
    case Some(t) =>
      var lower := ToLower(t.value);
      if lower == "base64" then (Base64, false)
      else if lower == "8bit" then (EightBit, false)
      else if lower == "7bit" then (SevenBit, false)
      else (Unknown, true)
  }

  /** An option of a header that may be null: null when the header is. */
  function OptionOf(h: Option<Header>, option: string): Option<string> {
    if h.Some? then Get(h.value.options, option) else None
  }

  /** The FormField constructor (MultipartForm.cs:128-161): the header
      collection, Name from the disposition's `name` option, ContentType and
      Boundary from Content-Type, and the transfer encoding. */
  function NewFieldInfo(d: Dict): (r: Result<FieldInfo, Failure>)
    ensures r.Ok? <==> CaseDistinct(d)
  {
    var hs :- NewHeaderCollection(d);
    var cdisp := HcGet(hs, "Content-Disposition");
    var ctype := HcGet(hs, "Content-Type");
    var (encoding, isBinary) := EncodingOf(HcGet(hs, "Content-Transfer-Encoding"));
    Ok(FieldInfo(
      hs,
      OptionOf(cdisp, "name"),
      if ctype.Some? then Some(ctype.value.value) else None,
      OptionOf(ctype, "boundary"),
      encoding,
      isBinary))
  }

  /** What the FormField constructor reads: Name is the `name` option of
      Content-Disposition, ContentType and Boundary are the value and the
      `boundary` option of Content-Type, all null when their header is, and
      the transfer encoding follows EncodingOf. Headers are looked up
      ignoring case. */
  lemma {:induction false} FieldInfoReads(d: Dict)
    requires CaseDistinct(d)
    ensures var info := NewFieldInfo(d).value;
            var hs := info.headers;
            hs == d
            && info.name == OptionOf(HcGet(hs, "Content-Disposition"), "name")
            && (HcGet(hs, "Content-Type").None? ==> info.contentType.None? && info.boundary.None?)
            && (HcGet(hs, "Content-Type").Some? ==>
                  info.contentType == Some(HcGet(hs, "Content-Type").value.value)
                  && info.boundary == Get(HcGet(hs, "Content-Type").value.options, "boundary"))
            && (info.encoding, info.isBinary) == EncodingOf(HcGet(hs, "Content-Transfer-Encoding"))
  {
  }

  /** The delimiter prefix "--" + Boundary; a null Boundary formats as the
      empty string (MultipartForm.cs:195, 216). */
  function Delimiter(info: FieldInfo): (delim: string)
    ensures StartsWith(delim, "--") && |delim| >= 2
  {
    "--" + if info.boundary.Some? then info.boundary.value else ""
  }

  // ---------------------------------------------------------------------
  // Lines and frames

  /** The stream position after the first k lines. */
  function Pos(body: Body, k: nat): int
    requires k <= |body|
  {
    if k == 0 then 0 else body[k - 1].end
  }

  /** Lines moved to a frame that starts at `start`. */
  function Rebase(lines: Body, start: int): (r: Body)
    ensures |r| == |lines|
    ensures forall i :: 0 <= i < |lines| ==> r[i] == Line(lines[i].text, lines[i].end - start)
  {
    if lines == [] then [] else [Line(lines[0].text, lines[0].end - start)] + Rebase(lines[1..], start)
  }

  /** The FrameStream over lines [si, ei): from the position after line
      si - 1 to the position after line ei - 1. */
  function FrameOf(body: Body, si: nat, ei: nat): (f: Frame)
    requires si <= ei <= |body|
    ensures |f.lines| == ei - si
    ensures f.start == Pos(body, si) && f.length == Pos(body, ei) - Pos(body, si)
  {
    Frame(Pos(body, si), Pos(body, ei) - Pos(body, si), Rebase(body[si..ei], Pos(body, si)))
  }

  /** ReadLine on a fresh reader: the first line, or null at end of stream. */
  function FirstLine(body: Body): Option<string> {
    if body == [] then None else Some(body[0].text)
  }

  // ---------------------------------------------------------------------
  // Create and the multipart constructor, as specifications

  /** FormField.Create (MultipartForm.cs:71-91). A Content-Type whose value
      starts with "multipart/" in any case gives a multipart field;
      otherwise the lower-cased disposition value picks a file ("file") or
      text ("form-data") field, and anything else is rejected with 0x01. A
      null disposition is rejected with 0x00. */
  function Create(d: Dict, frame: Frame, v: Variant): (r: Result<FormField, Failure>)
    decreases |frame.lines|, 4
  {
    var ctype :- RawGet(d, "Content-Type", v);
    if IsMultipartType(ctype) then MultipartField(d, frame.lines, v)
    else LeafField(d, frame, v)
  }

  /** A Content-Type header announcing a multipart body. */
  predicate IsMultipartType(ctype: Option<Header>) {
    ctype.Some? && StartsWithIgnoreCase(ctype.value.value, "multipart/")
  }

  /** The disposition switch of Create (MultipartForm.cs:78-90). */
  function LeafField(d: Dict, frame: Frame, v: Variant): (r: Result<FormField, Failure>)
    ensures r.Ok? ==> NewFieldInfo(d).Ok? && r.value.info == NewFieldInfo(d).value
    ensures r.Ok? ==> (r.value.IsFile() || r.value.IsText()) && r.value.body.start == frame.start && r.value.body.length == frame.length
  {
    var cdisp :- RawGet(d, "Content-Disposition", v);
    if cdisp.None? then Err(BadRequest(0x00))
    else
      var kind := ToLower(cdisp.value.value);
      if kind == "file" then
        var info :- NewFieldInfo(d);
        Ok(FormField(info, File(frame.start, frame.length)))
      else if kind == "form-data" then
        var info :- NewFieldInfo(d);
        Ok(FormField(info, Text(frame.start, frame.length)))
      else
        Err(BadRequest(0x01))
  }

  /** The MultipartFormField constructor (MultipartForm.cs:185-226): the
      base constructor, then the delimiter loop from the first line. */
  function MultipartField(d: Dict, body: Body, v: Variant): (r: Result<FormField, Failure>)
    ensures r.Ok? ==> NewFieldInfo(d).Ok? && r.value.info == NewFieldInfo(d).value && r.value.IsMultipart()
    decreases |body|, 3
  {
    var info :- NewFieldInfo(d);
    var subFields :- Rounds(body, if body == [] then 0 else 1, FirstLine(body), Delimiter(info), [], v);
    Ok(FormField(info, Multipart(subFields)))
  }

  /** One pass of the outer loop (MultipartForm.cs:194-223) with `line`
      just read and `k` lines consumed: a missing line or one without the
      delimiter prefix is rejected with 0x10, a line ending in "--" ends
      the field, and otherwise the part's headers are read and its content
      scanned. */
  function Rounds(body: Body, k: nat, line: Option<string>, delim: string, fields: seq<FormField>, v: Variant)
    : (r: Result<seq<FormField>, Failure>)
    requires k <= |body| && (line.Some? ==> 1 <= k)
    decreases |body|, 2, |body| - k + (if line.Some? then 1 else 0)
  {
    if line.None? || !StartsWith(line.value, delim) then Err(BadRequest(0x10))
    else if EndsWith(line.value, "--") then Ok(fields)
    else
      var (dict, k2) :- HeaderBlock(body, k, []);
      var (fields', k3, line') :- Scan(body, k2, k2, k2, dict, fields, delim, v);
      Rounds(body, k3, line', delim, fields', v)
  }

  /** The header loop (MultipartForm.cs:201-211): lines up to a blank one
      or the end of the stream are parsed with ParseKeyValue and added to
      the dictionary; a line that does not parse is rejected with 0x11 and
      a repeated key throws. Gives the dictionary and the lines consumed. */
  function HeaderBlock(body: Body, k: nat, dict: Dict): (r: Result<(Dict, nat), Failure>)
    requires k <= |body|
    ensures r.Ok? ==> k <= r.value.1 <= |body|
    decreases |body| - k
  {
    if k == |body| then Ok((dict, k))
    else if AllWhiteSpace(body[k].text) then Ok((dict, k + 1))
    else
      match HeaderMatch(body[k].text)
      case None => Err(BadRequest(0x11))
      case Some(m) =>
        if Find(dict, m.key).Some? then Err(DuplicateKey(m.key))
        else HeaderBlock(body, k + 1, dict + [(m.key, Some(HeaderOf(m)))])
  }

  /** The content scan (MultipartForm.cs:213-222) from line k, for a part
      whose content starts after line si - 1 and whose last non-delimiter
      line so far ends after line ei - 1. Every delimiter line creates a
      sub-field over [start, end). As written the scan runs on to the end
      of the stream; the corrected reading stops after the first delimiter
      line and hands it back to the outer loop. Gives the fields, the lines
      consumed and the line the outer loop tests next. */
  function Scan(body: Body, k: nat, si: nat, ei: nat, dict: Dict, fields: seq<FormField>, delim: string, v: Variant)
    : (r: Result<(seq<FormField>, nat, Option<string>), Failure>)
    requires 1 <= si <= ei <= k <= |body|
    ensures r.Ok? ==> k <= r.value.1 <= |body|
    ensures r.Ok? && r.value.2.Some? ==> k < r.value.1
    ensures r.Ok? && v == AsWritten ==> r.value.1 == |body| && r.value.2.None?
    decreases |body|, 1, |body| - k
  {
    if k == |body| then Ok((fields, k, None))
    else if !StartsWith(body[k].text, delim) then Scan(body, k + 1, si, k + 1, dict, fields, delim, v)
    else
      var f :- Create(dict, FrameOf(body, si, ei), v);
      if v == AsWritten then Scan(body, k + 1, si, ei, dict, fields + [f], delim, v)
      else Ok((fields + [f], k + 1, Some(body[k].text)))
  }

  /** MultipartFormField's indexer (MultipartForm.cs:174-177): the first
      sub-field whose Name equals the key exactly (null matching null), or
      null. */
  function Lookup(fields: seq<FormField>, key: Option<string>): (r: Option<FormField>)
    ensures r.None? <==> forall i :: 0 <= i < |fields| ==> fields[i].info.name != key
    ensures r.Some? ==>
              exists i :: 0 <= i < |fields| && fields[i] == r.value && fields[i].info.name == key
                          && forall j :: 0 <= j < i ==> fields[j].info.name != key
  {
    if fields == [] then None
    else if fields[0].info.name == key then Some(fields[0])
    else
      var r := Lookup(fields[1..], key);
      assert forall i :: 0 <= i < |fields| - 1 ==> fields[1..][i] == fields[i + 1];
      r
  }

  // ---------------------------------------------------------------------
  // Create

  /** The field Create builds carries the headers it was given, as the
      FormField constructor reads them, whatever kind it is. */
  lemma {:induction false} CreateInfo(d: Dict, frame: Frame, v: Variant)
    requires Create(d, frame, v).Ok?
    ensures NewFieldInfo(d).Ok? && Create(d, frame, v).value.info == NewFieldInfo(d).value
  {
  }

  /** A Content-Type starting with "multipart/" in any case is the only way
      to a multipart field; a file field needs the disposition "file" and a
      text field the disposition "form-data", both in any case, and both
      cover the whole frame. */
  lemma {:induction false} CreateKinds(d: Dict, frame: Frame, v: Variant)
    requires Create(d, frame, v).Ok?
    ensures var f := Create(d, frame, v).value;
            var multipart := IsMultipartType(RawGet(d, "Content-Type", v).value);
            (f.IsMultipart() <==> multipart)
            && (!multipart ==>
                  var cdisp := RawGet(d, "Content-Disposition", v).value;
                  cdisp.Some?
                  && (f.IsFile() <==> ToLower(cdisp.value.value) == "file")
                  && (f.IsText() <==> ToLower(cdisp.value.value) == "form-data")
                  && (f.IsFile() || f.IsText())
                  && f.body.start == frame.start && f.body.length == frame.length)
  {
  }

  /** A field that is not multipart and whose disposition is null is
      rejected with 0x00, and one with any other disposition than "file"
      or "form-data" with 0x01. */
  lemma {:induction false} CreateRejects(d: Dict, frame: Frame, v: Variant, ctype: Option<Header>)
    requires RawGet(d, "Content-Type", v) == Ok(ctype)
    requires !IsMultipartType(ctype)
    ensures RawGet(d, "Content-Disposition", v) == Ok(None) ==> Create(d, frame, v) == Err(BadRequest(0x00))
    ensures (RawGet(d, "Content-Disposition", v).Ok? && RawGet(d, "Content-Disposition", v).value.Some?
             && ToLower(RawGet(d, "Content-Disposition", v).value.value.value) !in {"file", "form-data"})
            ==> Create(d, frame, v) == Err(BadRequest(0x01))
  {
  }

  /** As written, Create reads Content-Type with the raw indexer, so a part
      that sends no Content-Type header, as a plain text input does, throws
      KeyNotFoundException whatever its disposition. */
  lemma {:induction false} MissingContentTypeThrows(d: Dict, frame: Frame)
    requires Find(d, "Content-Type").None?
    ensures Create(d, frame, AsWritten) == Err(KeyNotFound("Content-Type"))
  {
  }

  /** In the corrected reading the same part is a text field over the whole
      frame when its disposition is "form-data", named by the disposition's
      `name` option and with no content type. */
  lemma {:induction false} MissingContentTypeText(d: Dict, frame: Frame, cdisp: Header)
    requires CaseDistinct(d) && !HasKeyIgnoreCase(d, "Content-Type")
    requires Find(d, "Content-Disposition") == Some(Some(cdisp)) && ToLower(cdisp.value) == "form-data"
    ensures Create(d, frame, Intended).Ok?
    ensures var f := Create(d, frame, Intended).value;
            f.body == Text(frame.start, frame.length) && f.info.contentType.None?
            && f.info.name == Get(cdisp.options, "name")
  {
    var i :| 0 <= i < |d| && d[i] == ("Content-Disposition", Some(cdisp));
    HcGetFinds(d, i, "Content-Disposition");
    assert Find(d, "Content-Type").None?;
    FieldInfoReads(d);
  }

  // ---------------------------------------------------------------------
  // The multipart constructor as written

  /** As written, a pass of the outer loop that reads a part can only end
      in the 0x10 rejection: the scan always runs to the end of the stream.
      So the loop succeeds only on a closing delimiter line, with no
      sub-field added. */
  lemma {:induction false} WrittenRounds(body: Body, k: nat, line: Option<string>, delim: string, fields: seq<FormField>)
    requires k <= |body| && (line.Some? ==> 1 <= k)
    requires Rounds(body, k, line, delim, fields, AsWritten).Ok?
    ensures line.Some? && StartsWith(line.value, delim) && EndsWith(line.value, "--")
    ensures Rounds(body, k, line, delim, fields, AsWritten) == Ok(fields)
  {
  }

  /** The multipart constructor as written returns normally only when the
      first line of its stream is a closing delimiter, and then with no
      sub-fields. */
  lemma {:induction false} WrittenMultipart(d: Dict, body: Body)
    requires MultipartField(d, body, AsWritten).Ok?
    ensures var info := NewFieldInfo(d).value;
            body != [] && StartsWith(body[0].text, Delimiter(info)) && EndsWith(body[0].text, "--")
            && MultipartField(d, body, AsWritten).value == FormField(info, Multipart([]))
  {
    var info := NewFieldInfo(d).value;
    WrittenRounds(body, if body == [] then 0 else 1, FirstLine(body), Delimiter(info), []);
  }

  /** A stream that is empty, or whose first line lacks the delimiter
      prefix, is rejected with 0x10 in either reading. */
  lemma {:induction false} MissingDelimiter(d: Dict, body: Body, v: Variant)
    requires CaseDistinct(d)
    requires body == [] || !StartsWith(body[0].text, Delimiter(NewFieldInfo(d).value))
    ensures MultipartField(d, body, v) == Err(BadRequest(0x10))
  {
  }

  /** A stream whose first line is a closing delimiter gives a multipart
      field with no sub-fields in either reading. */
  lemma {:induction false} ClosingFirstLine(d: Dict, body: Body, v: Variant)
    requires CaseDistinct(d) && body != []
    requires StartsWith(body[0].text, Delimiter(NewFieldInfo(d).value)) && EndsWith(body[0].text, "--")
    ensures MultipartField(d, body, v) == Ok(FormField(NewFieldInfo(d).value, Multipart([])))
  {
  }

  // ---------------------------------------------------------------------
  // The multipart constructor as intended: a body laid out part by part

  /** A header line as a client writes it: `key: "value"; k="v"...`. */
  datatype HeaderSpec = HeaderSpec(key: string, value: string, options: seq<(string, string)>)

  /** A part: its header lines and its content lines. */
  datatype PartSpec = PartSpec(headers: seq<HeaderSpec>, content: seq<string>)

  function HeaderLine(h: HeaderSpec): string {
    FormatHeader(h.key, h.value, h.options)
  }

  /** The dictionary the header loop builds from a part's header lines. */
  function DictOf(hs: seq<HeaderSpec>): Dict {
    Added([], hs)
  }

  /** `dict` with the entries of `hs` appended one by one, as the header
      loop adds them. */
  function Added(dict: Dict, hs: seq<HeaderSpec>): (r: Dict)
    ensures |r| == |dict| + |hs|
    decreases |hs|
  {
    if hs == [] then dict else Added(dict + [Entry(hs[0])], hs[1..])
  }

  /** The dictionary entry of one header line. */
  function Entry(h: HeaderSpec): (string, Option<Header>) {
    (h.key, Some(Header(h.value, h.options)))
  }

  predicate WellFormedHeader(h: HeaderSpec) {
    IsKey(h.key) && IsQuotable(h.value)
    && forall i :: 0 <= i < |h.options| ==> IsKey(h.options[i].0) && IsQuotable(h.options[i].1)
  }

  /** Parts a client can send under the delimiter `delim`: the opening
      delimiter line does not end in "--", every header line reads back,
      no two header lines of a part share a key, and no content line
      starts with the delimiter. */
  predicate WellFormedParts(delim: string, parts: seq<PartSpec>) {
    !EndsWith(delim, "--")
    && forall p :: p in parts ==>
         (forall i :: 0 <= i < |p.headers| ==> WellFormedHeader(p.headers[i]))
         && (forall i, j :: 0 <= i < j < |p.headers| ==> p.headers[i].key != p.headers[j].key)
         && (forall i :: 0 <= i < |p.content| ==> !StartsWith(p.content[i], delim))
  }

  /** The lines from line d on hold the parts: each part's delimiter line
      is `delim`, its header lines are written as its headers, then comes
      a blank line and then its content lines; the closing delimiter line
      is `delim--`. */
  predicate LaidOut(body: Body, d: nat, delim: string, parts: seq<PartSpec>)
    decreases |parts|
  {
    d < |body|
    && if parts == [] then body[d].text == delim + "--"
       else
         var p := parts[0];
         var k := d + 1;
         var c := k + |p.headers| + 1;
         var e := c + |p.content|;
         body[d].text == delim && e < |body|
         && (forall i :: 0 <= i < |p.headers| ==> body[k + i].text == HeaderLine(p.headers[i]))
         && body[k + |p.headers|].text == ""
         && (forall i :: 0 <= i < |p.content| ==> body[c + i].text == p.content[i])
         && LaidOut(body, e, delim, parts[1..])
  }

  /** What the layout says about its first part, in the terms PartMade
      takes, and that the rest of the parts are laid out after it. */
  lemma {:induction false} FirstPart(body: Body, d: nat, delim: string, parts: seq<PartSpec>)
    requires LaidOut(body, d, delim, parts) && WellFormedParts(delim, parts) && parts != []
    ensures var p := parts[0];
            var k := d + 1;
            var c := k + |p.headers| + 1;
            var e := c + |p.content|;
            && e < |body| && body[d].text == delim && !EndsWith(delim, "--")
            && (forall i :: c <= i < e ==> !StartsWith(body[i].text, delim))
            && StartsWith(body[e].text, delim)
            && LaidOut(body, e, delim, parts[1..]) && WellFormedParts(delim, parts[1..])
  {
    var p := parts[0];
    var c := d + 1 + |p.headers| + 1;
    var e := c + |p.content|;
    assert p in parts;
    assert forall i :: c <= i < e ==> !StartsWith(body[i].text, delim) by {
      forall i | c <= i < e
        ensures !StartsWith(body[i].text, delim)
      {
        assert body[c + (i - c)].text == p.content[i - c];
      }
    }
    assert StartsWith(body[e].text, delim) by {
      if parts[1..] == [] {
        assert body[e].text == delim + "--";
      } else {
        assert body[e].text == delim;
      }
    }
    assert WellFormedParts(delim, parts[1..]) by {
      forall q | q in parts[1..] ensures q in parts { }
    }
  }

  /** The first part's header lines, in the terms FirstHeaders takes:
      together the two say that the header loop reads them into their
      dictionary and stops after the blank line that follows them. */
  lemma {:induction false} FirstHeaderLines(body: Body, d: nat, delim: string, parts: seq<PartSpec>)
    requires LaidOut(body, d, delim, parts) && WellFormedParts(delim, parts) && parts != []
    ensures d + 1 + |parts[0].headers| < |body| && body[d + 1 + |parts[0].headers|].text == ""
    ensures HeadersAt(body, d + 1, parts[0].headers) && KeysFresh([], parts[0].headers)
  {
    var p := parts[0];
    assert p in parts;
    HeadersAtOf(body, d + 1, p.headers);
    KeysFreshOf([], p.headers);
  }

  /** Header lines that parse, with keys new to the dictionary, then a
      blank line: the header loop reads them into their dictionary and
      stops after the blank line. */
  lemma {:induction false} FirstHeaders(body: Body, k: nat, hs: seq<HeaderSpec>)
    requires k + |hs| < |body| && body[k + |hs|].text == ""
    requires HeadersAt(body, k, hs) && KeysFresh([], hs)
    ensures HeaderBlock(body, k, []) == Ok((DictOf(hs), k + |hs| + 1))
  {
    HeaderBlockOf(body, k, hs, [], k + |hs|);
    BlankLineStops(body, k, hs, []);
  }

  /** A blank line after the header lines ends the header loop. */
  lemma {:induction false} BlankLineStops(body: Body, k: nat, hs: seq<HeaderSpec>, dict: Dict)
    requires k + |hs| < |body| && body[k + |hs|].text == ""
    requires HeaderBlock(body, k, dict) == HeaderBlock(body, k + |hs|, Added(dict, hs))
    ensures HeaderBlock(body, k, dict) == Ok((Added(dict, hs), k + |hs| + 1))
  {
    assert AllWhiteSpace(body[k + |hs|].text);
  }

  /** One pass of the corrected outer loop over a part on an opening
      delimiter line: the header loop gives the part's dictionary and its
      first content line c, and content lines run up to the next delimiter
      line e. When the part makes a field, the loop goes on at line e (whose
      text is closing) with that field added; next is e + 1. */
  lemma {:induction false} PartMade(body: Body, k: nat, line: string, delim: string, dict: Dict, c: nat, e: nat, fields: seq<FormField>,
                                    f: FormField, next: nat, closing: string)
    requires 1 <= k <= c <= e < |body|
    requires next == e + 1 && closing == body[e].text
    requires StartsWith(line, delim) && !EndsWith(line, "--")
    requires HeaderBlock(body, k, []) == Ok((dict, c))
    requires forall i :: c <= i < e ==> !StartsWith(body[i].text, delim)
    requires StartsWith(closing, delim)
    requires Create(dict, FrameOf(body, c, e), Intended) == Ok(f)
    ensures Rounds(body, k, Some(line), delim, fields, Intended) == Rounds(body, next, Some(closing), delim, fields + [f], Intended)
  {
    ScanMade(body, c, dict, fields, delim, e, f, next, closing);
    RoundsThrough(body, k, line, delim, fields, Intended, dict, c, fields + [f], next, Some(closing));
  }

  /** The corrected scan of a part that makes the field f. */
  lemma ScanMade(body: Body, c: nat, dict: Dict, fields: seq<FormField>, delim: string, e: nat, f: FormField, next: nat, closing: string)
    requires 1 <= c <= e < |body|
    requires next == e + 1 && closing == body[e].text
    requires forall i :: c <= i < e ==> !StartsWith(body[i].text, delim)
    requires StartsWith(closing, delim)
    requires Create(dict, FrameOf(body, c, e), Intended) == Ok(f)
    ensures Scan(body, c, c, c, dict, fields, delim, Intended) == Ok((fields + [f], next, Some(closing)))
  {
    ScanIntended(body, c, dict, fields, delim, e);
  }

  /** The same pass when the part is rejected: the outer loop ends with
      the part's failure. */
  lemma {:induction false} PartRejected(body: Body, k: nat, line: string, delim: string, dict: Dict, c: nat, e: nat, fields: seq<FormField>)
    requires 1 <= k <= c <= e < |body|
    requires StartsWith(line, delim) && !EndsWith(line, "--")
    requires HeaderBlock(body, k, []) == Ok((dict, c))
    requires forall i :: c <= i < e ==> !StartsWith(body[i].text, delim)
    requires StartsWith(body[e].text, delim)
    requires Create(dict, FrameOf(body, c, e), Intended).Err?
    ensures Rounds(body, k, Some(line), delim, fields, Intended) == Err(Create(dict, FrameOf(body, c, e), Intended).error)
  {
    ScanIntended(body, c, dict, fields, delim, e);
    RoundsFail(body, k, line, delim, fields, Intended, dict, c, Create(dict, FrameOf(body, c, e), Intended).error);
  }

  /** One pass of the outer loop on an opening delimiter line: the header
      block, then the scan, then the loop goes on where the scan stopped. */
  lemma {:induction false} RoundsThrough(body: Body, k: nat, line: string, delim: string, fields: seq<FormField>, v: Variant,
                                         dict: Dict, c: nat, fields': seq<FormField>, k': nat, line': Option<string>)
    requires 1 <= k <= c <= |body|
    requires StartsWith(line, delim) && !EndsWith(line, "--")
    requires HeaderBlock(body, k, []) == Ok((dict, c))
    requires Scan(body, c, c, c, dict, fields, delim, v) == Ok((fields', k', line'))
    ensures Rounds(body, k, Some(line), delim, fields, v) == Rounds(body, k', line', delim, fields', v)
  {
  }

  /** A pass whose scan fails ends the outer loop with that failure. */
  lemma {:induction false} RoundsFail(body: Body, k: nat, line: string, delim: string, fields: seq<FormField>, v: Variant,
                                      dict: Dict, c: nat, failure: Failure)
    requires 1 <= k <= c <= |body|
    requires StartsWith(line, delim) && !EndsWith(line, "--")
    requires HeaderBlock(body, k, []) == Ok((dict, c))
    requires Scan(body, c, c, c, dict, fields, delim, v) == Err(failure)
    ensures Rounds(body, k, Some(line), delim, fields, v) == Err(failure)
  {
  }

  /** The header loop reads header lines that parse, followed by a blank
      line, into their dictionary. */
  lemma {:induction false} HeaderBlockOf(body: Body, k: nat, hs: seq<HeaderSpec>, dict: Dict, end: nat)
    requires HeadersAt(body, k, hs) && KeysFresh(dict, hs) && end == k + |hs|
    ensures HeaderBlock(body, k, dict) == HeaderBlock(body, end, Added(dict, hs))
    decreases |hs|
  {
    if hs != [] {
      HeaderBlockOf(body, k + 1, hs[1..], dict + [Entry(hs[0])], end);
      HeaderLineStep(body, k, hs[0], dict);
    }
  }

  /** One header line that parses: it is added to the dictionary and the
      loop goes on with the next line. */
  lemma {:induction false} HeaderLineStep(body: Body, k: nat, h: HeaderSpec, dict: Dict)
    requires k < |body| && ParsesTo(body[k].text, h) && Find(dict, h.key).None?
    ensures HeaderBlock(body, k, dict) == HeaderBlock(body, k + 1, dict + [Entry(h)])
  {
  }

  /** A header line that is not blank and does not match the header
      expression is rejected with 0x11. */
  lemma {:induction false} HeaderLineRejected(body: Body, k: nat, dict: Dict)
    requires k < |body| && !AllWhiteSpace(body[k].text) && HeaderMatch(body[k].text).None?
    ensures HeaderBlock(body, k, dict) == Err(BadRequest(0x11))
  {
  }

  /** A header line whose key is already in the dictionary fails as
      Dictionary.Add does on a repeated key. */
  lemma {:induction false} HeaderKeyRepeated(body: Body, k: nat, dict: Dict, key: string)
    requires k < |body| && !AllWhiteSpace(body[k].text)
    requires HeaderMatch(body[k].text).Some? && HeaderMatch(body[k].text).value.key == key
    requires Find(dict, key).Some?
    ensures HeaderBlock(body, k, dict) == Err(DuplicateKey(key))
  {
  }

  /** A header loop that fails on the first part ends the multipart field
      with that failure, in either reading. */
  lemma {:induction false} HeaderFailureRejects(d: Dict, body: Body, v: Variant, failure: Failure)
    requires CaseDistinct(d) && |body| >= 1
    requires StartsWith(body[0].text, Delimiter(NewFieldInfo(d).value)) && !EndsWith(body[0].text, "--")
    requires HeaderBlock(body, 1, []) == Err(failure)
    ensures MultipartField(d, body, v) == Err(failure)
  {
  }

  /** A part whose first header line is rejected rejects the whole
      multipart field with 0x11, in either reading. */
  lemma {:induction false} FirstHeaderRejected(d: Dict, body: Body, v: Variant)
    requires CaseDistinct(d) && |body| >= 2
    requires StartsWith(body[0].text, Delimiter(NewFieldInfo(d).value)) && !EndsWith(body[0].text, "--")
    requires !AllWhiteSpace(body[1].text) && HeaderMatch(body[1].text).None?
    ensures MultipartField(d, body, v) == Err(BadRequest(0x11))
  {
    HeaderLineRejected(body, 1, []);
    HeaderFailureRejects(d, body, v, BadRequest(0x11));
  }

  /** A part whose first two header lines share a key rejects the whole
      multipart field with the repeated-key failure, in either reading. */
  lemma {:induction false} RepeatedHeaderRejected(d: Dict, body: Body, v: Variant, key: string)
    requires CaseDistinct(d) && |body| >= 3
    requires StartsWith(body[0].text, Delimiter(NewFieldInfo(d).value)) && !EndsWith(body[0].text, "--")
    requires !AllWhiteSpace(body[1].text) && HeaderMatch(body[1].text).Some? && HeaderMatch(body[1].text).value.key == key
    requires !AllWhiteSpace(body[2].text) && HeaderMatch(body[2].text).Some? && HeaderMatch(body[2].text).value.key == key
    ensures MultipartField(d, body, v) == Err(DuplicateKey(key))
  {
    TwoHeadersRepeat(body, 1, [], key);
    HeaderFailureRejects(d, body, v, DuplicateKey(key));
  }

  /** The header loop at two consecutive lines with the same key, the
      first one fresh. */
  lemma {:induction false} TwoHeadersRepeat(body: Body, k: nat, dict: Dict, key: string)
    requires k + 1 < |body| && Find(dict, key).None?
    requires !AllWhiteSpace(body[k].text) && HeaderMatch(body[k].text).Some? && HeaderMatch(body[k].text).value.key == key
    requires !AllWhiteSpace(body[k + 1].text) && HeaderMatch(body[k + 1].text).Some? && HeaderMatch(body[k + 1].text).value.key == key
    ensures HeaderBlock(body, k, dict) == Err(DuplicateKey(key))
  {
    var m := HeaderMatch(body[k].text).value;
    var dict' := dict + [(key, Some(HeaderOf(m)))];
    assert dict'[|dict|].0 == key;
    HeaderAdded(body, k, dict, m, dict');
    HeaderKeyRepeated(body, k + 1, dict', key);
  }

  /** A header line that matches with a fresh key is added. */
  lemma {:induction false} HeaderAdded(body: Body, k: nat, dict: Dict, m: Captures, dict': Dict)
    requires k < |body| && !AllWhiteSpace(body[k].text) && HeaderMatch(body[k].text) == Some(m)
    requires Find(dict, m.key).None? && dict' == dict + [(m.key, Some(HeaderOf(m)))]
    ensures HeaderBlock(body, k, dict) == HeaderBlock(body, k + 1, dict')
  {
  }

  /** The lines from k on are header lines that parse as `hs`. */
  predicate HeadersAt(body: Body, k: nat, hs: seq<HeaderSpec>)
    decreases |hs|
  {
    k + |hs| <= |body| && (hs != [] ==> ParsesTo(body[k].text, hs[0]) && HeadersAt(body, k + 1, hs[1..]))
  }

  /** Adding the headers `hs` one by one to `dict` never meets a key that
      is already present. */
  predicate KeysFresh(dict: Dict, hs: seq<HeaderSpec>)
    decreases |hs|
  {
    hs != [] ==> Find(dict, hs[0].key).None? && KeysFresh(dict + [Entry(hs[0])], hs[1..])
  }

  lemma {:induction false} HeadersAtOf(body: Body, k: nat, hs: seq<HeaderSpec>)
    requires k + |hs| <= |body|
    requires forall i :: 0 <= i < |hs| ==> body[k + i].text == HeaderLine(hs[i]) && WellFormedHeader(hs[i])
    ensures HeadersAt(body, k, hs)
    decreases |hs|
  {
    if hs != [] {
      forall i | 0 <= i < |hs| - 1
        ensures body[k + 1 + i].text == HeaderLine(hs[1..][i]) && WellFormedHeader(hs[1..][i])
      {
        assert hs[1..][i] == hs[i + 1];
      }
      HeadersAtOf(body, k + 1, hs[1..]);
      assert ParsesTo(body[k].text, hs[0]) by {
        assert body[k].text == HeaderLine(hs[0]);
        HeaderLineParses(hs[0]);
      }
    }
  }

  lemma {:induction false} KeysFreshOf(dict: Dict, hs: seq<HeaderSpec>)
    requires forall i, j :: 0 <= i < j < |hs| ==> hs[i].key != hs[j].key
    requires forall i, j :: 0 <= i < |dict| && 0 <= j < |hs| ==> dict[i].0 != hs[j].key
    ensures KeysFresh(dict, hs)
    decreases |hs|
  {
    if hs != [] {
      var dict' := dict + [Entry(hs[0])];
      var rest := hs[1..];
      forall i, j | 0 <= i < j < |rest|
        ensures rest[i].key != rest[j].key
      {
        assert rest[i] == hs[i + 1] && rest[j] == hs[j + 1];
      }
      forall i, j | 0 <= i < |dict'| && 0 <= j < |rest|
        ensures dict'[i].0 != rest[j].key
      {
        assert rest[j] == hs[j + 1];
        if i == |dict| {
          assert dict'[i].0 == hs[0].key;
        } else {
          assert dict'[i] == dict[i];
        }
      }
      KeysFreshOf(dict', rest);
    }
  }

  /** A line the header loop accepts, read back as the header `h`. */
  predicate ParsesTo(text: string, h: HeaderSpec) {
    !AllWhiteSpace(text)
    && HeaderMatch(text) == Some(Captures(h.key, h.value, Keys(h.options), Values(h.options)))
    && HeaderOf(HeaderMatch(text).value) == Header(h.value, h.options)
  }

  /** A well-formed header line reads back as its header. */
  lemma {:induction false} HeaderLineParses(h: HeaderSpec)
    requires WellFormedHeader(h)
    ensures ParsesTo(HeaderLine(h), h)
  {
    var line := HeaderLine(h);
    assert !AllWhiteSpace(line) by {
      assert line[0] == h.key[0];
      assert IsKeyChar(h.key[0]);
    }
    FormatHeaderRoundTrip(h.key, h.value, h.options);
    ZipKeysValues(h.options);
  }

  lemma {:induction false} ZipKeysValues(options: seq<(string, string)>)
    ensures Zip(Keys(options), Values(options)) == options
  {
  }

  /** Lines without the delimiter prefix only move the end of the part
      forward, in either reading. */
  lemma {:induction false} ScanSkips(body: Body, k: nat, si: nat, ei: nat, dict: Dict, fields: seq<FormField>, delim: string, v: Variant, j: nat)
    requires 1 <= si <= ei <= k < j <= |body|
    requires forall i :: k <= i < j ==> !StartsWith(body[i].text, delim)
    ensures Scan(body, k, si, ei, dict, fields, delim, v) == Scan(body, j, si, j, dict, fields, delim, v)
    decreases j - k
  {
    assert !StartsWith(body[k].text, delim);
    if k + 1 < j {
      ScanSkips(body, k + 1, si, k + 1, dict, fields, delim, v, j);
    }
  }

  /** The corrected scan stops at a delimiter line: the part becomes one
      field over its lines [si, ei), and the delimiter line goes back to
      the outer loop. */
  lemma {:induction false} ScanStops(body: Body, j: nat, si: nat, ei: nat, dict: Dict, fields: seq<FormField>, delim: string)
    requires 1 <= si <= ei <= j < |body|
    requires StartsWith(body[j].text, delim)
    ensures var r := Create(dict, FrameOf(body, si, ei), Intended);
            Scan(body, j, si, ei, dict, fields, delim, Intended)
            == if r.Ok? then Ok((fields + [r.value], j + 1, Some(body[j].text))) else Err(r.error)
  {
  }

  /** The corrected scan of a part's content: the lines [c, e) up to the
      next delimiter line e become one field, and line e goes back to the
      outer loop. */
  lemma {:induction false} ScanIntended(body: Body, c: nat, dict: Dict, fields: seq<FormField>, delim: string, e: nat)
    requires 1 <= c <= e < |body|
    requires forall i :: c <= i < e ==> !StartsWith(body[i].text, delim)
    requires StartsWith(body[e].text, delim)
    ensures var r := Create(dict, FrameOf(body, c, e), Intended);
            Scan(body, c, c, c, dict, fields, delim, Intended)
            == if r.Ok? then Ok((fields + [r.value], e + 1, Some(body[e].text))) else Err(r.error)
  {
    if c < e {
      ScanSkips(body, c, c, c, dict, fields, delim, Intended, e);
    }
    ScanStops(body, e, c, e, dict, fields, delim);
  }
}
