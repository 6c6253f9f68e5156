/** The MultipartFormField constructor as the source runs it
    (MultipartForm.cs:185-226): a reader over the field's lines, an outer
    loop over delimiter lines, a header loop and a content scan, each
    proved to compute the function in FormFields that specifies it.

    ReadLine is the next line of the body, or null once every line is
    consumed; the reader's position after a line is that line's `end`. */
module MultipartReader {
  import opened Wrappers
  import opened Strings
  import opened FormHeaders
  import opened FormFields

  /** FormField.Create (MultipartForm.cs:71-91): a multipart Content-Type
      runs the multipart constructor on the frame's lines; any other part
      goes through the disposition switch. */
  method CreateField(d: Dict, frame: Frame, v: Variant) returns (r: Result<FormField, Failure>)
    ensures r == Create(d, frame, v)
    decreases |frame.lines|, 4
  {
    var ctype := RawGet(d, "Content-Type", v);
    if ctype.Err? {
      return Err(ctype.error);
    }
    if IsMultipartType(ctype.value) {
      r := NewMultipartFormField(d, frame.lines, v);
    } else {
      r := LeafField(d, frame, v);
    }
  }

  /** The constructor: the base FormField constructor, then the outer loop
      from the first line until a closing delimiter line. */
  method NewMultipartFormField(d: Dict, body: Body, v: Variant) returns (r: Result<FormField, Failure>)
    ensures r == MultipartField(d, body, v)
    decreases |body|, 3
  {
    var base := NewFieldInfo(d);
    if base.Err? {
      return Err(base.error);
    }
    var info := base.value;
    var delim := Delimiter(info);
    var subFields: seq<FormField> := [];
    var k: nat := if body == [] then 0 else 1;
    var line := FirstLine(body);
    ghost var total := Rounds(body, k, line, delim, [], v);
    while true
      invariant k <= |body| && (line.Some? ==> 1 <= k)
      invariant Rounds(body, k, line, delim, subFields, v) == total
      decreases |body| - k + (if line.Some? then 1 else 0)
    {
      if line.None? || !StartsWith(line.value, delim) {
        return Err(BadRequest(0x10));
      }
      if EndsWith(line.value, "--") {
        break;
      }
      var headers := ReadHeaders(body, k);
      if headers.Err? {
        return Err(headers.error);
      }
      var (headerDict, c) := headers.value;
      var scan := ScanContent(body, c, headerDict, subFields, delim, v);
      if scan.Err? {
        return Err(scan.error);
      }
      var (fields', k', line') := scan.value;
      subFields, k, line := fields', k', line';
    }
    return Ok(FormField(info, Multipart(subFields)));
  }

  /** The header loop (MultipartForm.cs:201-211) from line k: it reads
      until a line that is null or white space, adding each parsed line to
      a fresh dictionary. */
  method ReadHeaders(body: Body, k: nat) returns (r: Result<(Dict, nat), Failure>)
    requires k <= |body|
    ensures r == HeaderBlock(body, k, [])
  {
    var headerDict: Dict := [];
    var next := k;
    while true
      invariant k <= next <= |body|
      invariant HeaderBlock(body, next, headerDict) == HeaderBlock(body, k, [])
      decreases |body| - next
    {
      if next == |body| {
        return Ok((headerDict, next));
      }
      var headerLine := body[next].text;
      next := next + 1;
      if AllWhiteSpace(headerLine) {
        return Ok((headerDict, next));
      }
      var keyVal := ParseKeyValue(headerLine);
      if keyVal.None? {
        return Err(BadRequest(0x11));
      }
      var (key, value) := keyVal.value;
      if Find(headerDict, key).Some? {
        return Err(DuplicateKey(key));
      }
      headerDict := headerDict + [(key, Some(value))];
    }
  }

  /** The content scan (MultipartForm.cs:213-222) from line c, the first
      line after the headers: `start` stays at line c and `end` moves past
      every line without the delimiter prefix; a delimiter line creates a
      field over [start, end). As written the scan goes on to the end of the
      stream; in the corrected reading it stops at that line. */
  method ScanContent(body: Body, c: nat, headerDict: Dict, fields: seq<FormField>, delim: string, v: Variant)
    returns (r: Result<(seq<FormField>, nat, Option<string>), Failure>)
    requires 1 <= c <= |body|
    ensures r == Scan(body, c, c, c, headerDict, fields, delim, v)
    decreases |body|, 1
  {
    var end := c;
    var next := c;
    var subFields := fields;
    while next < |body|
      invariant c <= end <= next <= |body|
      invariant Scan(body, next, c, end, headerDict, subFields, delim, v) == Scan(body, c, c, c, headerDict, fields, delim, v)
      decreases |body| - next
    {
      var line := body[next].text;
      next := next + 1;
      if !StartsWith(line, delim) {
        end := next;
        continue;
      }
      var field := CreateField(headerDict, FrameOf(body, c, end), v);
      if field.Err? {
        return Err(field.error);
      }
      subFields := subFields + [field.value];
      if v == Intended {
        return Ok((subFields, next, Some(line)));
      }
    }
    return Ok((subFields, next, None));
  }
}
