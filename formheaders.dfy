/** FormFieldHeader (MultipartForm.cs:13-62): one header line of a form
    part, `Key: value; opkey=opvalue; ...`, split into its key, its value
    and its options.

    The source matches the line against one case-insensitive regular
    expression. Here the expression is a hand parser that returns the
    captures .NET's backtracking matcher reports. Every `\s*` in the
    expression ends up maximal, because the token after it can never
    begin with white space. The only real choices are quoted-before-unquoted
    for each value and whether to take another `; opkey=opvalue` group.
    `Tail` and `ValueThen` make these choices in the matcher's order:
    a quoted value is tried first, and an unquoted value is used only when
    the quoted reading leads to no match. */
module FormHeaders {
  import opened Wrappers
  import opened Strings
  import opened NameValues

  /** A parsed header: its value and its options, in line order. */
  datatype Header = Header(value: string, options: NameValueCollection)

  /** The groups of a successful match: `key`, `value`, and the capture
      lists of `opkey` and `opvalue`. */
  datatype Captures = Captures(key: string, value: string, opKeys: seq<string>, opValues: seq<string>)

  /** `[A-Z-]` under IgnoreCase. */
  predicate IsKeyChar(c: char) {
    'A' <= c <= 'Z' || 'a' <= c <= 'z' || c == '-'
  }

  /** The length of the white-space run `\s*` takes at the start of s. */
  function SpaceRun(s: string): (n: nat)
    ensures n <= |s|
    ensures forall i :: 0 <= i < n ==> IsWhiteSpace(s[i])
    ensures n < |s| ==> !IsWhiteSpace(s[n])
  {
    if s == [] || !IsWhiteSpace(s[0]) then 0 else 1 + SpaceRun(s[1..])
  }

  /** The length of the key run `[A-Z-]+` takes at the start of s (0 when
      it cannot match). */
  function KeyRun(s: string): (n: nat)
    ensures n <= |s|
    ensures forall i :: 0 <= i < n ==> IsKeyChar(s[i])
    ensures n < |s| ==> !IsKeyChar(s[n])
  {
    if s == [] || !IsKeyChar(s[0]) then 0 else 1 + KeyRun(s[1..])
  }

  /** s after a maximal `\s*`. */
  function SkipSpace(s: string): (r: string)
    ensures |r| <= |s|
    ensures r != [] ==> !IsWhiteSpace(r[0])
  {
    s[SpaceRun(s)..]
  }

  /** Where `"(?<v>[^"]+)"` ends at the start of s: the index of the closing
      quote, which is the first quote after the opening one and leaves a
      non-empty value between them. */
  function QuoteEnd(s: string): (r: Option<nat>)
    ensures r.Some? ==> 2 <= r.value < |s| && s[0] == '"' && s[r.value] == '"'
    ensures r.Some? ==> forall i :: 1 <= i < r.value ==> s[i] != '"'
  {
    if s == [] || s[0] != '"' then None
    else
      var j := IndexOf(s[1..], '"');
      if j < 1 then None else Some(j + 1)
  }

  /** The length of `[^;]*` at the start of s: up to the first ';'. */
  function UnquotedRun(s: string): (n: nat)
    ensures n <= |s| && ';' !in s[..n]
    ensures n < |s| ==> s[n] == ';'
  {
    var j := IndexOf(s, ';');
    if j == -1 then |s| else j
  }

  /** `(;\s*opkey\s*=\s*opvalue\s*)*$` at the start of s, which is the text
      right after a value and its trailing white space: the opkey and
      opvalue captures, or None when no sequence of groups reaches the end. */
  function Tail(s: string): (r: Option<(seq<string>, seq<string>)>)
    ensures r.Some? ==> |r.value.0| == |r.value.1|
    decreases |s|, 0
  {
    if s == [] then Some(([], []))
    else if s[0] != ';' then None
    else
      var a := SkipSpace(s[1..]);
      var n := KeyRun(a);
      if n == 0 then None
      else
        var b := SkipSpace(a[n..]);
        if b == [] || b[0] != '=' then None
        else
          match ValueThen(SkipSpace(b[1..]))
          case None => None
          case Some((v, (ks, vs))) => Some(([a[..n]] + ks, [v] + vs))
  }

  /** A value, quoted or not, its trailing white space and the `Tail`
      after it, at the start of s: the value's capture and the option
      captures. The quoted reading is tried first; the unquoted reading,
      which keeps any quotes and trailing white space, only when the
      quoted one leads to no match. */
  function ValueThen(s: string): (r: Option<(string, (seq<string>, seq<string>))>)
    ensures r.Some? ==> |r.value.1.0| == |r.value.1.1|
    decreases |s|, 1
  {
    var q := QuoteEnd(s);
    var quoted := if q.Some? then Tail(SkipSpace(s[q.value + 1..])) else None;
    if quoted.Some? then Some((s[1..q.value], quoted.value))
    else
      var u := UnquotedRun(s);
      match Tail(s[u..])
      case None => None
      case Some(t) => Some((s[..u], t))
  }

  /** The match of the whole header expression against a line, anchored at
      both ends (MultipartForm.cs:15-20). */
  function HeaderMatch(line: string): (r: Option<Captures>)
    ensures r.Some? ==> |r.value.opKeys| == |r.value.opValues|
    ensures r.Some? ==> r.value.key != [] && forall i :: 0 <= i < |r.value.key| ==> IsKeyChar(r.value.key[i])
  {
    var a := SkipSpace(line);
    var n := KeyRun(a);
    if n == 0 then None
    else
      var b := SkipSpace(a[n..]);
      if b == [] || b[0] != ':' then None
      else
        match ValueThen(SkipSpace(b[1..]))
        case None => None
        case Some((v, (ks, vs))) => Some(Captures(a[..n], v, ks, vs))
  }

  /** The options of a match: each opkey capture paired with the opvalue
      capture of the same index, in order. */
  function Zip(opKeys: seq<string>, opValues: seq<string>): (options: NameValueCollection)
    requires |opKeys| == |opValues|
    ensures |options| == |opKeys|
    ensures forall i :: 0 <= i < |opKeys| ==> options[i] == (opKeys[i], opValues[i])
  {
    seq(|opKeys|, i requires 0 <= i < |opKeys| => (opKeys[i], opValues[i]))
  }

  /** The header ParseKeyValue builds from a match. */
  function HeaderOf(m: Captures): Header
    requires |m.opKeys| == |m.opValues|
  {
    Header(m.value, Zip(m.opKeys, m.opValues))
  }

  /** FormFieldHeader.ParseKeyValue (MultipartForm.cs:27-47): None for the
      (null, null) pair of a line that does not match; otherwise the key,
      and a header holding the value and one option per opkey capture,
      paired with the opvalue capture of the same index, in order. */
  method ParseKeyValue(line: string) returns (r: Option<(string, Header)>)
    ensures r.None? <==> HeaderMatch(line).None?
    ensures r.Some? ==> r.value == (HeaderMatch(line).value.key, HeaderOf(HeaderMatch(line).value))
  {
    var match_ := HeaderMatch(line);
    if match_.None? {
      return None;
    }
    var m := match_.value;
    var options := CollectOptions(m.opKeys, m.opValues);
    return Some((m.key, Header(m.value, options)));
  }

  /** The loop of ParseKeyValue that adds the i-th opkey capture with the
      i-th opvalue capture to a new collection (MultipartForm.cs:34-44). */
  method CollectOptions(opKeys: seq<string>, opValues: seq<string>) returns (options: NameValueCollection)
    requires |opKeys| == |opValues|
    ensures options == Zip(opKeys, opValues)
  {
    options := [];
    var optionCount := |opKeys|;
    for i := 0 to optionCount
      invariant |options| == i
      invariant forall j :: 0 <= j < i ==> options[j] == (opKeys[j], opValues[j])
    {
      options := options + [(opKeys[i], opValues[i])];
    }
  }

  /** FormFieldHeader.Parse (MultipartForm.cs:22-25): the header of
      "--: " + line, or None when that does not match. */
  method Parse(line: string) returns (r: Option<Header>)
    ensures r.None? <==> ValueThen(SkipSpace(line)).None?
    ensures r.Some? ==>
              var (v, (ks, vs)) := ValueThen(SkipSpace(line)).value;
              r.value.value == v && |r.value.options| == |ks|
              && forall i :: 0 <= i < |ks| ==> r.value.options[i] == (ks[i], vs[i])
  {
    ParseMatchesValue(line);
    var kv := ParseKeyValue("--: " + line);
    if kv.None? {
      return None;
    }
    return Some(kv.value.1);
  }

  /** The "--: " prefix Parse adds always matches the key and the colon, so
      Parse accepts exactly the lines that are a valid value with options
      after leading white space. */
  lemma {:induction false} ParseMatchesValue(line: string)
    ensures HeaderMatch("--: " + line)
            == match ValueThen(SkipSpace(line))
               case None => None
               case Some((v, (ks, vs))) => Some(Captures("--", v, ks, vs))
  {
    assert IsKey("--");
    assert "--: " + line == "--" + ": " + line;
    HeaderStep("--", line);
  }

  /** A key, a colon and a space, then anything: the match is the key and
      whatever the value reading of the rest gives. */
  lemma {:induction false} HeaderStep(key: string, after: string)
    requires IsKey(key)
    ensures HeaderMatch(key + ": " + after)
            == match ValueThen(SkipSpace(after))
               case None => None
               case Some((v, (ks, vs))) => Some(Captures(key, v, ks, vs))
  {
    var line := key + ": " + after;
    assert line == key + (": " + after);
    SkipNone(line);
    KeyRunOf(key, ": " + after);
    assert line[|key|..] == ": " + after;
    assert line[..|key|] == key;
    SkipNone(": " + after);
    assert (": " + after)[1..] == " " + after;
    SkipLeadingSpace(after);
  }

  /** `\s*` takes nothing before a character that is not white space. */
  lemma {:induction false} SkipNone(s: string)
    requires s == [] || !IsWhiteSpace(s[0])
    ensures SkipSpace(s) == s
  {
  }

  lemma {:induction false} SkipLeadingSpace(s: string)
    ensures SkipSpace(" " + s) == SkipSpace(s)
  {
    assert (" " + s)[1..] == s;
  }

  /** A line without a colon never matches. */
  lemma {:induction false} NoColonNoMatch(line: string)
    requires ':' !in line
    ensures HeaderMatch(line).None?
  {
    var a := SkipSpace(line);
    var n := KeyRun(a);
    if n > 0 {
      var b := SkipSpace(a[n..]);
      if b != [] {
        assert b[0] == line[|line| - |b|];
      }
    }
  }

  /** A value in quotes, as `"v"`. */
  function Quote(v: string): string {
    "\"" + v + "\""
  }

  /** The `; k="v"` groups of a header line, one per option. */
  function FormatOptions(options: seq<(string, string)>): string {
    if options == [] then "" else "; " + options[0].0 + "=" + (Quote(options[0].1) + FormatOptions(options[1..]))
  }

  /** A header line with every value quoted: `key: "value"; k="v"...`. */
  function FormatHeader(key: string, value: string, options: seq<(string, string)>): string {
    key + ": " + (Quote(value) + FormatOptions(options))
  }

  /** A name the key groups accept. */
  predicate IsKey(k: string) {
    k != [] && forall i :: 0 <= i < |k| ==> IsKeyChar(k[i])
  }

  /** A value that survives quoting: non-empty and free of quotes. */
  predicate IsQuotable(v: string) {
    v != [] && '"' !in v
  }

  function Keys(options: seq<(string, string)>): (ks: seq<string>)
    ensures |ks| == |options| && forall i :: 0 <= i < |options| ==> ks[i] == options[i].0
  {
    if options == [] then [] else [options[0].0] + Keys(options[1..])
  }

  function Values(options: seq<(string, string)>): (vs: seq<string>)
    ensures |vs| == |options| && forall i :: 0 <= i < |options| ==> vs[i] == options[i].1
  {
    if options == [] then [] else [options[0].1] + Values(options[1..])
  }

  /** Reading back a formatted line gives the key, the value and every
      option, in order. */
  lemma {:induction false} FormatHeaderRoundTrip(key: string, value: string, options: seq<(string, string)>)
    requires IsKey(key) && IsQuotable(value)
    requires forall i :: 0 <= i < |options| ==> IsKey(options[i].0) && IsQuotable(options[i].1)
    ensures HeaderMatch(FormatHeader(key, value, options))
            == Some(Captures(key, value, Keys(options), Values(options)))
  {
    var rest := Quote(value) + FormatOptions(options);
    FormattedTail(options);
    QuotedStep(value, FormatOptions(options), (Keys(options), Values(options)));
    SkipNone(rest);
    HeaderStep(key, rest);
  }

  /** A key run stops at the first character after the key. */
  lemma {:induction false} KeyRunOf(k: string, t: string)
    requires forall i :: 0 <= i < |k| ==> IsKeyChar(k[i])
    requires t != [] && !IsKeyChar(t[0])
    ensures KeyRun(k + t) == |k|
    decreases |k|
  {
    if k != [] {
      assert (k + t)[1..] == k[1..] + t;
      KeyRunOf(k[1..], t);
    }
  }

  /** The closing quote of a quoted value is the one right after it. */
  lemma {:induction false} QuoteEndOf(v: string, rest: string)
    requires IsQuotable(v)
    ensures QuoteEnd(Quote(v) + rest) == Some(|v| + 1)
  {
    var s := Quote(v) + rest;
    var x := v + "\"" + rest;
    assert s == "\"" + x;
    assert s[1..] == x;
    assert x[|v|] == '"';
    var r := IndexOf(x, '"');
    assert r <= |v|;
  }

  /** A quoted value followed by options that read back reads as that value
      and those options. */
  lemma {:induction false} QuotedStep(v: string, rest: string, t: (seq<string>, seq<string>))
    requires IsQuotable(v)
    requires rest == [] || rest[0] == ';'
    requires Tail(rest) == Some(t)
    ensures ValueThen(Quote(v) + rest) == Some((v, t))
  {
    var s := Quote(v) + rest;
    QuoteEndOf(v, rest);
    assert s[|v| + 2..] == rest;
    assert s[1..|v| + 1] == v;
    SkipNone(rest);
  }

  /** When the quoted reading leads to no match, the value is everything
      up to the first ';', quotes and trailing white space included, and
      the options are whatever the rest reads as. */
  lemma {:induction false} UnquotedFallback(v: string, rest: string, t: (seq<string>, seq<string>))
    requires ';' !in v
    requires rest == [] || rest[0] == ';'
    requires Tail(rest) == Some(t)
    requires var s := v + rest; QuoteEnd(s).None? || Tail(SkipSpace(s[QuoteEnd(s).value + 1..])).None?
    ensures ValueThen(v + rest) == Some((v, t))
  {
    var s := v + rest;
    assert forall j :: 0 <= j < |v| ==> s[j] == v[j];
    assert UnquotedRun(s) == |v| by {
      if rest != [] {
        assert s[|v|] == ';';
      } else {
        assert s == v;
      }
    }
    assert s[|v|..] == rest;
    assert s[..|v|] == v;
  }

  /** `k: "a" x`: a quoted value that leaves text which is no option
      group is not read as quoted; the value is the whole `"a" x`, quotes
      and space included. */
  lemma {:induction false} QuotedThenTextFallsBack(a: string, x: string)
    requires IsQuotable(a) && ';' !in a && ';' !in x
    requires x != [] && !IsWhiteSpace(x[0])
    ensures ValueThen(Quote(a) + " " + x) == Some((Quote(a) + " " + x, ([], [])))
  {
    var s := Quote(a) + " " + x;
    assert s + [] == s;
    assert QuoteEnd(s) == Some(|a| + 1) by {
      assert s == Quote(a) + (" " + x);
      QuoteEndOf(a, " " + x);
    }
    assert SkipSpace(s[|a| + 2..]) == x by {
      assert s[|a| + 2..] == " " + x;
      SkipLeadingSpace(x);
      SkipNone(x);
    }
    assert Tail(x).None?;
    assert ';' !in s by {
      assert s == "\"" + a + "\" " + x;
    }
    UnquotedFallback(s, [], ([], []));
  }

  /** `k: ""`: an empty quoted value is no quoted value, so the value is
      the two quotes themselves. */
  lemma {:induction false} EmptyQuotesFallsBack()
    ensures ValueThen("\"\"") == Some(("\"\"", ([], [])))
  {
    var s := "\"\"";
    assert IndexOf(s[1..], '"') == 0;
    assert QuoteEnd(s).None?;
    assert s + [] == s;
    UnquotedFallback(s, [], ([], []));
  }

  /** One `; k=` group in front of a value that reads back. */
  lemma {:induction false} OptionStep(k: string, after: string)
    requires IsKey(k) && after != [] && after[0] == '"'
    ensures Tail("; " + k + "=" + after)
            == match ValueThen(after)
               case None => None
               case Some((v, (ks, vs))) => Some(([k] + ks, [v] + vs))
  {
    var s := "; " + k + "=" + after;
    var body := k + ("=" + after);
    OptionKeyStart(k, after);
    OptionKeyEnd(k, after);
    assert body[..|k|] == k;
    assert ("=" + after)[1..] == after;
    SkipNone(after);
  }

  /** After the ';' of a formatted group, `\s*` stops at the key. */
  lemma {:induction false} OptionKeyStart(k: string, after: string)
    requires IsKey(k)
    ensures var s := "; " + k + "=" + after; s[0] == ';' && SkipSpace(s[1..]) == k + ("=" + after)
  {
    var s := "; " + k + "=" + after;
    var body := k + ("=" + after);
    assert s == ";" + (" " + body);
    assert s[1..] == " " + body;
    SkipLeadingSpace(body);
    SkipNone(body);
  }

  /** The key of a formatted group runs up to its '='. */
  lemma {:induction false} OptionKeyEnd(k: string, after: string)
    requires IsKey(k) && after != [] && after[0] == '"'
    ensures var body := k + ("=" + after); KeyRun(body) == |k| && SkipSpace(body[|k|..]) == "=" + after
  {
    var body := k + ("=" + after);
    KeyRunOf(k, "=" + after);
    assert body[|k|..] == "=" + after;
    SkipNone("=" + after);
  }

  /** Formatted options read back as their keys and values. */
  lemma {:induction false} FormattedTail(options: seq<(string, string)>)
    requires forall i :: 0 <= i < |options| ==> IsKey(options[i].0) && IsQuotable(options[i].1)
    ensures Tail(FormatOptions(options)) == Some((Keys(options), Values(options)))
  {
    if options != [] {
      var (k, v) := options[0];
      var more := options[1..];
      var after := Quote(v) + FormatOptions(more);
      assert Tail("; " + k + "=" + after) == Some(([k] + Keys(more), [v] + Values(more))) by {
        FormattedTail(more);
        QuotedStep(v, FormatOptions(more), (Keys(more), Values(more)));
        OptionStep(k, after);
      }
      assert Keys(options) == [k] + Keys(more);
      assert Values(options) == [v] + Values(more);
    }
  }

  /** A value with no quote at its start and no ';' in it is read
      unquoted, trailing white space included, up to the ';' or the end
      after it. */
  lemma {:induction false} UnquotedStep(v: string, rest: string, t: (seq<string>, seq<string>))
    requires v != [] && v[0] != '"' && ';' !in v
    requires rest == [] || rest[0] == ';'
    requires Tail(rest) == Some(t)
    ensures ValueThen(v + rest) == Some((v, t))
  {
    var s := v + rest;
    assert s[0] == v[0];
    var u := UnquotedRun(s);
    assert s[..|v|] == v && s[|v|..] == rest;
  }

  /** A header line whose value is a bare token and whose options are
      quoted, such as `Content-Disposition: form-data; name="f"`, reads as
      that key, that token and those options. */
  lemma {:induction false} TokenHeaderRoundTrip(key: string, token: string, options: seq<(string, string)>)
    requires IsKey(key) && IsKey(token)
    requires forall i :: 0 <= i < |options| ==> IsKey(options[i].0) && IsQuotable(options[i].1)
    ensures HeaderMatch(key + ": " + (token + FormatOptions(options)))
            == Some(Captures(key, token, Keys(options), Values(options)))
  {
    TokenAfter(token, options);
    HeaderValue(key, token + FormatOptions(options), (token, (Keys(options), Values(options))));
  }

  lemma {:induction false} TokenAfter(token: string, options: seq<(string, string)>)
    requires IsKey(token)
    requires forall i :: 0 <= i < |options| ==> IsKey(options[i].0) && IsQuotable(options[i].1)
    ensures ValueThen(SkipSpace(token + FormatOptions(options))) == Some((token, (Keys(options), Values(options))))
  {
    TokenValue(token, options);
    SkipNone(token + FormatOptions(options));
  }

  /** HeaderStep for a value that matches. */
  lemma {:induction false} HeaderValue(key: string, after: string, t: (string, (seq<string>, seq<string>)))
    requires IsKey(key) && ValueThen(SkipSpace(after)) == Some(t)
    ensures HeaderMatch(key + ": " + after) == Some(Captures(key, t.0, t.1.0, t.1.1))
  {
    HeaderStep(key, after);
  }

  lemma {:induction false} TokenValue(token: string, options: seq<(string, string)>)
    requires IsKey(token)
    requires forall i :: 0 <= i < |options| ==> IsKey(options[i].0) && IsQuotable(options[i].1)
    ensures ValueThen(token + FormatOptions(options)) == Some((token, (Keys(options), Values(options))))
  {
    var group := FormatOptions(options);
    FormattedTail(options);
    assert group == [] || group[0] == ';';
    UnquotedStep(token, group, (Keys(options), Values(options)));
  }
}
