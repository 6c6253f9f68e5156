/** Extensions.GetParsedPost (Extensions.cs:14-31): an
    application/x-www-form-urlencoded request body split into name/value
    pairs. Reading the request stream is left out: the body is the string
    ReadToEnd returns. WebUtility.UrlDecode is a parameter, so nothing here
    depends on what it does. */
module PostBody {
  import opened Strings
  import opened NameValues

  /** String.Split(c): the pieces of `s` between the occurrences of `c`, in
      order, empty pieces included. */
  function Split(s: string, c: char): (pieces: seq<string>)
    ensures |pieces| == Count(s, c) + 1
  {
    if s == [] then [""]
    else
      var rest := Split(s[1..], c);
      if s[0] == c then [""] + rest
      else [[s[0]] + rest[0]] + rest[1..]
  }

  /** The pieces written back with `c` between them: String.Join. */
  function JoinOn(pieces: seq<string>, c: char): string
    requires pieces != []
  {
    if |pieces| == 1 then pieces[0] else pieces[0] + [c] + JoinOn(pieces[1..], c)
  }

  /** StringSplitOptions.RemoveEmptyEntries: the non-empty pieces, in order. */
  function NonEmpty(pieces: seq<string>): (r: seq<string>)
    ensures |r| <= |pieces|
    ensures forall s :: s in r <==> s in pieces && s != []
  {
    if pieces == [] then []
    else if pieces[0] == [] then NonEmpty(pieces[1..])
    else [pieces[0]] + NonEmpty(pieces[1..])
  }

  /** The segments of the body (Extensions.cs:17): the non-empty pieces
      between '&' characters. */
  function Segments(body: string): seq<string> {
    NonEmpty(Split(body, '&'))
  }

  /** The entry one segment adds (Extensions.cs:22-27): split on '=', the
      first piece is the name; the value is the URL-decoded second piece
      when there are exactly two, and the empty string otherwise. */
  function PairEntry(pair: string, urlDecode: string -> string): (string, string) {
    var nv := Split(pair, '=');
    if |nv| == 2 then (nv[0], urlDecode(nv[1])) else (nv[0], "")
  }

  /** The collection GetParsedPost returns: one entry per segment, in
      segment order. */
  function ParsedPost(body: string, urlDecode: string -> string): (output: NameValueCollection) {
    var pairs := Segments(body);
    seq(|pairs|, i requires 0 <= i < |pairs| => PairEntry(pairs[i], urlDecode))
  }

  /** GetParsedPost: the foreach loop adding one entry per segment. */
  method GetParsedPost(body: string, urlDecode: string -> string) returns (output: NameValueCollection)
    ensures output == ParsedPost(body, urlDecode)
  {
    var pairs := Segments(body);
    output := [];
    for i := 0 to |pairs|
      invariant |output| == i
      invariant forall j :: 0 <= j < i ==> output[j] == PairEntry(pairs[j], urlDecode)
    {
      var nv := Split(pairs[i], '=');
      if |nv| == 2 {
        output := output + [(nv[0], urlDecode(nv[1]))];
      } else {
        output := output + [(nv[0], "")];
      }
    }
  }

  // ---------------------------------------------------------------------
  // Splitting and joining

  /** No piece of a split holds the separator. */
  lemma {:induction false} SplitPieces(s: string, c: char)
    ensures forall i :: 0 <= i < |Split(s, c)| ==> c !in Split(s, c)[i]
  {
    if s != [] {
      SplitPieces(s[1..], c);
      var rest := Split(s[1..], c);
      if s[0] != c {
        assert c !in [s[0]] + rest[0];
      }
    }
  }

  /** Joining the pieces of a split gives the string back. */
  lemma {:induction false} JoinSplit(s: string, c: char)
    ensures JoinOn(Split(s, c), c) == s
  {
    if s != [] {
      JoinSplit(s[1..], c);
      var rest := Split(s[1..], c);
      if s[0] == c {
        assert JoinOn([""] + rest, c) == [c] + JoinOn(rest, c) by {
          assert ([""] + rest)[1..] == rest;
        }
        assert s == [c] + s[1..];
      } else {
        var p := [[s[0]] + rest[0]] + rest[1..];
        if |rest| == 1 {
          assert s == [s[0]] + s[1..];
        } else {
          assert p[1..] == rest[1..];
          assert JoinOn(rest, c) == rest[0] + [c] + JoinOn(rest[1..], c);
          assert s == [s[0]] + s[1..];
        }
      }
    }
  }

  /** Splitting pieces that do not hold the separator, joined with it,
      gives the pieces back. */
  lemma {:induction false} SplitJoin(pieces: seq<string>, c: char)
    requires pieces != []
    requires forall i :: 0 <= i < |pieces| ==> c !in pieces[i]
    ensures Split(JoinOn(pieces, c), c) == pieces
    decreases |pieces|
  {
    if |pieces| == 1 {
      SplitPlain(pieces[0], c);
    } else {
      var rest := pieces[1..];
      SplitJoin(rest, c);
      var t := JoinOn(rest, c);
      SplitSeparator(t, c);
      SplitPrefix(pieces[0], [c] + t, c);
      assert pieces[0] + [c] + t == pieces[0] + ([c] + t);
      assert Split(JoinOn(pieces, c), c) == [pieces[0] + ""] + rest;
      assert pieces[0] + "" == pieces[0];
    }
  }

  /** A string without the separator is one piece. */
  lemma {:induction false} SplitPlain(s: string, c: char)
    requires c !in s
    ensures Split(s, c) == [s]
  {
    if s != [] {
      SplitPlain(s[1..], c);
      assert s == [s[0]] + s[1..];
    }
  }

  /** A leading separator starts with an empty piece. */
  lemma {:induction false} SplitSeparator(t: string, c: char)
    ensures Split([c] + t, c) == [""] + Split(t, c)
  {
    assert ([c] + t)[1..] == t;
  }

  /** A prefix without the separator joins the first piece of what follows. */
  lemma {:induction false} SplitPrefix(p: string, t: string, c: char)
    requires c !in p
    ensures Split(p + t, c) == [p + Split(t, c)[0]] + Split(t, c)[1..]
    decreases |p|
  {
    var x := Split(t, c);
    if p == [] {
      assert p + t == t && p + x[0] == x[0];
      assert x == [x[0]] + x[1..];
    } else {
      SplitPrefix(p[1..], t, c);
      SplitFirst(p, t, c);
    }
  }

  /** Split's step on a first character that is not the separator. */
  lemma {:induction false} SplitFirst(p: string, t: string, c: char)
    requires p != [] && c !in p
    requires Split(p[1..] + t, c) == [p[1..] + Split(t, c)[0]] + Split(t, c)[1..]
    ensures Split(p + t, c) == [p + Split(t, c)[0]] + Split(t, c)[1..]
  {
    var x := Split(t, c);
    var s := p + t;
    assert s[1..] == p[1..] + t;
    assert s[0] == p[0] && p[0] != c;
    HeadAppend(p, x[0]);
  }

  lemma {:induction false} HeadAppend(p: string, y: string)
    requires p != []
    ensures [p[0]] + (p[1..] + y) == p + y
  {
    assert p == [p[0]] + p[1..];
  }

  /** The first piece is the text before the first separator (all of `s`
      when there is none); with exactly one separator, the second piece is
      the text after it. */
  lemma {:induction false} SplitAround(s: string, c: char)
    ensures Split(s, c)[0] == if c in s then s[..IndexOf(s, c)] else s
    ensures Count(s, c) == 1 ==> Split(s, c)[1] == s[IndexOf(s, c) + 1..]
  {
    if c !in s {
      SplitPlain(s, c);
    } else {
      var i := IndexOf(s, c);
      var before, after := s[..i], s[i + 1..];
      assert s == before + ([c] + after);
      assert c !in before;
      SplitPrefix(before, [c] + after, c);
      SplitSeparator(after, c);
      assert before + "" == before;
      assert Split(s, c) == [before] + Split(after, c);
      CountSplit(before, after, c);
      if Count(s, c) == 1 {
        assert c !in after;
        SplitPlain(after, c);
      }
    }
  }

  /** Count over a string with one separator between two parts. */
  lemma {:induction false} CountSplit(before: string, after: string, c: char)
    requires c !in before
    ensures Count(before + ([c] + after), c) == Count(after, c) + 1
    decreases |before|
  {
    if before != [] {
      CountSplit(before[1..], after, c);
      assert (before + ([c] + after))[1..] == before[1..] + ([c] + after);
    } else {
      assert before + ([c] + after) == [c] + after;
      assert ([c] + after)[1..] == after;
    }
  }

  /** Empty pieces are removed piecewise, so the kept pieces stay in their
      order. */
  lemma {:induction false} NonEmptyAppend(p: seq<string>, q: seq<string>)
    ensures NonEmpty(p + q) == NonEmpty(p) + NonEmpty(q)
    decreases |p|
  {
    if p == [] {
      assert p + q == q;
    } else {
      assert (p + q)[1..] == p[1..] + q;
      NonEmptyAppend(p[1..], q);
    }
  }

  /** Removing empty pieces keeps a list that has none. */
  lemma {:induction false} NonEmptyKeeps(pieces: seq<string>)
    requires forall i :: 0 <= i < |pieces| ==> pieces[i] != []
    ensures NonEmpty(pieces) == pieces
    decreases |pieces|
  {
    if pieces != [] {
      NonEmptyKeeps(pieces[1..]);
      assert pieces == [pieces[0]] + pieces[1..];
    }
  }

  // ---------------------------------------------------------------------
  // What a segment adds

  /** The name is the segment's text before its first '=' (all of it when
      there is none) and is never decoded. A segment with exactly one '='
      gets the decoded text after it as value; any other segment gets the
      empty string. */
  lemma {:induction false} PairEntryReads(pair: string, urlDecode: string -> string)
    ensures PairEntry(pair, urlDecode).0 == if '=' in pair then pair[..IndexOf(pair, '=')] else pair
    ensures Count(pair, '=') == 1 ==> PairEntry(pair, urlDecode).1 == urlDecode(pair[IndexOf(pair, '=') + 1..])
    ensures Count(pair, '=') != 1 ==> PairEntry(pair, urlDecode).1 == ""
  {
    SplitAround(pair, '=');
  }

  /** Empty segments are dropped: "a&&b" gives the same two segments as
      "a&b" would. */
  lemma {:induction false} EmptySegmentsDropped(a: string, b: string)
    requires a != [] && b != [] && '&' !in a && '&' !in b
    ensures Segments(a + "&&" + b) == [a, b]
  {
    var pieces := [a, "", b];
    assert JoinOn(pieces, '&') == a + "&&" + b by {
      assert pieces[1..][1..] == [b];
      assert JoinOn(pieces[1..], '&') == "" + "&" + b;
    }
    SplitJoin(pieces, '&');
    assert NonEmpty(pieces) == [a, b] by {
      assert pieces[1..][1..] == [b];
      assert NonEmpty(pieces[1..]) == NonEmpty([b]);
    }
  }

  // ---------------------------------------------------------------------
  // Round trip

  /** A form written as name=value pairs joined by '&'. */
  function FormEncode(pairs: NameValueCollection): string
    requires pairs != []
  {
    JoinOn(Segs(pairs), '&')
  }

  function Segs(pairs: NameValueCollection): (segs: seq<string>)
    ensures |segs| == |pairs|
    ensures forall i :: 0 <= i < |pairs| ==> segs[i] == pairs[i].0 + "=" + pairs[i].1
  {
    seq(|pairs|, i requires 0 <= i < |pairs| => pairs[i].0 + "=" + pairs[i].1)
  }

  /** Names and values free of '&' and '=' come back from the encoded form
      in order, each value through UrlDecode. */
  lemma {:induction false} ParsedPostRoundTrip(pairs: NameValueCollection, urlDecode: string -> string)
    requires pairs != []
    requires forall i :: 0 <= i < |pairs| ==>
               '&' !in pairs[i].0 && '&' !in pairs[i].1 && '=' !in pairs[i].0 && '=' !in pairs[i].1
    ensures |ParsedPost(FormEncode(pairs), urlDecode)| == |pairs|
    ensures forall i :: 0 <= i < |pairs| ==>
              ParsedPost(FormEncode(pairs), urlDecode)[i] == (pairs[i].0, urlDecode(pairs[i].1))
  {
    var segs := Segs(pairs);
    forall i | 0 <= i < |segs|
      ensures '&' !in segs[i] && segs[i] != []
    {
      assert segs[i][|pairs[i].0|] == '=';
    }
    SplitJoin(segs, '&');
    NonEmptyKeeps(segs);
    assert Segments(FormEncode(pairs)) == segs;
    forall i | 0 <= i < |pairs|
      ensures PairEntry(segs[i], urlDecode) == (pairs[i].0, urlDecode(pairs[i].1))
    {
      assert JoinOn([pairs[i].0, pairs[i].1], '=') == segs[i];
      SplitJoin([pairs[i].0, pairs[i].1], '=');
    }
  }
}
