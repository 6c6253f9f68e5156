/** The URL router of Server.CreateServlet: the shrinking-candidate search
    over the table of bound servlets. The search itself is run by the method
    Server.CreateServlet in module WebServer; this module holds the
    functions that specify it and the lemmas about them. */
module Routing {
  import opened Strings

  /** A servlet constructor, as an opaque token: the two built-in servlets
      and any user servlet type, by name. */
  datatype ServletType = DefaultErrorServlet | DefaultResourceServlet | UserServlet(name: string)

  /** The URL with everything from its first '?' removed (Server.cs:164-167). */
  function StripQuery(url: string): (r: string)
    ensures '?' !in r
    ensures '?' !in url ==> r == url
    ensures '?' in url ==> |r| < |url| && url[|r|] == '?' && r == url[..|r|]
  {
    var q := IndexOf(url, '?');
    if q == -1 then url else url[..q]
  }

  /** One unmatched pass: the candidate cut at its last '/', or "" when it has
      none (Server.cs:179-180). */
  function Cut(url: string): (r: string)
    ensures |r| <= |url| && r == url[..|r|]
    ensures url != [] ==> |r| < |url|
    ensures '/' !in url ==> r == []
    ensures '/' in url ==> url[|r|] == '/' && forall j :: |r| < j < |url| ==> url[j] != '/'
  {
    var d := LastIndexOf(url, '/');
    url[..if d == -1 then 0 else d]
  }

  /** The candidates the do-while loop tests, in order: the URL itself, then
      each cut while the cut is non-empty (Server.cs:170-181). */
  function Candidates(url: string): (cs: seq<string>)
    decreases |url|
    ensures |cs| >= 1 && cs[0] == url
  {
    [url] + (var c := Cut(url); if |c| > 0 then Candidates(c) else [])
  }

  /** A candidate stops the search when it is bound or is the resource root. */
  predicate Matches(bound: map<string, ServletType>, root: string, c: string) {
    c in bound || c == root
  }

  /** What a stopping candidate yields: a bound key beats the resource root. */
  function Pick(bound: map<string, ServletType>, resource: ServletType, c: string): ServletType {
    if c in bound then bound[c] else resource
  }

  /** The servlet chosen before the loop runs (Server.cs:169). */
  function InitialServlet(root: string, notFound: ServletType, resource: ServletType): ServletType {
    if root == "/" then resource else notFound
  }

  function FirstMatch(cs: seq<string>, bound: map<string, ServletType>, root: string,
                      resource: ServletType, fallback: ServletType): ServletType
  {
    if cs == [] then fallback
    else if Matches(bound, root, cs[0]) then Pick(bound, resource, cs[0])
    else FirstMatch(cs[1..], bound, root, resource, fallback)
  }

  /** The servlet type CreateServlet instantiates for a request URL. */
  function Resolve(bound: map<string, ServletType>, root: string, notFound: ServletType,
                   resource: ServletType, url: string): ServletType
  {
    FirstMatch(Candidates(StripQuery(url)), bound, root, resource,
               InitialServlet(root, notFound, resource))
  }

  /** The candidates of a URL, declaratively: the URL itself and each of its
      non-empty prefixes that is followed by a '/'. */
  predicate IsCandidate(url: string, c: string) {
    c == url || (0 < |c| < |url| && url[|c|] == '/' && c == url[..|c|])
  }

  /** The candidates other than the URL itself are exactly the candidates of
      its cut, and there are none when the cut is empty. */
  lemma CutCandidates(url: string, c: string)
    ensures (IsCandidate(url, c) && c != url) <==> (|Cut(url)| > 0 && IsCandidate(Cut(url), c))
  {
    var k := Cut(url);
    if IsCandidate(url, c) && c != url {
      assert url[|c|] == '/';
      assert '/' in url;
      assert |c| <= |k|;
    }
  }

  /** Every candidate is a strict prefix of the one before it, and only the
      first can be empty: "" is tried only when the stripped URL is "". */
  predicate Shrinking(cs: seq<string>) {
    forall i :: 0 < i < |cs| ==> 0 < |cs[i]| < |cs[i - 1]| && cs[i] == cs[i - 1][..|cs[i]|]
  }

  lemma {:induction false} CandidatesShrink(url: string)
    ensures Shrinking(Candidates(url))
    decreases |url|
  {
    var k := Cut(url);
    var cs := Candidates(url);
    if |k| > 0 {
      CandidatesShrink(k);
      var rest := Candidates(k);
      assert cs == [url] + rest;
      forall i | 0 < i < |cs| ensures 0 < |cs[i]| < |cs[i - 1]| && cs[i] == cs[i - 1][..|cs[i]|] {
        if i == 1 {
          assert cs[1] == k;
        } else {
          assert cs[i] == rest[i - 1] && cs[i - 1] == rest[i - 2];
        }
      }
    } else {
      assert cs == [url];
    }
  }

  /** A candidate is produced by the loop exactly when it is the URL or a
      non-empty prefix of it followed by '/'. */
  lemma {:induction false} CandidatesAreSlashPrefixes(url: string, c: string)
    ensures c in Candidates(url) <==> IsCandidate(url, c)
    decreases |url|
  {
    var k := Cut(url);
    CutCandidates(url, c);
    if |k| > 0 {
      CandidatesAreSlashPrefixes(k, c);
      assert Candidates(url) == [url] + Candidates(k);
    } else {
      assert Candidates(url) == [url];
    }
  }

  lemma {:induction false} CountAppend(a: string, b: string, ch: char)
    ensures Count(a + b, ch) == Count(a, ch) + Count(b, ch)
  {
    if a == [] {
      assert a + b == b;
    } else {
      assert (a + b)[1..] == a[1..] + b;
      CountAppend(a[1..], b, ch);
    }
  }

  /** The loop makes at most one pass per '/' in the URL, plus one. */
  lemma {:induction false} CandidatesCount(url: string)
    ensures |Candidates(url)| <= Count(url, '/') + 1
    decreases |url|
  {
    var k := Cut(url);
    if |k| > 0 {
      CandidatesCount(k);
      var rest := url[|k|..];
      assert url == k + rest;
      CountAppend(k, rest, '/');
      assert rest[0] == '/';
      assert Count(rest, '/') >= 1;
      assert Candidates(url) == [url] + Candidates(k);
    } else {
      assert Candidates(url) == [url];
    }
  }

  /** No candidate longer than c stops the search. */
  ghost predicate LongestMatch(bound: map<string, ServletType>, root: string, url: string, c: string) {
    forall d :: IsCandidate(url, d) && |d| > |c| ==> !Matches(bound, root, d)
  }

  /** The first match over the candidate sequence is the longest matching
      candidate: its bound servlet, or the resource servlet when it is only
      the resource root; with no matching candidate, the fallback. */
  lemma {:induction false} FirstMatchIsLongest(bound: map<string, ServletType>, root: string,
                                               resource: ServletType, fallback: ServletType, url: string)
    ensures forall c ::
              IsCandidate(url, c) && Matches(bound, root, c) && LongestMatch(bound, root, url, c)
              ==> FirstMatch(Candidates(url), bound, root, resource, fallback) == Pick(bound, resource, c)
    ensures (forall c :: IsCandidate(url, c) ==> !Matches(bound, root, c))
      ==> FirstMatch(Candidates(url), bound, root, resource, fallback) == fallback
    decreases |url|
  {
    var k := Cut(url);
    var cs := Candidates(url);
    assert cs[0] == url;
    assert IsCandidate(url, url);
    if !Matches(bound, root, url) {
      assert cs[1..] == if |k| > 0 then Candidates(k) else [];
      if |k| > 0 {
        FirstMatchIsLongest(bound, root, resource, fallback, k);
        forall c | IsCandidate(k, c) ensures IsCandidate(url, c) && c != url {
          CutCandidates(url, c);
        }
        forall c | IsCandidate(url, c) && c != url ensures IsCandidate(k, c) {
          CutCandidates(url, c);
        }
      } else {
        forall c | IsCandidate(url, c) ensures c == url {
          CutCandidates(url, c);
        }
      }
    }
  }

  /** Resolve picks the servlet of the longest candidate of the stripped URL
      that is bound or equals the resource root, and the initial servlet
      when there is none (Server.cs:164-183). */
  lemma ResolveIsLongestMatch(bound: map<string, ServletType>, root: string, notFound: ServletType,
                              resource: ServletType, url: string, c: string)
    requires IsCandidate(StripQuery(url), c) && Matches(bound, root, c)
    requires LongestMatch(bound, root, StripQuery(url), c)
    ensures Resolve(bound, root, notFound, resource, url) == Pick(bound, resource, c)
  {
    FirstMatchIsLongest(bound, root, resource, InitialServlet(root, notFound, resource), StripQuery(url));
  }

  /** With no matching candidate the resource servlet is chosen when the
      resource root is "/", and the not-found servlet otherwise. */
  lemma ResolveWithoutMatch(bound: map<string, ServletType>, root: string, notFound: ServletType,
                            resource: ServletType, url: string)
    requires forall c :: IsCandidate(StripQuery(url), c) ==> !Matches(bound, root, c)
    ensures Resolve(bound, root, notFound, resource, url) == if root == "/" then resource else notFound
  {
    FirstMatchIsLongest(bound, root, resource, InitialServlet(root, notFound, resource), StripQuery(url));
  }
}
