/**
 * The request-file parser of parse_burp_request.py: `parse_burp_request`
 * (minus reading the file) and `parse_cookies`.
 *
 * A captured request is a request line, header lines up to the first blank
 * line, and a form-encoded body. The parser keeps the method and path of the
 * request line, the headers (a `Host` header of any letter case under the key
 * "Host", which also fixes the target URL), the cookies of every `Cookie`
 * header, and the first value of each form field of the body.
 */
module BurpParser {
  import opened Text
  import opened Dicts
  import opened FormData

  /** The configuration dictionary `parse_burp_request` returns. */
  datatype RequestConfig = RequestConfig(
    url: string,
    headers: Dict<string, string>,
    cookies: Dict<string, string>,
    data: Dict<string, string>,
    httpMethod: string,
    path: string)

  const DefaultMethod: string := "POST"
  const DefaultPath: string := "/cart"

  // ---------------------------------------------------------------------
  // parse_cookies

  /** The (name, value) pair one ';'-separated piece of a cookie header contributes, if any. */
  function CookiePair(piece: string): (p: Option<(string, string)>)
    ensures p.Some? <==> '=' in Strip(piece)
    ensures p.Some? ==> Trimmed(p.value.0) && Trimmed(p.value.1) && '=' !in p.value.0
  {
    var cookie := Strip(piece);
    if '=' in cookie then
      var i := IndexOf(cookie, '=');
      StripResult(cookie[..i]);
      StripResult(cookie[i + 1..]);
      Some((Strip(cookie[..i]), Strip(cookie[i + 1..])))
    else None
  }

  /** A piece that is a trimmed name without '=', then '=', then a trimmed value, whitespace around each, gives back that name and value. */
  lemma CookiePairPadded(s0: string, name: string, s1: string, s2: string, value: string, s3: string)
    requires AllSpace(s0) && AllSpace(s1) && AllSpace(s2) && AllSpace(s3)
    requires Trimmed(name) && Trimmed(value) && '=' !in name
    ensures CookiePair(s0 + name + s1 + "=" + s2 + value + s3) == Some((name, value))
  {
    StripSplitPadded(s0, name, s1, '=', s2, value, s3);
  }

  /** The pairs of the pieces that hold an '=', in order. */
  function CookiePairs(pieces: seq<string>): (ps: seq<(string, string)>)
    ensures |ps| <= |pieces|
  {
    if pieces == [] then []
    else
      var last := pieces[|pieces| - 1];
      CookiePairs(pieces[..|pieces| - 1]) + (match CookiePair(last) case Some(p) => [p] case None => [])
  }

  /**
   * What `parse_cookies(cookie_string)` returns: each name once, with the value
   * of its last pair.
   */
  function CookieJar(header: string): (jar: Dict<string, string>)
    ensures UniqueKeys(jar)
    ensures forall n :: Lookup(jar, n) == LastValue(CookiePairs(Split(header, ';')), n)
  {
    UpdateUniqueKeys([], CookiePairs(Split(header, ';')));
    UpdateLookup([], CookiePairs(Split(header, ';')));
    Update([], CookiePairs(Split(header, ';')))
  }

  /** A turn of the loop of `parse_cookies` on a piece with a pair assigns it. */
  lemma ParseCookiesSet(pieces: seq<string>, i: nat, p: (string, string))
    requires i < |pieces| && CookiePair(pieces[i]) == Some(p)
    ensures Update([], CookiePairs(pieces[..i + 1])) == Set(Update([], CookiePairs(pieces[..i])), p.0, p.1)
  {
    assert pieces[..i + 1][..i] == pieces[..i];
    UpdateSnoc([], CookiePairs(pieces[..i]), p);
  }

  /** A turn of the loop of `parse_cookies` on a piece without '=' changes nothing. */
  lemma ParseCookiesSkip(pieces: seq<string>, i: nat)
    requires i < |pieces| && CookiePair(pieces[i]).None?
    ensures Update([], CookiePairs(pieces[..i + 1])) == Update([], CookiePairs(pieces[..i]))
  {
    var ps := pieces[..i + 1];
    assert ps[..|ps| - 1] == pieces[..i] && ps[|ps| - 1] == pieces[i];
    assert CookiePair(ps[|ps| - 1]).None?;
    assert CookiePairs(ps) == CookiePairs(pieces[..i]) + [];
    assert CookiePairs(ps) == CookiePairs(pieces[..i]);
  }

  /** `parse_cookies(cookie_string)` */
  method ParseCookies(cookieString: string) returns (cookies: Dict<string, string>)
    ensures cookies == CookieJar(cookieString)
  {
    var pieces := Split(cookieString, ';');
    cookies := [];
    var i := 0;
    while i < |pieces|
      invariant 0 <= i <= |pieces|
      invariant cookies == Update([], CookiePairs(pieces[..i]))
    {
      var cookie := Strip(pieces[i]);
      if '=' in cookie {
        var j := IndexOf(cookie, '=');
        var name := Strip(cookie[..j]);
        var value := Strip(cookie[j + 1..]);
        CookiePairAt(pieces[i], cookie, j, (name, value));
        ParseCookiesSet(pieces, i, (name, value));
        cookies := Set(cookies, name, value);
        assert cookies == Update([], CookiePairs(pieces[..i + 1]));
      } else {
        ParseCookiesSkip(pieces, i);
        assert cookies == Update([], CookiePairs(pieces[..i + 1]));
      }
      i := i + 1;
    }
    assert pieces[..i] == pieces;
  }

  /** A cookie `parse_cookies` reads back as written: both parts trimmed, no ';' in either, no '=' in the name. */
  predicate CookieSafe(c: (string, string)) {
    Trimmed(c.0) && Trimmed(c.1) && ';' !in c.0 && ';' !in c.1 && '=' !in c.0
  }

  /** `name=value`, after the space a client puts behind each ';' of a `Cookie` header. */
  function CookiePiece(c: (string, string), first: bool): (piece: string)
    ensures ';' !in piece <== CookieSafe(c)
  {
    (if first then "" else " ") + c.0 + "=" + c.1
  }

  /** The value of the `Cookie` header a client sends for these cookies: `name=value`, separated by "; ". */
  function CookieHeaderValue(cookies: seq<(string, string)>): string {
    Join(CookiePieces(cookies), ";")
  }

  function CookiePieces(cookies: seq<(string, string)>): (pieces: seq<string>)
    ensures |pieces| == |cookies|
    ensures forall i :: 0 <= i < |cookies| ==> pieces[i] == CookiePiece(cookies[i], i == 0)
  {
    seq(|cookies|, i requires 0 <= i < |cookies| => CookiePiece(cookies[i], i == 0))
  }

  /** One piece of a `Cookie` header gives back its name and value. */
  lemma CookiePieceRoundTrip(c: (string, string), first: bool)
    requires CookieSafe(c)
    ensures CookiePair(CookiePiece(c, first)) == Some(c)
  {
    var t := c.0 + "=" + c.1;
    StripPiece(c, first);
    assert IndexOf(t, '=') == |c.0| by {
      FindUnique(t, '=', |c.0|);
    }
    StripSides(c);
    CookiePairAt(CookiePiece(c, first), t, |c.0|, c);
  }

  lemma StripPiece(c: (string, string), first: bool)
    requires CookieSafe(c)
    ensures Strip(CookiePiece(c, first)) == c.0 + "=" + c.1
  {
    var pre: string := if first then "" else " ";
    var t := c.0 + "=" + c.1;
    assert Trimmed(t);
    assert pre + t + "" == CookiePiece(c, first);
    StripPadded(pre, t, "");
  }

  lemma StripSides(c: (string, string))
    requires CookieSafe(c)
    ensures var t := c.0 + "=" + c.1;
      Strip(t[..|c.0|]) == c.0 && Strip(t[|c.0| + 1..]) == c.1
  {
    var t := c.0 + "=" + c.1;
    assert t[..|c.0|] == c.0 && t[|c.0| + 1..] == c.1;
    StripTrimmed(c.0);
    StripTrimmed(c.1);
  }

  /** The pair of a piece that strips to `t`, whose first '=' is at `i`. */
  lemma CookiePairAt(piece: string, t: string, i: nat, c: (string, string))
    requires Strip(piece) == t && '=' in t && IndexOf(t, '=') == i
    requires Strip(t[..i]) == c.0 && Strip(t[i + 1..]) == c.1
    ensures CookiePair(piece) == Some(c)
  {
  }

  lemma {:induction false} CookiePiecesRoundTrip(cookies: seq<(string, string)>)
    requires forall i :: 0 <= i < |cookies| ==> CookieSafe(cookies[i])
    ensures CookiePairs(CookiePieces(cookies)) == cookies
  {
    if cookies != [] {
      var n := |cookies| - 1;
      CookiePiecesPrefix(cookies);
      CookiePiecesRoundTrip(cookies[..n]);
      CookiePieceRoundTrip(cookies[n], n == 0);
      CookiePairsSnoc(CookiePieces(cookies), cookies[n]);
      LastAndRest(cookies);
    }
  }

  lemma CookiePiecesPrefix(cookies: seq<(string, string)>)
    requires cookies != []
    ensures CookiePieces(cookies)[..|cookies| - 1] == CookiePieces(cookies[..|cookies| - 1])
  {
    var n := |cookies| - 1;
    var shorter := CookiePieces(cookies[..n]);
    forall i | 0 <= i < n
      ensures CookiePieces(cookies)[..n][i] == shorter[i]
    {
      assert cookies[..n][i] == cookies[i];
    }
  }

  lemma CookiePairsSnoc(pieces: seq<string>, p: (string, string))
    requires pieces != [] && CookiePair(pieces[|pieces| - 1]) == Some(p)
    ensures CookiePairs(pieces) == CookiePairs(pieces[..|pieces| - 1]) + [p]
  {
  }

  /**
   * `parse_cookies` reads a `Cookie` header back: each name gets the value
   * of its last cookie, and cookies with distinct names come back exactly,
   * in order.
   */
  lemma CookieHeaderRoundTrip(cookies: seq<(string, string)>)
    requires |cookies| >= 1
    requires forall i :: 0 <= i < |cookies| ==> CookieSafe(cookies[i])
    ensures forall n :: Lookup(CookieJar(CookieHeaderValue(cookies)), n) == LastValue(cookies, n)
    ensures UniqueKeys(cookies) ==> CookieJar(CookieHeaderValue(cookies)) == cookies
  {
    var pieces := CookiePieces(cookies);
    JoinSplit(pieces, ';');
    CookiePiecesRoundTrip(cookies);
    if UniqueKeys(cookies) {
      UpdateOfDict(cookies);
    }
  }

  // ---------------------------------------------------------------------
  // Header lines

  /** What the header loop of `parse_burp_request` makes of one non-blank line. */
  datatype HeaderLine =
    | Skipped                               // no ':' in the line
    | HostHeader(host: string)              // name is "host" in any letter case
    | CookieHeader(value: string)           // name is "cookie" in any letter case
    | OtherHeader(name: string, value: string)

  /** An `OtherHeader` is neither a `Host` nor a `Cookie` header. */
  predicate Classified(h: HeaderLine) {
    h.OtherHeader? ==> Lower(h.name) != "host" && Lower(h.name) != "cookie"
  }

  /** What a header line means: a `Host` or `Cookie` header in any letter case, or any other header. */
  function FieldMeaning(name: string, value: string): (h: HeaderLine)
    ensures Classified(h)
  {
    if Lower(name) == "host" then HostHeader(value)
    else if Lower(name) == "cookie" then CookieHeader(value)
    else OtherHeader(name, value)
  }

  /** A header line, already stripped: split at its first ':' and strip both sides. */
  function ClassifyLine(line: string): (h: HeaderLine)
    ensures h.Skipped? <==> ':' !in line
    ensures Classified(h)
    ensures h.HostHeader? ==> Trimmed(h.host)
    ensures h.CookieHeader? ==> Trimmed(h.value)
    ensures h.OtherHeader? ==> Trimmed(h.name) && Trimmed(h.value) && ':' !in h.name
  {
    if ':' !in line then Skipped
    else
      var i := IndexOf(line, ':');
      StripResult(line[..i]);
      StripResult(line[i + 1..]);
      var key := Strip(line[..i]);
      var value := Strip(line[i + 1..]);
      FieldMeaning(key, value)
  }

  /** A line with a ':' means its stripped part before the first ':' as name and its stripped rest as value. */
  lemma ClassifyLineSplit(before: string, after: string)
    requires ':' !in before
    ensures ClassifyLine(before + ":" + after) == FieldMeaning(Strip(before), Strip(after))
  {
    var line := before + ":" + after;
    FindUnique(line, ':', |before|);
    assert line[..|before|] == before && line[|before| + 1..] == after;
  }

  /** What the header loop makes of a raw line: it is stripped first. */
  function Classify(raw: string): (h: HeaderLine)
    ensures Classified(h)
  {
    ClassifyLine(Strip(raw))
  }

  /** A raw line that is a trimmed name without ':', then ':', then a trimmed value, whitespace around each, means that name and value. */
  lemma ClassifyPadded(s0: string, name: string, s1: string, s2: string, value: string, s3: string)
    requires AllSpace(s0) && AllSpace(s1) && AllSpace(s2) && AllSpace(s3)
    requires Trimmed(name) && Trimmed(value) && ':' !in name
    ensures Classify(s0 + name + s1 + ":" + s2 + value + s3) == FieldMeaning(name, value)
  {
    StripSplitPadded(s0, name, s1, ':', s2, value, s3);
  }

  /** A header field `name: value` whose parts read back as written: trimmed, a name that is not empty and holds no ':'. */
  predicate FieldSafe(name: string, value: string) {
    name != [] && Trimmed(name) && Trimmed(value) && ':' !in name
  }

  /** The header field line `name: value` (section 5.1 of RFC 9112). */
  function FieldLine(name: string, value: string): string {
    name + ": " + value
  }

  /** The header loop reads a field line back as its name and value. */
  lemma FieldLineRoundTrip(name: string, value: string)
    requires FieldSafe(name, value)
    ensures Classify(FieldLine(name, value)) == FieldMeaning(name, value)
  {
    StripFieldLine(name, value);
    if value == [] {
      var t := name + ":";
      assert t[..|name|] == name && t[|name|] == ':' && t[|name| + 1..] == [];
      StripPadded([], [], []);
      ClassifyAtColon(t, name, value);
    } else {
      var t := FieldLine(name, value);
      assert t[..|name|] == name && t[|name|] == ':' && t[|name| + 1..] == " " + value + [];
      StripPadded(" ", value, []);
      ClassifyAtColon(t, name, value);
    }
  }

  /** The meaning of a stripped line that is a trimmed name without ':', then ':', then what strips to `value`. */
  lemma ClassifyAtColon(t: string, name: string, value: string)
    requires |name| < |t| && t[..|name|] == name && t[|name|] == ':'
    requires ':' !in name && Trimmed(name) && Strip(t[|name| + 1..]) == value
    ensures ClassifyLine(t) == FieldMeaning(name, value)
  {
    forall j | 0 <= j < |name|
      ensures t[j] != ':'
    {
      assert t[j] == t[..|name|][j] && name[j] in name;
    }
    FindUnique(t, ':', |name|);
    assert ':' in t && IndexOf(t, ':') == |name|;
    StripTrimmed(name);
    assert Strip(t[..|name|]) == name;
  }

  lemma StripFieldLine(name: string, value: string)
    requires FieldSafe(name, value)
    ensures Strip(FieldLine(name, value)) == if value == [] then name + ":" else FieldLine(name, value)
  {
    var line := FieldLine(name, value);
    if value == [] {
      var t := name + ":";
      assert Trimmed(t) by {
        assert t[0] == name[0];
      }
      assert AllSpace(" ");
      assert line == [] + t + " ";
      StripPadded([], t, " ");
    } else {
      assert Trimmed(line) by {
        assert line[0] == name[0];
        assert line[|line| - 1] == value[|value| - 1];
      }
      assert line == [] + line + [];
      StripPadded([], line, []);
    }
  }

  function ClassifyAll(lines: seq<string>): (hs: seq<HeaderLine>)
    ensures |hs| == |lines|
    ensures forall j :: 0 <= j < |hs| ==> Classified(hs[j])
  {
    if lines == [] then []
    else ClassifyAll(lines[..|lines| - 1]) + [Classify(lines[|lines| - 1])]
  }

  /** One turn of the header loop, on a line that is not blank. */
  function ApplyHeader(c: RequestConfig, h: HeaderLine): RequestConfig {
    match h
    case Skipped => c
    case HostHeader(host) => c.(url := "https://" + host + c.path, headers := Set(c.headers, "Host", host))
    case CookieHeader(value) => c.(cookies := Update(c.cookies, CookieJar(value)))
    case OtherHeader(name, value) => c.(headers := Set(c.headers, name, value))
  }

  /** The header loop; headers never change the method, the path or the form data. */
  function ApplyHeaders(c: RequestConfig, hs: seq<HeaderLine>): (r: RequestConfig)
    ensures r.httpMethod == c.httpMethod && r.path == c.path && r.data == c.data
  {
    if hs == [] then c
    else ApplyHeader(ApplyHeaders(c, hs[..|hs| - 1]), hs[|hs| - 1])
  }

  /** The (key, value) assignments the header lines make to `headers`, in order. */
  function HeaderPairs(hs: seq<HeaderLine>): seq<(string, string)> {
    if hs == [] then []
    else
      var init := HeaderPairs(hs[..|hs| - 1]);
      match hs[|hs| - 1]
      case Skipped => init
      case CookieHeader(_) => init
      case HostHeader(host) => init + [("Host", host)]
      case OtherHeader(name, value) => init + [(name, value)]
  }

  /** The cookie pairs of all `Cookie` header lines, in order. */
  function CookiePairsIn(hs: seq<HeaderLine>): seq<(string, string)> {
    if hs == [] then []
    else
      var init := CookiePairsIn(hs[..|hs| - 1]);
      match hs[|hs| - 1]
      case CookieHeader(value) => init + CookiePairs(Split(value, ';'))
      case _ => init
  }

  /** The value of the last `Host` line, if any. */
  function LastHost(hs: seq<HeaderLine>): (h: Option<string>)
    ensures h.None? <==> forall j :: 0 <= j < |hs| ==> !hs[j].HostHeader?
  {
    if hs == [] then None
    else
      var init := hs[..|hs| - 1];
      assert forall j :: 0 <= j < |init| ==> init[j] == hs[j];
      match hs[|hs| - 1]
      case HostHeader(host) => Some(host)
      case _ => LastHost(init)
  }

  /** The keys assigned to `headers` are never a `Cookie` name, and a `Host` name only as "Host". */
  lemma {:induction false} HeaderKeysClean(hs: seq<HeaderLine>)
    requires forall j :: 0 <= j < |hs| ==> Classified(hs[j])
    ensures forall i :: 0 <= i < |HeaderPairs(hs)| ==> Lower(HeaderPairs(hs)[i].0) != "cookie"
    ensures forall i :: 0 <= i < |HeaderPairs(hs)| ==> Lower(HeaderPairs(hs)[i].0) == "host" ==> HeaderPairs(hs)[i].0 == "Host"
  {
    if hs != [] {
      var init := hs[..|hs| - 1];
      assert forall j :: 0 <= j < |init| ==> init[j] == hs[j];
      HeaderKeysClean(init);
      assert Lower("Host") == "host";
      assert Classified(hs[|hs| - 1]);
    }
  }

  /** `headers` is what the header assignments leave behind: a later line with the same name overwrites an earlier one. */
  lemma {:induction false} HeadersAreAssignments(c: RequestConfig, hs: seq<HeaderLine>)
    ensures ApplyHeaders(c, hs).headers == Update(c.headers, HeaderPairs(hs))
  {
    if hs != [] {
      var init := hs[..|hs| - 1];
      HeadersAreAssignments(c, init);
      match hs[|hs| - 1]
      case Skipped =>
      case CookieHeader(_) =>
      case HostHeader(host) =>
        UpdateSnoc(c.headers, HeaderPairs(init), ("Host", host));
      case OtherHeader(name, value) =>
        UpdateSnoc(c.headers, HeaderPairs(init), (name, value));
    }
  }

  /** Each cookie ends up with the value of its last pair over all `Cookie` lines. */
  lemma {:induction false} CookiesLastWins(c: RequestConfig, hs: seq<HeaderLine>, n: string)
    ensures Lookup(ApplyHeaders(c, hs).cookies, n)
         == if LastValue(CookiePairsIn(hs), n).Some? then LastValue(CookiePairsIn(hs), n) else Lookup(c.cookies, n)
  {
    if hs != [] {
      var init := hs[..|hs| - 1];
      CookiesLastWins(c, init, n);
      match hs[|hs| - 1]
      case CookieHeader(value) =>
        UpdateLookup(ApplyHeaders(c, init).cookies, CookieJar(value));
        LastValueOfDict(CookieJar(value), n);
        LastValueAppend(CookiePairsIn(init), CookiePairs(Split(value, ';')), n);
      case Skipped =>
      case HostHeader(_) =>
      case OtherHeader(_, _) =>
    }
  }

  /** The URL is built from the last `Host` line and the path; without one it is left as it was. */
  lemma {:induction false} UrlFromLastHost(c: RequestConfig, hs: seq<HeaderLine>)
    ensures ApplyHeaders(c, hs).url == match LastHost(hs) case None => c.url case Some(h) => "https://" + h + c.path
  {
    if hs != [] {
      UrlFromLastHost(c, hs[..|hs| - 1]);
    }
  }

  /** Only `Host` lines assign to the key "Host", so its last assignment is the last `Host` line. */
  lemma {:induction false} HostFromLastHost(hs: seq<HeaderLine>)
    requires forall j :: 0 <= j < |hs| ==> Classified(hs[j])
    ensures LastValue(HeaderPairs(hs), "Host") == LastHost(hs)
  {
    if hs != [] {
      var init := hs[..|hs| - 1];
      assert forall j :: 0 <= j < |init| ==> init[j] == hs[j];
      HostFromLastHost(init);
      assert Lower("Host") == "host";
      assert Classified(hs[|hs| - 1]);
    }
  }

  // ---------------------------------------------------------------------
  // The whole request

  /** `content.strip().split('\n')`: never empty. */
  function Lines(content: string): (lines: seq<string>)
    ensures |lines| >= 1
    ensures Join(lines, "\n") == Strip(content)
    ensures forall i :: 0 <= i < |lines| ==> '\n' !in lines[i]
  {
    SplitJoin(Strip(content), '\n');
    SplitPiecesFree(Strip(content), '\n');
    Split(Strip(content), '\n')
  }

  /** The configuration before the header loop: defaults, then method and path from a request line of at least two words. */
  function InitialConfig(requestLine: string): RequestConfig {
    var parts := Words(Strip(requestLine));
    RequestConfig("", [], [], [],
      if |parts| >= 2 then parts[0] else DefaultMethod,
      if |parts| >= 2 then parts[1] else DefaultPath)
  }

  /** The first index `e >= i` whose line is blank after stripping, or `|lines|`. */
  function BlankFrom(lines: seq<string>, i: nat): (e: nat)
    requires 1 <= i <= |lines|
    ensures i <= e <= |lines|
    ensures forall j :: i <= j < e ==> Strip(lines[j]) != []
    ensures e < |lines| ==> Strip(lines[e]) == []
    decreases |lines| - i
  {
    if i == |lines| || Strip(lines[i]) == [] then i else BlankFrom(lines, i + 1)
  }

  /** Where the header section ends: the first blank line after the request line, or the end. */
  function HeaderEnd(lines: seq<string>): (e: nat)
    requires |lines| >= 1
    ensures 1 <= e <= |lines|
    ensures forall j :: 1 <= j < e ==> Strip(lines[j]) != []
    ensures e < |lines| ==> Strip(lines[e]) == []
  {
    BlankFrom(lines, 1)
  }

  /** `body_start`: the line after the blank line, or `|lines|` when there is none. */
  function BodyStart(lines: seq<string>): (b: nat)
    requires |lines| >= 1
    ensures 1 <= b <= |lines|
    ensures b < |lines| ==> 2 <= b && Strip(lines[b - 1]) == [] && forall j :: 1 <= j < b - 1 ==> Strip(lines[j]) != []
  {
    var e := HeaderEnd(lines);
    if e < |lines| then e + 1 else |lines|
  }

  /** The body text: the lines from `body_start` on, joined by '\n' and stripped; none when there are no such lines. */
  function Body(lines: seq<string>): Option<string>
    requires |lines| >= 1
  {
    var b := BodyStart(lines);
    if b < |lines| then Some(Strip(Join(lines[b..], "\n"))) else None
  }

  /** The classified header lines: those after the request line, up to the first blank one. */
  function HeaderLines(lines: seq<string>): (hs: seq<HeaderLine>)
    requires |lines| >= 1
    ensures forall j :: 0 <= j < |hs| ==> Classified(hs[j])
  {
    ClassifyAll(lines[1..HeaderEnd(lines)])
  }

  /** What `parse_burp_request` returns for a file whose text is `content`. */
  function ParseRequest(content: string, unquote: string -> string): RequestConfig {
    var lines := Lines(content);
    WithBody(ApplyHeaders(InitialConfig(lines[0]), HeaderLines(lines)), Body(lines), unquote)
  }

  /** The last step of `parse_burp_request`: a non-empty body replaces `data` by its form fields. */
  function WithBody(c: RequestConfig, body: Option<string>, unquote: string -> string): RequestConfig {
    match body
    case Some(b) => if b != [] then c.(data := PostData(b, unquote)) else c
    case None => c
  }

  lemma ApplyHeadersSnoc(c: RequestConfig, hs: seq<HeaderLine>, h: HeaderLine)
    ensures ApplyHeaders(c, hs + [h]) == ApplyHeader(ApplyHeaders(c, hs), h)
  {
    assert (hs + [h])[..|hs|] == hs;
  }

  lemma ClassifyAllSnoc(lines: seq<string>, i: nat)
    requires 1 <= i < |lines|
    ensures ClassifyAll(lines[1..i + 1]) == ClassifyAll(lines[1..i]) + [Classify(lines[i])]
  {
    var ls := lines[1..i + 1];
    assert ls[..|ls| - 1] == lines[1..i];
    assert ls[|ls| - 1] == lines[i];
  }

  /** The body of the header loop of `parse_burp_request` for a stripped line that is not blank. */
  method HeaderLineStep(config: RequestConfig, line: string) returns (next: RequestConfig)
    ensures next == ApplyHeader(config, ClassifyLine(line))
  {
    next := config;
    if ':' in line {
      var j := IndexOf(line, ':');
      var key := Strip(line[..j]);
      var value := Strip(line[j + 1..]);
      if Lower(key) == "host" {
        assert ClassifyLine(line) == HostHeader(value);
        next := next.(url := "https://" + value + next.path, headers := Set(next.headers, "Host", value));
      } else if Lower(key) == "cookie" {
        assert ClassifyLine(line) == CookieHeader(value);
        var cookies := ParseCookies(value);
        next := next.(cookies := Update(next.cookies, cookies));
      } else {
        assert ClassifyLine(line) == OtherHeader(key, value);
        next := next.(headers := Set(next.headers, key, value));
      }
    } else {
      assert ClassifyLine(line) == Skipped;
    }
  }

  lemma HeaderLoopStep(start: RequestConfig, lines: seq<string>, i: nat)
    requires 1 <= i < |lines|
    ensures ApplyHeader(ApplyHeaders(start, ClassifyAll(lines[1..i])), ClassifyLine(Strip(lines[i])))
         == ApplyHeaders(start, ClassifyAll(lines[1..i + 1]))
  {
    ClassifyAllSnoc(lines, i);
    ApplyHeadersSnoc(start, ClassifyAll(lines[1..i]), Classify(lines[i]));
  }

  /** `parse_burp_request(file_path)` on the text of the file. */
  method ParseBurpRequest(content: string, unquote: string -> string) returns (config: RequestConfig)
    ensures config == ParseRequest(content, unquote)
  {
    var lines := Split(Strip(content), '\n');
    config := RequestConfig("", [], [], [], DefaultMethod, DefaultPath);
    var requestLine := Strip(lines[0]);
    var parts := Words(requestLine);
    if |parts| >= 2 {
      config := config.(httpMethod := parts[0], path := parts[1]);
    }
    ghost var start := config;
    assert ClassifyAll(lines[1..1]) == [];

    var bodyStart := |lines|;
    var i := 1;
    while i < |lines|
      invariant 1 <= i <= |lines|
      invariant bodyStart == |lines|
      invariant i <= HeaderEnd(lines)
      invariant config == ApplyHeaders(start, ClassifyAll(lines[1..i]))
    {
      var line := Strip(lines[i]);
      if line == [] {
        bodyStart := i + 1;
        break;
      }
      assert i < HeaderEnd(lines);
      config := HeaderLineStep(config, line);
      HeaderLoopStep(start, lines, i);
      i := i + 1;
    }
    assert i == HeaderEnd(lines);
    assert start == InitialConfig(lines[0]);
    assert config == ApplyHeaders(start, HeaderLines(lines));
    assert bodyStart == BodyStart(lines);
    ghost var headed := config;

    if bodyStart < |lines| {
      var body := Strip(Join(lines[bodyStart..], "\n"));
      if body != [] {
        var data := ParsePostData(body, unquote);
        config := config.(data := data);
      }
    }
    assert config == WithBody(headed, Body(lines), unquote);
  }

  // ---------------------------------------------------------------------
  // What `parse_burp_request` promises about the configuration it returns

  /** Method and path come from a request line of at least two words; otherwise they are 'POST' and '/cart'. */
  lemma RequestLineRule(content: string, unquote: string -> string)
    ensures var r := ParseRequest(content, unquote);
            var ws := Words(Strip(Lines(content)[0]));
            if |ws| >= 2 then r.httpMethod == ws[0] && r.path == ws[1] && IsWord(r.httpMethod) && IsWord(r.path)
            else r.httpMethod == DefaultMethod && r.path == DefaultPath
  {
  }

  /**
   * The form data is that of the non-empty body after the first blank line;
   * without a blank line, or with an empty body, it stays `{}`.
   */
  lemma DataRule(content: string, unquote: string -> string)
    ensures var lines := Lines(content);
            var r := ParseRequest(content, unquote);
            r.data == match Body(lines) case Some(b) => (if b != [] then PostData(b, unquote) else []) case None => []
    ensures HeaderEnd(Lines(content)) == |Lines(content)| ==> ParseRequest(content, unquote).data == []
  {
  }

  /**
   * Each header name has the value of its last line; `Host` is stored as
   * "Host" with the value of the last `Host` line, and no `Cookie` header is
   * ever stored.
   */
  lemma HeadersRule(content: string, unquote: string -> string)
    ensures var hs := HeaderLines(Lines(content));
            var r := ParseRequest(content, unquote);
            && UniqueKeys(r.headers)
            && (forall k :: Lookup(r.headers, k) == LastValue(HeaderPairs(hs), k))
            && Lookup(r.headers, "Host") == LastHost(hs)
            && (forall k :: k in Keys(r.headers) ==> Lower(k) != "cookie" && (Lower(k) == "host" ==> k == "Host"))
  {
    var lines := Lines(content);
    var start := InitialConfig(lines[0]);
    HeadersOnly(content, unquote);
    HeaderTable(start, HeaderLines(lines));
  }

  /** The header fields, cookies and URL are those the header loop leaves: the body only sets the form data. */
  lemma HeadersOnly(content: string, unquote: string -> string)
    ensures var lines := Lines(content);
            var headed := ApplyHeaders(InitialConfig(lines[0]), HeaderLines(lines));
            ParseRequest(content, unquote) == headed.(data := ParseRequest(content, unquote).data)
  {
  }

  /** What the header loop leaves in `headers`, starting from `{}`. */
  lemma HeaderTable(c: RequestConfig, hs: seq<HeaderLine>)
    requires c.headers == []
    requires forall j :: 0 <= j < |hs| ==> Classified(hs[j])
    ensures var headers := ApplyHeaders(c, hs).headers;
            && UniqueKeys(headers)
            && (forall k :: Lookup(headers, k) == LastValue(HeaderPairs(hs), k))
            && Lookup(headers, "Host") == LastHost(hs)
            && (forall k :: k in Keys(headers) ==> Lower(k) != "cookie" && (Lower(k) == "host" ==> k == "Host"))
  {
    var pairs := HeaderPairs(hs);
    var headers := ApplyHeaders(c, hs).headers;
    HeadersAreAssignments(c, hs);
    UpdateUniqueKeys([], pairs);
    UpdateLookup([], pairs);
    HostFromLastHost(hs);
    HeaderKeysClean(hs);
    forall k | k in Keys(headers)
      ensures Lower(k) != "cookie" && (Lower(k) == "host" ==> k == "Host")
    {
      if forall i :: 0 <= i < |pairs| ==> pairs[i].0 != k {
        LastValueAbsent(pairs, k);
      }
    }
  }

  /**
   * The URL is "https://" + the value of the last `Host` line + the path;
   * without a `Host` line it stays empty, which is what makes `main` give up.
   */
  lemma UrlRule(content: string, unquote: string -> string)
    ensures var hs := HeaderLines(Lines(content));
            var r := ParseRequest(content, unquote);
            && r.url == (match LastHost(hs) case None => "" case Some(h) => "https://" + h + r.path)
            && (r.url != "" <==> exists j :: 0 <= j < |hs| && hs[j].HostHeader?)
  {
    var lines := Lines(content);
    UrlFromLastHost(InitialConfig(lines[0]), HeaderLines(lines));
  }

  /** Each cookie has the value of its last pair over all `Cookie` lines, and each name is stored once. */
  lemma CookiesRule(content: string, unquote: string -> string)
    ensures var hs := HeaderLines(Lines(content));
            var r := ParseRequest(content, unquote);
            && UniqueKeys(r.cookies)
            && forall n :: Lookup(r.cookies, n) == LastValue(CookiePairsIn(hs), n)
  {
    var lines := Lines(content);
    var start := InitialConfig(lines[0]);
    var hs := HeaderLines(lines);
    CookiesUnique(start, hs);
    forall n ensures Lookup(ApplyHeaders(start, hs).cookies, n) == LastValue(CookiePairsIn(hs), n) {
      CookiesLastWins(start, hs, n);
    }
  }

  /** Merging cookie jars keeps each name once. */
  lemma {:induction false} CookiesUnique(c: RequestConfig, hs: seq<HeaderLine>)
    requires UniqueKeys(c.cookies)
    ensures UniqueKeys(ApplyHeaders(c, hs).cookies)
  {
    if hs != [] {
      var init := hs[..|hs| - 1];
      CookiesUnique(c, init);
      match hs[|hs| - 1]
      case CookieHeader(value) =>
        UpdateUniqueKeys(ApplyHeaders(c, init).cookies, CookieJar(value));
      case Skipped =>
      case HostHeader(_) =>
      case OtherHeader(_, _) =>
    }
  }
}
