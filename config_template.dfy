/**
 * config_template.py: the placeholder check over `DEFAULT_PATTERNS` and the
 * dict `get_config` hands out. The module-level settings are the fields of a
 * `Config`, so that both can be stated for any values; `Shipped` holds the
 * values the template ships with.
 */
module ConfigTemplate {
  import opened Text
  import opened Dicts

  /** The module-level settings of the template. */
  datatype Config = Config(
    url: string,
    headers: Dict<string, string>,
    cookies: Dict<string, string>,
    data: Dict<string, string>,
    requestCount: int,
    connectionLimit: int,
    timeoutSeconds: int)

  const LabPlaceholder: string := "YOUR-LAB-ID"
  const LabHost: string := LabPlaceholder + ".web-security-academy.net"

  const Shipped: Config := Config(
    "https://" + LabHost + "/cart",
    [ ("Host", LabHost),
      ("User-Agent", "Mozilla/5.0 (Macintosh; Intel Mac OS X 10.15; rv:139.0) Gecko/20100101 Firefox/139.0"),
      ("Accept", "text/html,application/xhtml+xml,application/xml;q=0.9,*/*;q=0.8"),
      ("Accept-Language", "en-US,en;q=0.5"),
      ("Accept-Encoding", "gzip, deflate, br"),
      ("Content-Type", "application/x-www-form-urlencoded"),
      ("Origin", "https://" + LabHost),
      ("Referer", "https://" + LabHost + "/product?productId=1"),
      ("Upgrade-Insecure-Requests", "1"),
      ("Sec-Fetch-Dest", "document"),
      ("Sec-Fetch-Mode", "navigate"),
      ("Sec-Fetch-Site", "same-origin"),
      ("Sec-Fetch-User", "?1"),
      ("Sec-Gpc", "1"),
      ("Priority", "u=0, i"),
      ("Te", "trailers") ],
    [("session", "YOUR-SESSION-TOKEN-HERE")],
    [("productId", "1"), ("redir", "PRODUCT"), ("quantity", "99")],
    337,
    50,
    30)

  /** `DEFAULT_PATTERNS`, in the order they are tried. */
  const DefaultPatterns: seq<string> := [LabPlaceholder, "YOUR-SESSION-TOKEN-HERE", "0a390020035ec1b5821438f800a10031"]

  // ---------------------------------------------------------------------
  // `validate_config`

  /**
   * `pattern in str(d)`, for a pattern of letters, digits and '-': it occurs
   * inside some key or some value. This is exact only while no key or value
   * holds a character that `repr` escapes; the hexadecimal digits of such an
   * escape (as in `\x00`) can complete a hexadecimal pattern in Python.
   */
  predicate InDict(d: Dict<string, string>, pattern: string) {
    exists i :: 0 <= i < |d| && (Contains(d[i].0, pattern) || Contains(d[i].1, pattern))
  }

  /** The test of one pattern against the URL, the cookies and the headers. */
  predicate Detected(c: Config, pattern: string) {
    Contains(c.url, pattern) || InDict(c.cookies, pattern) || InDict(c.headers, pattern)
  }

  /** The loop over the patterns: the first one detected, which is the one reported, or none. */
  function FirstDetected(c: Config, patterns: seq<string>): (found: Option<string>)
    ensures found.Some? ==> found.value in patterns && Detected(c, found.value)
    ensures found.None? <==> forall p :: p in patterns ==> !Detected(c, p)
  {
    if patterns == [] then None
    else if Detected(c, patterns[0]) then Some(patterns[0])
    else
      assert forall p :: p in patterns ==> p == patterns[0] || p in patterns[1..];
      FirstDetected(c, patterns[1..])
  }

  /** Every pattern tried before the reported one was not detected. */
  lemma {:induction false} FirstDetectedFirst(c: Config, patterns: seq<string>) returns (i: nat)
    requires FirstDetected(c, patterns).Some?
    ensures i < |patterns| && patterns[i] == FirstDetected(c, patterns).value
    ensures forall j :: 0 <= j < i ==> !Detected(c, patterns[j])
  {
    if Detected(c, patterns[0]) {
      i := 0;
    } else {
      var k := FirstDetectedFirst(c, patterns[1..]);
      i := k + 1;
    }
  }

  /** `validate_config()` for the settings `c`. */
  function ValidateConfig(c: Config): bool {
    FirstDetected(c, DefaultPatterns).None?
  }

  /** The check fails exactly when some default pattern occurs in the URL, the cookies or the headers. */
  lemma ValidateConfigExactly(c: Config)
    ensures !ValidateConfig(c) <==> exists i :: 0 <= i < |DefaultPatterns| && Detected(c, DefaultPatterns[i])
  {
    if !ValidateConfig(c) {
      var i := FirstDetectedFirst(c, DefaultPatterns);
    }
  }

  /** The data and the attack settings play no part in the check. */
  lemma ValidateConfigIgnoresSettings(c: Config, data: Dict<string, string>, count: int, limit: int, timeout: int)
    ensures ValidateConfig(c.(data := data, requestCount := count, connectionLimit := limit, timeoutSeconds := timeout))
         == ValidateConfig(c)
  {
    var d := c.(data := data, requestCount := count, connectionLimit := limit, timeoutSeconds := timeout);
    assert forall p :: Detected(d, p) == Detected(c, p);
    SameDetection(c, d, DefaultPatterns);
  }

  lemma {:induction false} SameDetection(c: Config, d: Config, patterns: seq<string>)
    requires forall p :: Detected(d, p) == Detected(c, p)
    ensures FirstDetected(c, patterns) == FirstDetected(d, patterns)
  {
    if patterns != [] && !Detected(c, patterns[0]) {
      SameDetection(c, d, patterns[1..]);
    }
  }

  /** The template as shipped fails the check, and the pattern reported is `YOUR-LAB-ID`, found in the URL. */
  lemma ShippedRefused()
    ensures FirstDetected(Shipped, DefaultPatterns) == Some(LabPlaceholder)
    ensures !ValidateConfig(Shipped)
  {
    assert Shipped.url == "https://" + LabPlaceholder + ".web-security-academy.net/cart";
    ContainsMiddle("https://", LabPlaceholder, ".web-security-academy.net/cart");
  }

  // ---------------------------------------------------------------------
  // `get_config`

  /** A value of the dict `get_config` returns. */
  datatype Setting = StrValue(text: string) | DictValue(entries: Dict<string, string>) | IntValue(n: int)

  const ConfigKeys: seq<string> := ["url", "headers", "cookies", "data", "request_count", "connection_limit", "timeout"]

  /** `get_config()`: the settings under their seven keys, in this order. */
  function GetConfig(c: Config): (d: Dict<string, Setting>)
    ensures Keys(d) == ConfigKeys
  {
    [ ("url", StrValue(c.url)),
      ("headers", DictValue(c.headers)),
      ("cookies", DictValue(c.cookies)),
      ("data", DictValue(c.data)),
      ("request_count", IntValue(c.requestCount)),
      ("connection_limit", IntValue(c.connectionLimit)),
      ("timeout", IntValue(c.timeoutSeconds)) ]
  }

  /** Reading the settings back out of such a dict, by key. */
  function ReadConfig(d: Dict<string, Setting>): Option<Config> {
    var url := Lookup(d, "url");
    var headers := Lookup(d, "headers");
    var cookies := Lookup(d, "cookies");
    var data := Lookup(d, "data");
    var count := Lookup(d, "request_count");
    var limit := Lookup(d, "connection_limit");
    var timeout := Lookup(d, "timeout");
    if url.Some? && url.value.StrValue? && headers.Some? && headers.value.DictValue?
       && cookies.Some? && cookies.value.DictValue? && data.Some? && data.value.DictValue?
       && count.Some? && count.value.IntValue? && limit.Some? && limit.value.IntValue?
       && timeout.Some? && timeout.value.IntValue?
    then
      Some(Config(url.value.text, headers.value.entries, cookies.value.entries, data.value.entries,
                  count.value.n, limit.value.n, timeout.value.n))
    else None
  }

  /** The seven keys are distinct. */
  lemma ConfigKeysDistinct()
    ensures Distinct(ConfigKeys)
  {
    assert ConfigKeys[0] == "url" && ConfigKeys[1] == "headers" && ConfigKeys[2] == "cookies" && ConfigKeys[3] == "data";
    assert ConfigKeys[4] == "request_count" && ConfigKeys[5] == "connection_limit" && ConfigKeys[6] == "timeout";
  }

  /** Every setting can be read back under its key: `get_config` loses nothing and mixes nothing up. */
  lemma GetConfigRoundTrip(c: Config)
    ensures UniqueKeys(GetConfig(c))
    ensures ReadConfig(GetConfig(c)) == Some(c)
  {
    var d := GetConfig(c);
    ConfigKeysDistinct();
    LookupAt(d, 0);
    LookupAt(d, 1);
    LookupAt(d, 2);
    LookupAt(d, 3);
    LookupAt(d, 4);
    LookupAt(d, 5);
    LookupAt(d, 6);
  }
}
