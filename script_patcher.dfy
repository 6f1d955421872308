/**
 * `update_cart_script` in parse_burp_request.py: the text of the attack
 * script is rewritten so that its quoted configuration literals carry the
 * values of a parsed request. Reading and writing the file are not modelled:
 * the operation is a function from the old script text to the new one.
 */
module ScriptPatcher {
  import opened Text
  import opened Dicts
  import opened BurpParser

  // ---------------------------------------------------------------------
  // `re.sub` with the patterns the program uses

  /**
   * `re.sub(re.escape(open) + "[^" + close + "]*" + close, rep, s)`: scanning
   * from the left, every `open` that is followed, later on, by `close` is
   * replaced together with everything up to and including the first such
   * `close`; the scan goes on after it. `[^c]*` also crosses line breaks.
   */
  function SubDelimited(s: string, open: string, close: char, rep: string): string
    requires open != []
    decreases |s|
  {
    if s == [] then []
    else if StartsWith(s, open) && Find(s[|open|..], close) < |s| - |open| then
      rep + SubDelimited(s[|open| + Find(s[|open|..], close) + 1..], open, close, rep)
    else [s[0]] + SubDelimited(s[1..], open, close, rep)
  }

  /** Where the pattern does not start, the first character is copied. */
  lemma SubCopy(s: string, open: string, close: char, rep: string)
    requires open != [] && s != [] && !StartsWith(s, open)
    ensures SubDelimited(s, open, close, rep) == [s[0]] + SubDelimited(s[1..], open, close, rep)
  {
  }

  /** Text before the first `open` is copied as it is. */
  lemma {:induction false} SubSkip(pre: string, rest: string, open: string, close: char, rep: string)
    requires open != []
    requires NoMatchBefore(pre + rest, open, |pre|)
    ensures SubDelimited(pre + rest, open, close, rep) == pre + SubDelimited(rest, open, close, rep)
    decreases |pre|
  {
    if pre != [] {
      var s := pre + rest;
      NoMatchBeforeTail(pre, rest, open);
      SubSkip(pre[1..], rest, open, close, rep);
      SubCopy(s, open, close, rep);
      ConsTail(pre, SubDelimited(rest, open, close, rep));
    } else {
      assert pre + rest == rest;
    }
  }

  /** A text without `open` is left as it is. */
  lemma SubAbsent(s: string, open: string, close: char, rep: string)
    requires open != [] && NoMatchBefore(s, open, |s| + 1)
    ensures SubDelimited(s, open, close, rep) == s
  {
    assert s + [] == s;
    SubSkip(s, [], open, close, rep);
  }

  /** `open`, a run without `close`, then `close`: the whole literal becomes `rep`. */
  lemma SubMatch(mid: string, post: string, open: string, close: char, rep: string)
    requires open != [] && close !in mid
    ensures SubDelimited(open + mid + [close] + post, open, close, rep) == rep + SubDelimited(post, open, close, rep)
  {
    var s := open + mid + [close] + post;
    assert s[..|open|] == open;
    var tail := s[|open|..];
    assert tail == mid + [close] + post;
    FindUnique(tail, close, |mid|);
    assert s[|open| + |mid| + 1..] == post;
  }

  /**
   * A text with one literal: what comes before it and after it is kept, the
   * literal is replaced.
   */
  lemma SubOnce(pre: string, mid: string, post: string, open: string, close: char, rep: string)
    requires open != [] && close !in mid
    requires NoMatchBefore(pre + open + mid + [close] + post, open, |pre|)
    requires NoMatchBefore(post, open, |post| + 1)
    ensures SubDelimited(pre + open + mid + [close] + post, open, close, rep) == pre + rep + post
  {
    var lit := open + mid + [close] + post;
    assert pre + open + mid + [close] + post == pre + lit;
    SubSkip(pre, lit, open, close, rep);
    SubMatch(mid, post, open, close, rep);
    SubAbsent(post, open, close, rep);
  }

  /** `re.sub(lead + "'[^']*'", lead + "'" + value + "'", s)` */
  function SubQuoted(s: string, lead: string, value: string): string {
    SubDelimited(s, lead + "'", '\'', lead + "'" + value + "'")
  }

  // ---------------------------------------------------------------------
  // The `DATA` literal

  const UrlLead: string := "URL = "
  const DataLead: string := "DATA: Dict[str, str] = "

  /** The lead of the entry `'key': '...'` of a dict literal. */
  function EntryLead(key: string): string {
    "'" + key + "': "
  }

  /** The text `'key': 'value'` of one form field. */
  function Item(key: string, value: string): string {
    "'" + key + "': '" + value + "'"
  }

  function Items(data: Dict<string, string>): (items: seq<string>)
    ensures |items| == |data|
    ensures forall i :: 0 <= i < |data| ==> items[i] == Item(data[i].0, data[i].1)
  {
    seq(|data|, i requires 0 <= i < |data| => Item(data[i].0, data[i].1))
  }

  /** `'{' + ', '.join(data_items) + '}'`: the fields in key order. */
  function DataLiteral(data: Dict<string, string>): string {
    "{" + Join(Items(data), ", ") + "}"
  }

  /** The `DATA` literal written to the script: a `quantity` field, when there is one, is forced to '99'. */
  function DataText(data: Dict<string, string>): string {
    var literal := DataLiteral(data);
    match Lookup(data, "quantity")
    case Some(q) => Replace(literal, Item("quantity", q), Item("quantity", "99"))
    case None => literal
  }

  /** The text `'quantity': '...'` that is searched for, and the text it becomes. */
  function QuantityItem(q: string): string { Item("quantity", q) }
  const ForcedItem: string := Item("quantity", "99")

  /** No key and no value holds a quote, so the literal's quotes are exactly its delimiters. */
  predicate QuoteFree(data: Dict<string, string>) {
    forall i :: 0 <= i < |data| ==> '\'' !in data[i].0 && '\'' !in data[i].1
  }

  /** The literal after its `{`: the items, each followed by `, ` and the last by `}`. */
  function Entries(data: Dict<string, string>): string {
    if data == [] then "}"
    else if |data| == 1 then Item(data[0].0, data[0].1) + "}"
    else Item(data[0].0, data[0].1) + ", " + Entries(data[1..])
  }

  lemma {:induction false} EntriesJoin(data: Dict<string, string>)
    ensures Join(Items(data), ", ") + "}" == Entries(data)
  {
    if |data| >= 2 {
      assert Items(data)[1..] == Items(data[1..]);
      EntriesJoin(data[1..]);
    }
  }

  /** What follows an item: `, ` and the next item, or the closing `}`. */
  predicate AfterItem(s: string) {
    s != [] && (s[0] == ',' || s[0] == '}')
  }

  /**
   * A quoted word in front of `rest` is not the searched text unless the word
   * is `quantity` and `rest` goes on with `:`.
   */
  lemma QuotedMismatch(w: string, rest: string, q: string)
    requires '\'' !in w
    requires w != "quantity" || rest == [] || rest[0] != ':'
    ensures !StartsWith("'" + w + "'" + rest, QuantityItem(q))
  {
    var s := "'" + w + "'" + rest;
    var pat := QuantityItem(q);
    assert pat == "'" + "quantity" + "'" + (": '" + q + "'");
    assert s[|w| + 1] == '\'';
    if |w| < 8 {
      assert pat[|w| + 1] == "quantity"[|w|];
      Mismatch(s, pat, |w| + 1);
    } else if |w| > 8 {
      assert s[9] == w[8];
      Mismatch(s, pat, 9);
    } else if w != "quantity" {
      var j :| 0 <= j < 8 && w[j] != "quantity"[j];
      assert s[j + 1] == w[j];
      Mismatch(s, pat, j + 1);
    } else {
      Mismatch(s, pat, 10);
    }
  }

  /** Inside an item other than `quantity` the searched text starts nowhere. */
  lemma ItemMismatch(k: string, v: string, after: string, q: string, p: nat)
    requires '\'' !in k && '\'' !in v && k != "quantity" && AfterItem(after)
    requires p < |Item(k, v)|
    ensures !StartsWith((Item(k, v) + after)[p..], QuantityItem(q))
  {
    var s := Item(k, v) + after;
    var pat := QuantityItem(q);
    assert pat[0] == '\'' && pat[1] == 'q';
    var valueAt := |k| + 4;
    assert s == "'" + k + "'" + (": '" + v + "'" + after);
    assert s[valueAt..] == "'" + v + "'" + after;
    if p == 0 {
      QuotedMismatch(k, ": '" + v + "'" + after, q);
    } else if p == valueAt {
      QuotedMismatch(v, after, q);
    } else if p == |k| + 1 {
      assert s[p..][1] == ':';
      Mismatch(s[p..], pat, 1);
    } else if p == |k| + |v| + 5 {
      assert s[p..][1] == after[0];
      Mismatch(s[p..], pat, 1);
    } else {
      if 1 <= p <= |k| {
        assert s[p] == k[p - 1];
      } else if valueAt < p < |k| + |v| + 5 {
        assert s[p] == s[valueAt..][p - valueAt] == v[p - valueAt - 1];
      }
      Mismatch(s[p..], pat, 0);
    }
  }

  /** An item other than `quantity` is copied as it is. */
  lemma ItemSkip(k: string, v: string, after: string, q: string)
    requires '\'' !in k && '\'' !in v && k != "quantity" && AfterItem(after)
    ensures Replace(Item(k, v) + after, QuantityItem(q), ForcedItem)
         == Item(k, v) + Replace(after, QuantityItem(q), ForcedItem)
  {
    forall p | 0 <= p < |Item(k, v)| && p <= |Item(k, v) + after|
      ensures !StartsWith((Item(k, v) + after)[p..], QuantityItem(q))
    {
      ItemMismatch(k, v, after, q, p);
    }
    ReplaceSkip(Item(k, v), after, QuantityItem(q), ForcedItem);
  }

  /** The separator `, ` is copied as it is. */
  lemma SeparatorSkip(rest: string, q: string)
    ensures Replace(", " + rest, QuantityItem(q), ForcedItem) == ", " + Replace(rest, QuantityItem(q), ForcedItem)
  {
    var pat := QuantityItem(q);
    assert pat[0] == '\'';
    forall p | 0 <= p < 2 && p <= |", " + rest|
      ensures !StartsWith((", " + rest)[p..], pat)
    {
      Mismatch((", " + rest)[p..], pat, 0);
    }
    ReplaceSkip(", ", rest, pat, ForcedItem);
  }

  /** What follows the first item of a literal with more than one item, or with one. */
  lemma EntriesCons(data: Dict<string, string>)
    requires data != []
    ensures Entries(data) == Item(data[0].0, data[0].1) + (if |data| == 1 then "}" else ", " + Entries(data[1..]))
    ensures AfterItem(if |data| == 1 then "}" else ", " + Entries(data[1..]))
  {
  }

  lemma QuoteFreeTail(data: Dict<string, string>)
    requires data != [] && QuoteFree(data)
    ensures QuoteFree(data[1..]) && '\'' !in data[0].0 && '\'' !in data[0].1
  {
    assert forall i :: 0 <= i < |data| - 1 ==> data[1..][i] == data[i + 1];
  }

  /** Without a `quantity` key the literal has no `'quantity': '...'` in it. */
  lemma {:induction false} EntriesUntouched(data: Dict<string, string>, q: string)
    requires QuoteFree(data) && "quantity" !in Keys(data)
    ensures Replace(Entries(data), QuantityItem(q), ForcedItem) == Entries(data)
  {
    if data != [] {
      KeysCons(data);
      QuoteFreeTail(data);
      EntriesCons(data);
      var after := if |data| == 1 then "}" else ", " + Entries(data[1..]);
      ItemSkip(data[0].0, data[0].1, after, q);
      if |data| > 1 {
        SeparatorSkip(Entries(data[1..]), q);
        EntriesUntouched(data[1..], q);
      }
    }
  }

  /** The `quantity` item, and that one only, becomes `'quantity': '99'`. */
  lemma {:induction false} EntriesForced(data: Dict<string, string>, q: string)
    requires QuoteFree(data) && UniqueKeys(data) && Lookup(data, "quantity") == Some(q)
    ensures Replace(Entries(data), QuantityItem(q), ForcedItem) == Entries(Set(data, "quantity", "99"))
  {
    KeysCons(data);
    QuoteFreeTail(data);
    EntriesCons(data);
    var forced := Set(data, "quantity", "99");
    var after := if |data| == 1 then "}" else ", " + Entries(data[1..]);
    if data[0].0 == "quantity" {
      assert forced == [("quantity", "99")] + data[1..];
      ReplaceHere(after, QuantityItem(q), ForcedItem);
      if |data| > 1 {
        SeparatorSkip(Entries(data[1..]), q);
        EntriesUntouched(data[1..], q);
      }
      EntriesCons(forced);
      assert forced[1..] == data[1..];
    } else {
      ItemSkip(data[0].0, data[0].1, after, q);
      var rest := Set(data[1..], "quantity", "99");
      assert forced == [data[0]] + rest;
      SetKeys(data[1..], "quantity", "99");
      SeparatorSkip(Entries(data[1..]), q);
      EntriesForced(data[1..], q);
      EntriesCons(forced);
      assert forced[1..] == rest;
    }
  }

  /** The literal starts with `{`, which the search skips. */
  lemma LiteralEntries(data: Dict<string, string>)
    ensures DataLiteral(data) == "{" + Entries(data)
  {
    EntriesJoin(data);
    assert "{" + Join(Items(data), ", ") + "}" == "{" + (Join(Items(data), ", ") + "}");
  }

  lemma LiteralForced(data: Dict<string, string>, q: string)
    requires QuoteFree(data) && UniqueKeys(data) && Lookup(data, "quantity") == Some(q)
    ensures Replace(DataLiteral(data), QuantityItem(q), ForcedItem) == DataLiteral(Set(data, "quantity", "99"))
  {
    var pat := QuantityItem(q);
    LiteralEntries(data);
    LiteralEntries(Set(data, "quantity", "99"));
    assert pat[0] == '\'';
    Mismatch(DataLiteral(data), pat, 0);
    assert DataLiteral(data)[0..] == DataLiteral(data);
    ReplaceSkip("{", Entries(data), pat, ForcedItem);
    EntriesForced(data, q);
  }

  /** The `quantity` value forced to '99' where there is one: the fields whose literal is written. */
  function ForcedData(data: Dict<string, string>): Dict<string, string> {
    if Lookup(data, "quantity").Some? then Set(data, "quantity", "99") else data
  }

  /**
   * The `DATA` literal lists the fields in key order, each as `'key': 'value'`,
   * with the value of `quantity` replaced by '99' and every other value kept.
   */
  lemma DataTextForcesQuantity(data: Dict<string, string>)
    requires QuoteFree(data) && UniqueKeys(data)
    ensures DataText(data) == DataLiteral(ForcedData(data))
    ensures Keys(ForcedData(data)) == Keys(data)
    ensures "quantity" in Keys(data) ==> Lookup(ForcedData(data), "quantity") == Some("99")
    ensures forall k :: k != "quantity" ==> Lookup(ForcedData(data), k) == Lookup(data, k)
  {
    SetKeys(data, "quantity", "99");
    SetLookup(data, "quantity", "99");
    if Lookup(data, "quantity").Some? {
      LiteralForced(data, Lookup(data, "quantity").value);
    }
  }

  // ---------------------------------------------------------------------
  // The whole rewrite

  /** The text after one optional rewrite of the literal `'key': '...'`, done only when `key` has a value. */
  function SubIfPresent(s: string, key: string, value: Option<string>): string {
    match value
    case Some(v) => SubQuoted(s, EntryLead(key), v)
    case None => s
  }

  /** What `update_cart_script(config)` writes back for a script whose text was `content`. */
  function PatchScript(content: string, config: RequestConfig): string {
    var c := SubQuoted(content, UrlLead, config.url);
    var c := SubIfPresent(c, "Host", Lookup(config.headers, "Host"));
    var c := SubIfPresent(c, "Origin", Lookup(config.headers, "Origin"));
    var c := SubIfPresent(c, "Referer", Lookup(config.headers, "Referer"));
    var c := SubIfPresent(c, "session", Lookup(config.cookies, "session"));
    if config.data != [] then SubDelimited(c, DataLead + "{", '}', DataLead + DataText(config.data)) else c
  }

  /** With none of the optional values, only the `URL` literal is rewritten. */
  lemma PatchOnlyUrl(content: string, config: RequestConfig)
    requires Lookup(config.headers, "Host").None? && Lookup(config.headers, "Origin").None?
    requires Lookup(config.headers, "Referer").None? && Lookup(config.cookies, "session").None?
    requires config.data == []
    ensures PatchScript(content, config) == SubQuoted(content, UrlLead, config.url)
  {
  }

  /** The opening of the `URL` literal. */
  const UrlOpen: string := UrlLead + "'"

  /**
   * A script with one `URL = '...'` literal and no other literal to rewrite:
   * the old URL is replaced by the request's and nothing else changes.
   */
  lemma PatchUrlLiteral(pre: string, previous: string, post: string, config: RequestConfig)
    requires Lookup(config.headers, "Host").None? && Lookup(config.headers, "Origin").None?
    requires Lookup(config.headers, "Referer").None? && Lookup(config.cookies, "session").None?
    requires config.data == []
    requires '\'' !in previous
    requires NoMatchBefore(pre + UrlOpen + previous + "'" + post, UrlOpen, |pre|)
    requires NoMatchBefore(post, UrlOpen, |post| + 1)
    ensures PatchScript(pre + UrlOpen + previous + "'" + post, config) == pre + UrlOpen + config.url + "'" + post
  {
    PatchOnlyUrl(pre + UrlOpen + previous + "'" + post, config);
    SubQuotedOnce(pre, previous, post, UrlLead, config.url);
  }

  /** One quoted literal after `lead`, and no other: its value is replaced and nothing else changes. */
  lemma SubQuotedOnce(pre: string, previous: string, post: string, lead: string, value: string)
    requires '\'' !in previous
    requires NoMatchBefore(pre + (lead + "'") + previous + "'" + post, lead + "'", |pre|)
    requires NoMatchBefore(post, lead + "'", |post| + 1)
    ensures SubQuoted(pre + (lead + "'") + previous + "'" + post, lead, value) == pre + (lead + "'") + value + "'" + post
  {
    var rep := lead + "'" + value + "'";
    SubOnce(pre, previous, post, lead + "'", '\'', rep);
  }

  lemma ItemsSnoc(data: Dict<string, string>, i: nat)
    requires i < |data|
    ensures Items(data[..i + 1]) == Items(data[..i]) + [Item(data[i].0, data[i].1)]
  {
    var longer := Items(data[..i + 1]);
    var shorter := Items(data[..i]);
    forall j | 0 <= j < i
      ensures longer[j] == shorter[j]
    {
      assert data[..i + 1][j] == data[..i][j];
    }
  }

  /** The loop of `update_cart_script` that renders each form field as `'key': 'value'`, in order. */
  method BuildDataItems(data: Dict<string, string>) returns (dataItems: seq<string>)
    ensures dataItems == Items(data)
  {
    dataItems := [];
    var i := 0;
    while i < |data|
      invariant 0 <= i <= |data|
      invariant dataItems == Items(data[..i])
    {
      ItemsSnoc(data, i);
      dataItems := dataItems + [Item(data[i].0, data[i].1)];
      i := i + 1;
    }
    assert data[..i] == data;
  }

  /** `update_cart_script(config)`: the content is rewritten step by step, as the program does. */
  method UpdateCartScript(content: string, config: RequestConfig) returns (patched: string)
    ensures patched == PatchScript(content, config)
  {
    patched := SubQuoted(content, UrlLead, config.url);
    ghost var before := patched;
    if Lookup(config.headers, "Host").Some? {
      patched := SubQuoted(patched, EntryLead("Host"), Lookup(config.headers, "Host").value);
    }
    assert patched == SubIfPresent(before, "Host", Lookup(config.headers, "Host"));
    before := patched;
    if Lookup(config.headers, "Origin").Some? {
      patched := SubQuoted(patched, EntryLead("Origin"), Lookup(config.headers, "Origin").value);
    }
    assert patched == SubIfPresent(before, "Origin", Lookup(config.headers, "Origin"));
    before := patched;
    if Lookup(config.headers, "Referer").Some? {
      patched := SubQuoted(patched, EntryLead("Referer"), Lookup(config.headers, "Referer").value);
    }
    assert patched == SubIfPresent(before, "Referer", Lookup(config.headers, "Referer"));
    before := patched;
    if Lookup(config.cookies, "session").Some? {
      patched := SubQuoted(patched, EntryLead("session"), Lookup(config.cookies, "session").value);
    }
    assert patched == SubIfPresent(before, "session", Lookup(config.cookies, "session"));
    ghost var headed := patched;
    assert PatchScript(content, config)
        == if config.data != [] then SubDelimited(headed, DataLead + "{", '}', DataLead + DataText(config.data)) else headed;
    if config.data != [] {
      var dataItems := BuildDataItems(config.data);
      var dataStr := "{" + Join(dataItems, ", ") + "}";
      if Lookup(config.data, "quantity").Some? {
        var q := Lookup(config.data, "quantity").value;
        dataStr := Replace(dataStr, Item("quantity", q), Item("quantity", "99"));
      }
      assert dataStr == DataText(config.data);
      patched := SubDelimited(patched, DataLead + "{", '}', DataLead + dataStr);
    }
  }
}
