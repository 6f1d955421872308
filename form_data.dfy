/**
 * The POST body parser of parse_burp_request.py: `parse_post_data`, built on
 * Python's `urllib.parse.parse_qs` with its default arguments (fields
 * separated by '&', blank values dropped, no strict parsing).
 *
 * Percent-decoding (`urllib.parse.unquote`, UTF-8 with replacement of bad
 * bytes) is not written out: it is the parameter `unquote`.
 */
module FormData {
  import opened Text
  import opened Dicts

  /** A name or value as `parse_qsl` decodes it: '+' becomes a space, then percent-decoding. */
  function Decode(s: string, unquote: string -> string): string {
    unquote(ReplaceChar(s, '+', ' '))
  }

  /**
   * The pairs `parse_qsl` keeps from a list of raw fields: a field is skipped
   * when it has no '=' (this covers the empty field) or when the part after
   * its first '=' is empty; otherwise it splits at its first '='.
   */
  function FieldPairs(fields: seq<string>, unquote: string -> string): (ps: seq<(string, string)>)
    ensures |ps| <= |fields|
  {
    if fields == [] then []
    else
      var f := fields[0];
      var rest := FieldPairs(fields[1..], unquote);
      if '=' !in f then rest
      else
        var i := IndexOf(f, '=');
        if f[i + 1..] == "" then rest
        else [(Decode(f[..i], unquote), Decode(f[i + 1..], unquote))] + rest
  }

  /** `urllib.parse.parse_qsl(qs)` */
  function ParseQsl(qs: string, unquote: string -> string): seq<(string, string)> {
    FieldPairs(if qs == "" then [] else Split(qs, '&'), unquote)
  }

  /** The names of `ps` in order of first occurrence, each once. */
  function Dedup(names: seq<string>): (r: seq<string>)
    ensures Distinct(r)
    ensures forall n :: n in r <==> n in names
  {
    if names == [] then []
    else
      var d := Dedup(names[..|names| - 1]);
      var n := names[|names| - 1];
      DistinctAppend(d, n);
      if n in d then d else d + [n]
  }

  function Names(ps: seq<(string, string)>): (ns: seq<string>)
    ensures |ns| == |ps| && forall i :: 0 <= i < |ps| ==> ns[i] == ps[i].0
  {
    seq(|ps|, i requires 0 <= i < |ps| => ps[i].0)
  }

  /** The values paired with `k`, in order. */
  function ValuesOf(ps: seq<(string, string)>, k: string): seq<string> {
    if ps == [] then []
    else
      var last := ps[|ps| - 1];
      ValuesOf(ps[..|ps| - 1], k) + (if last.0 == k then [last.1] else [])
  }

  /**
   * The loop of `parse_qs`: a name seen before gets the value appended to its
   * list, a new name gets a one-element list. Names keep their order of first
   * occurrence and each maps to all of its values in order.
   */
  function Group(ps: seq<(string, string)>): (r: Dict<string, seq<string>>)
    ensures Keys(r) == Dedup(Names(ps))
    ensures forall k :: Lookup(r, k) == if ValuesOf(ps, k) == [] then None else Some(ValuesOf(ps, k))
  {
    if ps == [] then []
    else
      var init := ps[..|ps| - 1];
      var d := Group(init);
      var last := ps[|ps| - 1];
      var vs := ValuesOf(init, last.0);
      NamesSnoc(ps);
      DedupSnoc(Names(init), last.0);
      ValuesOfStep(ps);
      SetKeys(d, last.0, vs + [last.1]);
      SetLookup(d, last.0, vs + [last.1]);
      Set(d, last.0, vs + [last.1])
  }

  lemma ValuesOfStep(ps: seq<(string, string)>)
    requires ps != []
    ensures forall k :: k != ps[|ps| - 1].0 ==> ValuesOf(ps, k) == ValuesOf(ps[..|ps| - 1], k)
    ensures ValuesOf(ps, ps[|ps| - 1].0) == ValuesOf(ps[..|ps| - 1], ps[|ps| - 1].0) + [ps[|ps| - 1].1]
  {
    forall k | k != ps[|ps| - 1].0
      ensures ValuesOf(ps, k) == ValuesOf(ps[..|ps| - 1], k)
    {
      assert ValuesOf(ps[..|ps| - 1], k) + [] == ValuesOf(ps[..|ps| - 1], k);
    }
  }

  lemma NamesSnoc(ps: seq<(string, string)>)
    requires ps != []
    ensures Names(ps) == Names(ps[..|ps| - 1]) + [ps[|ps| - 1].0]
  {
  }

  lemma DedupSnoc(names: seq<string>, n: string)
    ensures Dedup(names + [n]) == if n in names then Dedup(names) else Dedup(names) + [n]
  {
    assert (names + [n])[..|names|] == names;
  }

  /** `urllib.parse.parse_qs(qs)` */
  function ParseQs(qs: string, unquote: string -> string): Dict<string, seq<string>> {
    Group(ParseQsl(qs, unquote))
  }

  function FirstOrEmpty(values: seq<string>): string {
    if values != [] then values[0] else ""
  }

  /** The first value of a name is the first of its values. */
  lemma {:induction false} FirstOfValues(ps: seq<(string, string)>, k: string)
    ensures ValuesOf(ps, k) == [] <==> FirstValue(ps, k).None?
    ensures ValuesOf(ps, k) != [] ==> ValuesOf(ps, k)[0] == FirstValue(ps, k).value
  {
    if ps != [] {
      var init := ps[..|ps| - 1];
      FirstOfValues(init, k);
      FirstValueSnoc(init, ps[|ps| - 1], k);
      assert init + [ps[|ps| - 1]] == ps;
    }
  }

  lemma {:induction false} FirstValueSnoc(ps: seq<(string, string)>, e: (string, string), k: string)
    ensures FirstValue(ps + [e], k) == if FirstValue(ps, k).Some? then FirstValue(ps, k) else if e.0 == k then Some(e.1) else None
  {
    if ps != [] {
      assert (ps + [e])[1..] == ps[1..] + [e];
      FirstValueSnoc(ps[1..], e, k);
    }
  }

  /** Each name of a `parse_qs` result with the first of its values. */
  function FirstValues(parsed: Dict<string, seq<string>>): (d: Dict<string, string>)
    ensures |d| == |parsed|
    ensures forall j :: 0 <= j < |d| ==> d[j] == (parsed[j].0, FirstOrEmpty(parsed[j].1))
  {
    if parsed == [] then []
    else
      var last := parsed[|parsed| - 1];
      FirstValues(parsed[..|parsed| - 1]) + [(last.0, FirstOrEmpty(last.1))]
  }

  lemma FirstValuesKeys(parsed: Dict<string, seq<string>>)
    ensures Keys(FirstValues(parsed)) == Keys(parsed)
  {
  }

  /**
   * What `parse_post_data(body)` returns: each name of the body in order of
   * first occurrence, with its first value.
   */
  function PostData(body: string, unquote: string -> string): (data: Dict<string, string>)
    ensures UniqueKeys(data)
    ensures Keys(data) == Dedup(Names(ParseQsl(body, unquote)))
    ensures forall k :: Lookup(data, k) == FirstValue(ParseQsl(body, unquote), k)
  {
    PostDataResult(ParseQsl(body, unquote));
    FirstValues(ParseQs(body, unquote))
  }

  /**
   * `parse_post_data(body)`: the loop over `parse_qs(body).items()` keeping
   * the first value of each name.
   */
  method ParsePostData(body: string, unquote: string -> string) returns (data: Dict<string, string>)
    ensures data == PostData(body, unquote)
  {
    var parsed := ParseQs(body, unquote);
    assert UniqueKeys(parsed);
    data := [];
    var i := 0;
    while i < |parsed|
      invariant 0 <= i <= |parsed|
      invariant data == FirstValues(parsed[..i])
    {
      NewKeyAt(parsed, i);
      PostDataStep(parsed, i);
      data := Set(data, parsed[i].0, FirstOrEmpty(parsed[i].1));
      i := i + 1;
    }
    assert parsed[..i] == parsed;
  }

  /** One turn of the loop of `parse_post_data` appends the next name with its first value. */
  lemma PostDataStep(parsed: Dict<string, seq<string>>, i: nat)
    requires i < |parsed| && parsed[i].0 !in Keys(parsed[..i])
    ensures Set(FirstValues(parsed[..i]), parsed[i].0, FirstOrEmpty(parsed[i].1)) == FirstValues(parsed[..i + 1])
  {
    var prefix := parsed[..i];
    FirstValuesKeys(prefix);
    SetNewKey(FirstValues(prefix), parsed[i].0, FirstOrEmpty(parsed[i].1));
    var p := parsed[..i + 1];
    assert p[..|p| - 1] == prefix;
  }

  /** What the loop of `parse_post_data` builds from the pairs of the body. */
  lemma PostDataResult(pairs: seq<(string, string)>)
    ensures UniqueKeys(FirstValues(Group(pairs)))
    ensures Keys(FirstValues(Group(pairs))) == Dedup(Names(pairs))
    ensures forall k :: Lookup(FirstValues(Group(pairs)), k) == FirstValue(pairs, k)
  {
    var parsed := Group(pairs);
    FirstValuesKeys(parsed);
    PostDataLookup(pairs);
  }

  /** Looking a name up in the first values of `parse_qs` gives its first value in the body. */
  lemma PostDataLookup(pairs: seq<(string, string)>)
    ensures forall k :: Lookup(FirstValues(Group(pairs)), k) == FirstValue(pairs, k)
  {
    var parsed := Group(pairs);
    forall k
      ensures Lookup(FirstValues(parsed), k) == FirstValue(pairs, k)
    {
      FirstOfValues(pairs, k);
      LookupFirstValues(parsed, k);
    }
  }

  lemma {:induction false} LookupFirstValues(parsed: Dict<string, seq<string>>, k: string)
    ensures Lookup(FirstValues(parsed), k) == match Lookup(parsed, k) case None => None case Some(vs) => Some(FirstOrEmpty(vs))
  {
    if parsed != [] {
      FirstValuesTail(parsed);
      if parsed[0].0 != k {
        LookupFirstValues(parsed[1..], k);
      }
    }
  }

  lemma FirstValuesTail(parsed: Dict<string, seq<string>>)
    requires parsed != []
    ensures FirstValues(parsed)[1..] == FirstValues(parsed[1..])
  {
  }
}
