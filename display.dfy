/**
 * What `display_config` in parse_burp_request.py shows of a parsed request:
 * session cookies are masked and long header values are cut short. Only the
 * shown values are modelled; the printing itself is not.
 */
module Display {
  import opened Text
  import opened Dicts

  const MaskKeep: nat := 8
  const TruncateAt: nat := 60
  const Ellipsis: string := "..."

  /** The header names shown under "Key Headers", in this order. */
  const KeyHeaders: seq<string> := ["Host", "Origin", "Referer", "User-Agent"]

  /**
   * How a session token is shown: a token of more than 16 characters as its
   * first 8 characters, "..." and its last 8; a shorter one as it is.
   */
  function MaskSession(token: string): (shown: string)
    ensures |token| > 2 * MaskKeep ==> |shown| == 2 * MaskKeep + |Ellipsis|
    ensures |token| <= 2 * MaskKeep ==> shown == token
    ensures |shown| <= 2 * MaskKeep + |Ellipsis|
  {
    if |token| > 2 * MaskKeep then token[..MaskKeep] + Ellipsis + token[|token| - MaskKeep..] else token
  }

  /** A masked token shows its first and last 8 characters and hides the rest behind "...". */
  lemma MaskShowsEnds(token: string)
    requires |token| > 2 * MaskKeep
    ensures var shown := MaskSession(token);
            && shown[..MaskKeep] == token[..MaskKeep]
            && shown[MaskKeep..MaskKeep + |Ellipsis|] == Ellipsis
            && shown[MaskKeep + |Ellipsis|..] == token[|token| - MaskKeep..]
  {
    var shown := MaskSession(token);
    assert shown == token[..MaskKeep] + Ellipsis + token[|token| - MaskKeep..];
  }

  /** Two long tokens that agree on their first and last 8 characters look the same: the middle is not shown. */
  lemma MaskHidesMiddle(a: string, b: string)
    requires |a| > 2 * MaskKeep && |b| > 2 * MaskKeep
    requires a[..MaskKeep] == b[..MaskKeep] && a[|a| - MaskKeep..] == b[|b| - MaskKeep..]
    ensures MaskSession(a) == MaskSession(b)
  {
  }

  /** Masking a shown token again changes nothing. */
  lemma MaskIdempotent(token: string)
    ensures MaskSession(MaskSession(token)) == MaskSession(token)
  {
    if |token| > 2 * MaskKeep {
      var shown := MaskSession(token);
      MaskShowsEnds(token);
      MaskShowsEnds(shown);
      assert shown[|shown| - MaskKeep..] == shown[MaskKeep + |Ellipsis|..];
    }
  }

  /** How a key header value is shown: a value of more than 60 characters as its first 60 and "...". */
  function TruncateHeader(value: string): (shown: string)
    ensures |value| > TruncateAt ==> |shown| == TruncateAt + |Ellipsis| && shown[..TruncateAt] == value[..TruncateAt]
    ensures |value| <= TruncateAt ==> shown == value
  {
    if |value| > TruncateAt then value[..TruncateAt] + Ellipsis else value
  }

  /** Cutting a shown value short again changes nothing. */
  lemma TruncateIdempotent(value: string)
    ensures TruncateHeader(TruncateHeader(value)) == TruncateHeader(value)
  {
    if |value| > TruncateAt {
      var shown := TruncateHeader(value);
      assert shown[..TruncateAt] == value[..TruncateAt];
    }
  }

  /** The cookies as shown: in order, with the value of every cookie named "session" (any letter case) masked. */
  function ShownCookies(cookies: Dict<string, string>): (shown: seq<(string, string)>)
    ensures |shown| == |cookies|
    ensures forall i :: 0 <= i < |cookies| ==> shown[i].0 == cookies[i].0
    ensures forall i :: 0 <= i < |cookies| ==>
      shown[i].1 == if Lower(cookies[i].0) == "session" then MaskSession(cookies[i].1) else cookies[i].1
  {
    if cookies == [] then []
    else
      var n := |cookies| - 1;
      var name := cookies[n].0;
      assert forall i :: 0 <= i < n ==> cookies[..n][i] == cookies[i];
      ShownCookies(cookies[..n]) + [(name, if Lower(name) == "session" then MaskSession(cookies[n].1) else cookies[n].1)]
  }

  /** The key headers as shown: those of `names` present in `headers`, in that order, each value cut short. */
  function ShownHeaders(headers: Dict<string, string>, names: seq<string>): (shown: seq<(string, string)>)
    ensures |shown| <= |names|
  {
    if names == [] then []
    else
      var rest := ShownHeaders(headers, names[1..]);
      match Lookup(headers, names[0])
      case Some(v) => [(names[0], TruncateHeader(v))] + rest
      case None => rest
  }

  /** Only key headers that are present are shown, each with its value cut short. */
  lemma {:induction false} ShownHeadersSound(headers: Dict<string, string>, names: seq<string>)
    ensures forall e :: e in ShownHeaders(headers, names) ==>
      e.0 in names && Lookup(headers, e.0).Some? && e.1 == TruncateHeader(Lookup(headers, e.0).value)
  {
    if names != [] {
      var rest := ShownHeaders(headers, names[1..]);
      ShownHeadersSound(headers, names[1..]);
      assert forall n :: n in names[1..] ==> n in names;
      var shown := ShownHeaders(headers, names);
      if Lookup(headers, names[0]).Some? {
        assert shown == [(names[0], TruncateHeader(Lookup(headers, names[0]).value))] + rest;
      } else {
        assert shown == rest;
      }
    }
  }

  /** Every key header that is present is shown, at index `i`. */
  lemma {:induction false} ShownHeadersComplete(headers: Dict<string, string>, names: seq<string>, h: string) returns (i: nat)
    requires h in names && Lookup(headers, h).Some?
    ensures i < |ShownHeaders(headers, names)| && ShownHeaders(headers, names)[i].0 == h
  {
    var rest := ShownHeaders(headers, names[1..]);
    var front := ShownFront(headers, names);
    if names[0] == h {
      i := 0;
    } else {
      var j := ShownHeadersComplete(headers, names[1..], h);
      i := |front| + j;
      assert ShownHeaders(headers, names)[i] == rest[j];
    }
  }

  /** The order of the names is the order shown: the headers shown for `n1 + n2` are those for `n1`, then those for `n2`. */
  lemma {:induction false} ShownHeadersAppend(headers: Dict<string, string>, n1: seq<string>, n2: seq<string>)
    ensures ShownHeaders(headers, n1 + n2) == ShownHeaders(headers, n1) + ShownHeaders(headers, n2)
  {
    if n1 == [] {
      assert n1 + n2 == n2;
    } else {
      var names := n1 + n2;
      assert names[0] == n1[0] && names[1..] == n1[1..] + n2;
      var front := ShownFront(headers, names);
      var front1 := ShownFront(headers, n1);
      assert front == front1;
      ShownHeadersAppend(headers, n1[1..], n2);
      assert ShownHeaders(headers, names) == front + (ShownHeaders(headers, n1[1..]) + ShownHeaders(headers, n2));
    }
  }

  /**
   * The "Key Headers" section: at most the four key headers, each present and
   * cut short; with all four present, all four are shown in the order Host,
   * Origin, Referer, User-Agent.
   */
  lemma KeyHeadersShown(headers: Dict<string, string>)
    ensures |ShownHeaders(headers, KeyHeaders)| <= |KeyHeaders| == 4
    ensures forall e :: e in ShownHeaders(headers, KeyHeaders) ==>
      e.0 in KeyHeaders && Lookup(headers, e.0).Some? && e.1 == TruncateHeader(Lookup(headers, e.0).value)
    ensures (forall n :: n in KeyHeaders ==> Lookup(headers, n).Some?) ==>
      |ShownHeaders(headers, KeyHeaders)| == 4 &&
      forall i :: 0 <= i < 4 ==> ShownHeaders(headers, KeyHeaders)[i].0 == KeyHeaders[i]
  {
    ShownHeadersSound(headers, KeyHeaders);
    if forall n :: n in KeyHeaders ==> Lookup(headers, n).Some? {
      ShownAllPresent(headers, KeyHeaders);
    }
  }

  /** When every name is present, one header is shown per name, in the order of the names. */
  lemma {:induction false} ShownAllPresent(headers: Dict<string, string>, names: seq<string>)
    requires forall n :: n in names ==> Lookup(headers, n).Some?
    ensures |ShownHeaders(headers, names)| == |names|
    ensures forall i :: 0 <= i < |names| ==> ShownHeaders(headers, names)[i].0 == names[i]
  {
    if names != [] {
      assert names[0] in names;
      assert forall n :: n in names[1..] ==> n in names;
      ShownAllPresent(headers, names[1..]);
      var front := ShownFront(headers, names);
      var shown := ShownHeaders(headers, names);
      forall i | 0 <= i < |names|
        ensures shown[i].0 == names[i]
      {
        if i > 0 {
          assert shown[i] == ShownHeaders(headers, names[1..])[i - 1];
        }
      }
    }
  }

  /** The first key header, shown in front of the rest when it is present. */
  lemma ShownFront(headers: Dict<string, string>, names: seq<string>) returns (front: seq<(string, string)>)
    requires names != []
    ensures ShownHeaders(headers, names) == front + ShownHeaders(headers, names[1..])
    ensures Lookup(headers, names[0]).Some? ==> front == [(names[0], TruncateHeader(Lookup(headers, names[0]).value))]
    ensures Lookup(headers, names[0]).None? ==> front == []
  {
    if Lookup(headers, names[0]).Some? {
      front := [(names[0], TruncateHeader(Lookup(headers, names[0]).value))];
    } else {
      front := [];
      assert ShownHeaders(headers, names) == [] + ShownHeaders(headers, names[1..]);
    }
  }
}
