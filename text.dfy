/**
 * The Python string operations the tool is built from, written out over
 * `string` (a sequence of Unicode code points, as Python's `str` is).
 */
module Text {

  /**
   * Python's `str.isspace()` on one character: what `strip()` and `split()`
   * treat as whitespace (the Unicode characters of bidirectional class WS, B
   * or S, or of category Zs).
   */
  predicate IsSpace(c: char) {
    || '\t' <= c <= '\r'
    || '\U{1C}' <= c <= ' '
    || c == '\U{85}' || c == '\U{A0}' || c == '\U{1680}'
    || '\U{2000}' <= c <= '\U{200A}'
    || c == '\U{2028}' || c == '\U{2029}' || c == '\U{202F}' || c == '\U{205F}' || c == '\U{3000}'
  }

  predicate AllSpace(s: string) {
    forall i :: 0 <= i < |s| ==> IsSpace(s[i])
  }

  /** The number of whitespace characters `s` starts with. */
  function LeadingSpace(s: string): (n: nat)
    ensures n <= |s| && (n < |s| ==> !IsSpace(s[n]))
    ensures forall i :: 0 <= i < n ==> IsSpace(s[i])
  {
    if s == [] || !IsSpace(s[0]) then 0
    else
      var n := LeadingSpace(s[1..]);
      assert forall i :: 1 <= i < n + 1 ==> s[i] == s[1..][i - 1];
      1 + n
  }

  /** The number of whitespace characters `s` ends with. */
  function TrailingSpace(s: string): (n: nat)
    ensures n <= |s| && (n < |s| ==> !IsSpace(s[|s| - 1 - n]))
    ensures forall i :: |s| - n <= i < |s| ==> IsSpace(s[i])
  {
    if s == [] || !IsSpace(s[|s| - 1]) then 0
    else
      var n := TrailingSpace(s[..|s| - 1]);
      assert forall i :: |s| - 1 - n <= i < |s| - 1 ==> s[..|s| - 1][i] == s[i];
      1 + n
  }

  /** `s.lstrip()` */
  function TrimStart(s: string): (r: string)
    ensures |r| <= |s| && (r == [] || !IsSpace(r[0]))
  {
    s[LeadingSpace(s)..]
  }

  /** `s.strip()` */
  function Strip(s: string): (r: string)
    ensures |r| <= |s|
  {
    var t := TrimStart(s);
    t[..|t| - TrailingSpace(t)]
  }

  /** `r` is the slice `s[a..a+|r|]`, everything around it is whitespace and it neither starts nor ends with whitespace. */
  ghost predicate IsStripOf(s: string, a: nat, r: string) {
    && a + |r| <= |s|
    && r == s[a..a + |r|]
    && (forall i :: 0 <= i < a ==> IsSpace(s[i]))
    && (forall i :: a + |r| <= i < |s| ==> IsSpace(s[i]))
    && (r == [] || (!IsSpace(r[0]) && !IsSpace(r[|r| - 1])))
  }

  /** `strip()` removes exactly the whitespace at both ends. */
  lemma StripRemovesSpace(s: string)
    ensures IsStripOf(s, LeadingSpace(s), Strip(s))
  {
    StripIsSlice(s);
    StripTrailing(s);
    StripEnds(s);
  }

  lemma StripIsSlice(s: string)
    ensures LeadingSpace(s) + |Strip(s)| <= |s|
    ensures Strip(s) == s[LeadingSpace(s)..LeadingSpace(s) + |Strip(s)|]
  {
  }

  lemma StripTrailing(s: string)
    ensures forall i :: LeadingSpace(s) + |Strip(s)| <= i < |s| ==> IsSpace(s[i])
  {
    var a := LeadingSpace(s);
    var t := s[a..];
    forall i | a + |Strip(s)| <= i < |s|
      ensures IsSpace(s[i])
    {
      assert s[i] == t[i - a];
    }
  }

  lemma StripEnds(s: string)
    ensures Strip(s) == [] || (!IsSpace(Strip(s)[0]) && !IsSpace(Strip(s)[|Strip(s)| - 1]))
  {
    var t := TrimStart(s);
    var b := TrailingSpace(t);
    var r := Strip(s);
    if r != [] {
      assert r[0] == t[0];
      assert r[|r| - 1] == t[|t| - 1 - b];
    }
  }

  /** Only an all-whitespace string strips to "". */
  lemma StripEmpty(s: string)
    ensures Strip(s) == [] <==> AllSpace(s)
  {
    StripRemovesSpace(s);
  }

  /** A slice surrounded by whitespace that neither starts nor ends with whitespace is what `strip()` returns. */
  lemma StripUnique(s: string, a: nat, r: string)
    requires IsStripOf(s, a, r) && r != []
    ensures Strip(s) == r
  {
    assert s[a] == r[0];
    LeadingSpaceAt(s, a);
    var t := s[a..];
    var n := |s| - (a + |r|);
    assert t[|t| - 1 - n] == r[|r| - 1];
    forall i | |t| - n <= i < |t|
      ensures IsSpace(t[i])
    {
      assert t[i] == s[a + i];
    }
    TrailingSpaceAt(t, n);
    assert Strip(s) == t[..|t| - n];
  }

  lemma LeadingSpaceAt(s: string, a: nat)
    requires a < |s| && !IsSpace(s[a]) && forall i :: 0 <= i < a ==> IsSpace(s[i])
    ensures LeadingSpace(s) == a
  {
  }

  lemma TrailingSpaceAt(s: string, n: nat)
    requires n < |s| && !IsSpace(s[|s| - 1 - n]) && forall i :: |s| - n <= i < |s| ==> IsSpace(s[i])
    ensures TrailingSpace(s) == n
  {
  }

  /** `strip()` is idempotent. */
  lemma StripIdempotent(s: string)
    ensures Strip(Strip(s)) == Strip(s)
  {
    var r := Strip(s);
    StripRemovesSpace(s);
    if r != [] {
      assert IsStripOf(r, 0, r);
      StripUnique(r, 0, r);
    }
  }

  /** `s.find(c)`, except that a missing `c` gives `|s|` instead of -1. */
  function Find(s: string, c: char): (i: nat)
    ensures i <= |s| && (i < |s| ==> s[i] == c)
    ensures forall j :: 0 <= j < i ==> s[j] != c
  {
    if s == [] || s[0] == c then 0 else 1 + Find(s[1..], c)
  }

  /** The index of the first occurrence of `c` in `s`. */
  function IndexOf(s: string, c: char): (i: nat)
    requires c in s
    ensures i < |s| && s[i] == c
    ensures forall j :: 0 <= j < i ==> s[j] != c
  {
    Find(s, c)
  }

  /** The first occurrence is the only index holding `c` with no `c` before it. */
  lemma FindUnique(s: string, c: char, i: nat)
    requires i < |s| && s[i] == c
    requires forall j :: 0 <= j < i ==> s[j] != c
    ensures Find(s, c) == i
  {
  }

  /** `sep.join(parts)` */
  function Join(parts: seq<string>, sep: string): string {
    if parts == [] then ""
    else if |parts| == 1 then parts[0]
    else parts[0] + sep + Join(parts[1..], sep)
  }

  /** `s.split(sep)` for a one-character separator: the pieces between the separators. */
  function Split(s: string, sep: char): (parts: seq<string>)
    ensures |parts| >= 1
    decreases |s|
  {
    var i := Find(s, sep);
    if i < |s| then
      var rest := Split(s[i + 1..], sep);
      assert ([s[..i]] + rest)[1..] == rest;
      [s[..i]] + rest
    else
      [s]
  }

  /** Splitting at the first separator, at index `i`. */
  lemma SplitAt(s: string, sep: char, i: nat)
    requires i < |s| && i == Find(s, sep)
    ensures Split(s, sep) == [s[..i]] + Split(s[i + 1..], sep)
  {
  }

  /** No piece of `s.split(sep)` contains the separator. */
  lemma {:induction false} SplitPiecesFree(s: string, sep: char)
    ensures forall p :: p in Split(s, sep) ==> sep !in p
    decreases |s|
  {
    var i := Find(s, sep);
    if i < |s| {
      SplitPiecesFree(s[i + 1..], sep);
      SplitAt(s, sep, i);
      assert sep !in s[..i];
    }
  }

  /** The pieces of `s.split(sep)` join back to `s`. */
  lemma {:induction false} SplitJoin(s: string, sep: char)
    ensures Join(Split(s, sep), [sep]) == s
    decreases |s|
  {
    var i := Find(s, sep);
    if i < |s| {
      var rest := Split(s[i + 1..], sep);
      SplitJoin(s[i + 1..], sep);
      SplitAt(s, sep, i);
      assert ([s[..i]] + rest)[1..] == rest;
      assert Join([s[..i]] + rest, [sep]) == s[..i] + [sep] + s[i + 1..];
      assert s == s[..i] + [sep] + s[i + 1..] by {
        assert s[..i] + [sep] == s[..i + 1];
        assert s == s[..i + 1] + s[i + 1..];
      }
    }
  }

  /** A piece without the separator, then the separator: the piece comes first. */
  lemma SplitCons(p: string, sep: char, rest: string)
    requires sep !in p
    ensures Split(p + [sep] + rest, sep) == [p] + Split(rest, sep)
  {
    var s := p + [sep] + rest;
    FindUnique(s, sep, |p|);
    assert s[..|p|] == p;
    assert s[|p| + 1..] == rest;
    SplitAt(s, sep, |p|);
  }

  /** Splitting pieces joined by a separator none of them holds gives the pieces back. */
  lemma {:induction false} JoinSplit(parts: seq<string>, sep: char)
    requires |parts| >= 1
    requires forall i :: 0 <= i < |parts| ==> sep !in parts[i]
    ensures Split(Join(parts, [sep]), sep) == parts
  {
    if |parts| == 1 {
      assert Find(parts[0], sep) == |parts[0]|;
    } else {
      JoinSplit(parts[1..], sep);
      SplitCons(parts[0], sep, Join(parts[1..], [sep]));
      assert parts == [parts[0]] + parts[1..];
    }
  }

  /** `s` neither starts nor ends with whitespace. */
  predicate Trimmed(s: string) {
    s == [] || (!IsSpace(s[0]) && !IsSpace(s[|s| - 1]))
  }

  /** `strip()` leaves a trimmed string as it is. */
  lemma StripTrimmed(s: string)
    requires Trimmed(s)
    ensures Strip(s) == s
  {
    if s != [] {
      assert s[0..0 + |s|] == s;
      StripUnique(s, 0, s);
    }
  }

  /** Whitespace around a trimmed string is what `strip()` removes. */
  lemma StripPadded(pre: string, x: string, post: string)
    requires AllSpace(pre) && AllSpace(post) && Trimmed(x)
    ensures Strip(pre + x + post) == x
  {
    var s := pre + x + post;
    if x == [] {
      StripEmpty(s);
      assert AllSpace(s) by {
        forall i | 0 <= i < |s| ensures IsSpace(s[i]) {
          if i < |pre| { assert s[i] == pre[i]; } else { assert s[i] == post[i - |pre|]; }
        }
      }
    } else {
      assert s[|pre|..|pre| + |x|] == x;
      assert IsStripOf(s, |pre|, x);
      StripUnique(s, |pre|, x);
    }
  }

  /** What `strip()` returns is trimmed, and holds only characters of its input. */
  lemma StripResult(s: string)
    ensures Trimmed(Strip(s))
    ensures forall c :: c in Strip(s) ==> c in s
  {
    StripRemovesSpace(s);
    var a := LeadingSpace(s);
    var r := Strip(s);
    forall c | c in r
      ensures c in s
    {
      var k :| 0 <= k < |r| && r[k] == c;
      assert s[a + k] == r[k];
    }
  }

  lemma AllSpaceConcat(a: string, b: string)
    requires AllSpace(a) && AllSpace(b)
    ensures AllSpace(a + b)
  {
    forall j | 0 <= j < |a + b|
      ensures IsSpace((a + b)[j])
    {
      if j >= |a| {
        assert (a + b)[j] == b[j - |a|];
      }
    }
  }

  /** The whitespace `strip()` removes from the front and from the back of `x`. */
  lemma StripMargins(x: string) returns (front: string, back: string)
    ensures AllSpace(front) && AllSpace(back)
    ensures x == front + Strip(x) + back
  {
    var r := Strip(x);
    StripRemovesSpace(x);
    var a := LeadingSpace(x);
    front := x[..a];
    back := x[a + |r|..];
    forall j | 0 <= j < |front|
      ensures IsSpace(front[j])
    {
      assert front[j] == x[j];
    }
    forall j | 0 <= j < |back|
      ensures IsSpace(back[j])
    {
      assert back[j] == x[a + |r| + j];
    }
    assert x == x[..a] + x[a..a + |r|] + x[a + |r|..];
  }

  /** Whitespace around a text changes nothing in what `strip()` returns. */
  lemma StripSpaceAround(p: string, x: string, q: string)
    requires AllSpace(p) && AllSpace(q)
    ensures Strip(p + x + q) == Strip(x)
  {
    var r := Strip(x);
    StripResult(x);
    var front, back := StripMargins(x);
    AllSpaceConcat(p, front);
    AllSpaceConcat(back, q);
    assert p + x + q == (p + front) + r + (back + q);
    StripPadded(p + front, r, back + q);
  }

  /** Where the first `c` of a text lands once the text is stripped, for a `c` that is not whitespace. */
  lemma StripSplitIndex(a: string, c: char, b: string)
    requires !IsSpace(c) && c !in a
    ensures var s := a + [c] + b;
            && LeadingSpace(s) <= |a| < LeadingSpace(s) + |Strip(s)|
            && c in Strip(s) && IndexOf(Strip(s), c) == |a| - LeadingSpace(s)
  {
    var s := a + [c] + b;
    var t := Strip(s);
    StripRemovesSpace(s);
    var lead := LeadingSpace(s);
    assert s[|a|] == c;
    assert lead <= |a| < lead + |t|;
    var i := |a| - lead;
    assert t[i] == s[|a|];
    forall j | 0 <= j < i
      ensures t[j] != c
    {
      assert t[j] == s[lead + j] == a[lead + j];
    }
    FindUnique(t, c, i);
  }

  /** The part before the first `c` of the stripped text strips to what `a` strips to. */
  lemma StripSplitLeft(a: string, c: char, b: string)
    requires !IsSpace(c) && c !in a
    ensures var t := Strip(a + [c] + b);
            c in t && Strip(t[..IndexOf(t, c)]) == Strip(a)
  {
    var s := a + [c] + b;
    var t := Strip(s);
    var lead := LeadingSpace(s);
    assert c in t && IndexOf(t, c) == |a| - lead && lead <= |a| < lead + |t| by {
      StripSplitIndex(a, c, b);
    }
    assert IsStripOf(s, lead, t) by {
      StripRemovesSpace(s);
    }
    var head := LeftOfSplit(s, a, c, b, lead, t);
    StripSpaceBefore(head, t[..|a| - lead], a);
  }

  /** The part after the first `c` of the stripped text strips to what `b` strips to. */
  lemma StripSplitRight(a: string, c: char, b: string)
    requires !IsSpace(c) && c !in a
    ensures var t := Strip(a + [c] + b);
            c in t && Strip(t[IndexOf(t, c) + 1..]) == Strip(b)
  {
    var s := a + [c] + b;
    var t := Strip(s);
    var lead := LeadingSpace(s);
    assert c in t && IndexOf(t, c) == |a| - lead && lead <= |a| < lead + |t| by {
      StripSplitIndex(a, c, b);
    }
    assert IsStripOf(s, lead, t) by {
      StripRemovesSpace(s);
    }
    var tail := RightOfSplit(s, a, c, b, lead, t);
    StripSpaceAfter(t[|a| - lead + 1..], tail, b);
  }

  /** Whitespace in front of a text does not change what it strips to. */
  lemma StripSpaceBefore(p: string, x: string, y: string)
    requires AllSpace(p) && y == p + x
    ensures Strip(y) == Strip(x)
  {
    assert y == p + x + [];
    StripSpaceAround(p, x, []);
  }

  /** Whitespace behind a text does not change what it strips to. */
  lemma StripSpaceAfter(x: string, q: string, y: string)
    requires AllSpace(q) && y == x + q
    ensures Strip(y) == Strip(x)
  {
    assert y == [] + x + q;
    StripSpaceAround([], x, q);
  }

  /** A character that is not whitespace and not in `x` is not in `x` padded with whitespace. */
  lemma NotInPadded(pre: string, x: string, post: string, c: char)
    requires AllSpace(pre) && AllSpace(post) && !IsSpace(c) && c !in x
    ensures c !in pre + x + post
  {
    var s := pre + x + post;
    forall j | 0 <= j < |s|
      ensures s[j] != c
    {
      if j < |pre| {
        assert s[j] == pre[j];
      } else if j < |pre| + |x| {
        assert s[j] == x[j - |pre|];
      } else {
        assert s[j] == post[j - |pre| - |x|];
      }
    }
  }

  /**
   * Stripping `n` and `v` padded with whitespace on both sides of a separator `c`,
   * then splitting at the first `c` and stripping both parts, gives `n` and `v` back.
   */
  lemma StripSplitPadded(s0: string, n: string, s1: string, c: char, s2: string, v: string, s3: string)
    requires AllSpace(s0) && AllSpace(s1) && AllSpace(s2) && AllSpace(s3)
    requires Trimmed(n) && Trimmed(v) && !IsSpace(c) && c !in n
    ensures var t := Strip(s0 + n + s1 + [c] + s2 + v + s3);
            c in t && Strip(t[..IndexOf(t, c)]) == n && Strip(t[IndexOf(t, c) + 1..]) == v
  {
    var a := s0 + n + s1;
    var b := s2 + v + s3;
    assert s0 + n + s1 + [c] + s2 + v + s3 == a + [c] + b;
    NotInPadded(s0, n, s1, c);
    StripSplitLeft(a, c, b);
    StripSplitRight(a, c, b);
    StripPadded(s0, n, s1);
    StripPadded(s2, v, s3);
  }

  /** `a` is the whitespace `strip()` drops from the front of `a + [c] + b`, then the stripped text up to `c`. */
  lemma LeftOfSplit(s: string, a: string, c: char, b: string, lead: nat, t: string) returns (head: string)
    requires s == a + [c] + b && IsStripOf(s, lead, t) && lead <= |a| < lead + |t|
    ensures AllSpace(head) && a == head + t[..|a| - lead]
  {
    head := s[..lead];
    assert s[..|a|] == a;
    assert t[..|a| - lead] == s[lead..|a|];
    forall j | 0 <= j < lead
      ensures IsSpace(head[j])
    {
      assert head[j] == s[j];
    }
    assert s[..|a|] == s[..lead] + s[lead..|a|];
  }

  /** `b` is the stripped text after `c`, then the whitespace `strip()` drops from the back of `a + [c] + b`. */
  lemma RightOfSplit(s: string, a: string, c: char, b: string, lead: nat, t: string) returns (tail: string)
    requires s == a + [c] + b && IsStripOf(s, lead, t) && lead <= |a| < lead + |t|
    ensures AllSpace(tail) && b == t[|a| - lead + 1..] + tail
  {
    var e := lead + |t|;
    tail := s[e..];
    assert s[|a| + 1..] == b;
    assert t[|a| - lead + 1..] == s[|a| + 1..e];
    forall j | 0 <= j < |tail|
      ensures IsSpace(tail[j])
    {
      assert tail[j] == s[e + j];
    }
    assert s[|a| + 1..] == s[|a| + 1..e] + s[e..];
  }

  /** The length of the longest whitespace-free prefix of `s`. */
  function WordEnd(s: string): (n: nat)
    ensures n <= |s| && (n < |s| ==> IsSpace(s[n]))
    ensures forall i :: 0 <= i < n ==> !IsSpace(s[i])
  {
    if s == [] || IsSpace(s[0]) then 0
    else
      var n := WordEnd(s[1..]);
      assert forall i :: 1 <= i < n + 1 ==> s[i] == s[1..][i - 1];
      1 + n
  }

  /** A non-empty run of non-whitespace characters. */
  predicate IsWord(w: string) {
    w != [] && forall j :: 0 <= j < |w| ==> !IsSpace(w[j])
  }

  /** `s.split()`: the maximal runs of non-whitespace characters, in order. */
  function Words(s: string): (ws: seq<string>)
    ensures forall i :: 0 <= i < |ws| ==> IsWord(ws[i])
    decreases |s|
  {
    var t := TrimStart(s);
    if t == [] then []
    else
      var n := WordEnd(t);
      FirstWord(t);
      var rest := Words(t[n..]);
      AllWordsCons(t[..n], rest);
      [t[..n]] + rest
  }

  lemma FirstWord(t: string)
    requires t != [] && !IsSpace(t[0])
    ensures WordEnd(t) > 0 && IsWord(t[..WordEnd(t)])
  {
  }

  lemma AllWordsCons(w: string, ws: seq<string>)
    requires IsWord(w) && forall i :: 0 <= i < |ws| ==> IsWord(ws[i])
    ensures forall i :: 0 <= i < |ws| + 1 ==> IsWord(([w] + ws)[i])
  {
  }

  /** A text has no words exactly when it is all whitespace. */
  lemma WordsEmpty(s: string)
    ensures Words(s) == [] <==> AllSpace(s)
  {
    var n := LeadingSpace(s);
    if AllSpace(s) {
      assert n == |s|;
    }
  }

  /** Whitespace, then a word, then the end or whitespace: the word comes first, then the words of the rest. */
  lemma WordsCons(pre: string, w: string, rest: string)
    requires AllSpace(pre) && IsWord(w) && (rest == [] || IsSpace(rest[0]))
    ensures Words(pre + w + rest) == [w] + Words(rest)
  {
    var t := w + rest;
    assert pre + w + rest == pre + t;
    TrimStartPadded(pre, t);
    WordEndWord(w, rest);
    assert t[..|w|] == w && t[|w|..] == rest;
  }

  /** `lstrip()` removes exactly the whitespace in front of a text that does not start with whitespace. */
  lemma TrimStartPadded(pre: string, t: string)
    requires AllSpace(pre) && (t == [] || !IsSpace(t[0]))
    ensures TrimStart(pre + t) == t
  {
    var s := pre + t;
    forall j | 0 <= j < |pre|
      ensures IsSpace(s[j])
    {
      assert s[j] == pre[j];
    }
    if t == [] {
      assert s == pre;
      assert LeadingSpace(s) == |s|;
    } else {
      assert s[|pre|] == t[0];
      LeadingSpaceAt(s, |pre|);
    }
    assert s[|pre|..] == t;
  }

  /** A word followed by whitespace or nothing ends where the word does. */
  lemma WordEndWord(w: string, rest: string)
    requires IsWord(w) && (rest == [] || IsSpace(rest[0]))
    ensures WordEnd(w + rest) == |w|
  {
    var t := w + rest;
    forall j | 0 <= j < |w|
      ensures !IsSpace(t[j])
    {
      assert t[j] == w[j];
    }
    WordEndAt(t, |w|);
  }

  lemma WordEndAt(t: string, m: nat)
    requires m <= |t| && (forall j :: 0 <= j < m ==> !IsSpace(t[j])) && (m == |t| || IsSpace(t[m]))
    ensures WordEnd(t) == m
  {
  }

  predicate StartsWith(s: string, p: string) {
    |p| <= |s| && s[..|p|] == p
  }

  /** A text that starts with `p + q` starts with `p`. */
  lemma StartsWithFront(s: string, p: string, q: string)
    requires StartsWith(s, p + q)
    ensures StartsWith(s, p)
  {
    assert s[..|p|] == s[..|p + q|][..|p|] == (p + q)[..|p|] == p;
  }

  /** `p` occurs in `s` starting at index `i`. */
  predicate OccursAt(s: string, p: string, i: nat) {
    i + |p| <= |s| && s[i..i + |p|] == p
  }

  /** Python's `p in s` for strings. */
  predicate Contains(s: string, p: string) {
    exists i :: 0 <= i <= |s| && OccursAt(s, p, i)
  }

  /** A string contains each of its middle parts. */
  lemma ContainsMiddle(a: string, p: string, b: string)
    ensures Contains(a + p + b, p)
  {
    var s := a + p + b;
    assert s[|a|..|a| + |p|] == p;
    assert OccursAt(s, p, |a|);
  }

  /**
   * Python's `str.lower()` on one character, as far as the program's
   * comparisons can observe: every comparison is against a lower-case ASCII
   * literal, and the only characters Python lowers into ASCII letters are
   * 'A'..'Z' and KELVIN SIGN (U+212A, lowered to 'k').
   */
  function LowerChar(c: char): char {
    if 'A' <= c <= 'Z' then (c as int + 32) as char
    else if c == '\U{212A}' then 'k'
    else c
  }

  function Lower(s: string): (r: string)
    ensures |r| == |s|
  {
    seq(|s|, i requires 0 <= i < |s| => LowerChar(s[i]))
  }

  /** `s.replace(a, b)` for single characters. */
  function ReplaceChar(s: string, a: char, b: char): (r: string)
    ensures |r| == |s|
  {
    seq(|s|, i requires 0 <= i < |s| => if s[i] == a then b else s[i])
  }

  /**
   * `s.replace(pat, rep)` for a non-empty `pat`: scanning from the left,
   * every occurrence of `pat` that does not overlap an earlier replaced one
   * becomes `rep`.
   */
  function Replace(s: string, pat: string, rep: string): string
    requires pat != []
    decreases |s|
  {
    if |s| < |pat| then s
    else if s[..|pat|] == pat then rep + Replace(s[|pat|..], pat, rep)
    else [s[0]] + Replace(s[1..], pat, rep)
  }

  /** `pat` starts nowhere in `s` before index `n`. */
  predicate NoMatchBefore(s: string, pat: string, n: nat) {
    forall p :: 0 <= p < n && p <= |s| ==> !StartsWith(s[p..], pat)
  }

  /** One differing character is enough for `s` not to start with `pat`. */
  lemma Mismatch(s: string, pat: string, j: nat)
    requires j < |pat| && (j < |s| ==> s[j] != pat[j])
    ensures !StartsWith(s, pat)
  {
    if |pat| <= |s| {
      assert s[..|pat|][j] == s[j];
    }
  }

  /** Putting the first character back in front of the rest. */
  lemma ConsTail(pre: string, x: string)
    requires pre != []
    ensures [pre[0]] + (pre[1..] + x) == pre + x
  {
    assert pre == [pre[0]] + pre[1..];
  }

  /** Dropping the first character of a prefix free of `pat` leaves a prefix free of `pat`. */
  lemma NoMatchBeforeTail(pre: string, rest: string, pat: string)
    requires pre != [] && NoMatchBefore(pre + rest, pat, |pre|)
    ensures !StartsWith(pre + rest, pat)
    ensures (pre + rest)[1..] == pre[1..] + rest
    ensures NoMatchBefore(pre[1..] + rest, pat, |pre| - 1)
  {
    var s := pre + rest;
    assert s[0..] == s;
    assert s[1..] == pre[1..] + rest;
    forall p | 0 <= p < |pre| - 1 && p <= |s[1..]|
      ensures !StartsWith(s[1..][p..], pat)
    {
      assert s[1..][p..] == s[p + 1..];
    }
  }

  /** Text before the first occurrence of `pat` is copied as it is. */
  lemma {:induction false} ReplaceSkip(pre: string, rest: string, pat: string, rep: string)
    requires pat != [] && NoMatchBefore(pre + rest, pat, |pre|)
    ensures Replace(pre + rest, pat, rep) == pre + Replace(rest, pat, rep)
    decreases |pre|
  {
    if pre == [] {
      assert pre + rest == rest;
    } else {
      var s := pre + rest;
      NoMatchBeforeTail(pre, rest, pat);
      if |s| < |pat| {
        assert Replace(rest, pat, rep) == rest;
      } else {
        ReplaceSkip(pre[1..], rest, pat, rep);
        assert Replace(s, pat, rep) == [s[0]] + Replace(s[1..], pat, rep);
        ConsTail(pre, Replace(rest, pat, rep));
      }
    }
  }

  /** An occurrence at the front is replaced. */
  lemma ReplaceHere(rest: string, pat: string, rep: string)
    requires pat != []
    ensures Replace(pat + rest, pat, rep) == rep + Replace(rest, pat, rep)
  {
    var s := pat + rest;
    assert s[..|pat|] == pat;
    assert s[|pat|..] == rest;
  }

  // ---------------------------------------------------------------------
  // Decimal formatting: `str(n)` and the `{n:03d}` field of an f-string.

  predicate IsDigit(c: char) {
    '0' <= c <= '9'
  }

  predicate AllDigits(s: string) {
    forall i :: 0 <= i < |s| ==> IsDigit(s[i])
  }

  function DigitChar(d: nat): (c: char)
    requires d < 10
    ensures IsDigit(c) && c as int - '0' as int == d
  {
    ('0' as int + d) as char
  }

  /** The number a string of decimal digits denotes (leading zeros allowed). */
  function DecimalValue(s: string): nat
    requires AllDigits(s)
  {
    if s == [] then 0
    else 10 * DecimalValue(s[..|s| - 1]) + (s[|s| - 1] as int - '0' as int)
  }

  /** `str(n)` for a natural number. */
  function Decimal(n: nat): (r: string)
    ensures r != [] && AllDigits(r)
    ensures DecimalValue(r) == n
    ensures |r| == 1 <==> n < 10
    ensures r[0] == '0' <==> n == 0
  {
    if n < 10 then [DigitChar(n)]
    else
      var r := Decimal(n / 10) + [DigitChar(n % 10)];
      assert r[..|r| - 1] == Decimal(n / 10);
      r
  }

  function Zeros(k: nat): (z: string)
    ensures |z| == k && AllDigits(z)
  {
    seq(k, _ => '0')
  }

  /** `f"{n:03d}"`: `str(n)` padded on the left with '0' to at least three characters. */
  function ZeroPad3(n: nat): (r: string)
  {
    var d := Decimal(n);
    if |d| < 3 then Zeros(3 - |d|) + d else d
  }

  /** Leading zeros do not change the value of a digit string. */
  lemma {:induction false} LeadingZerosValue(k: nat, s: string)
    requires AllDigits(s)
    ensures AllDigits(Zeros(k) + s)
    ensures DecimalValue(Zeros(k) + s) == DecimalValue(s)
  {
    var t := Zeros(k) + s;
    if s == [] {
      assert t == Zeros(k);
      ZerosValue(k);
    } else {
      assert t[..|t| - 1] == Zeros(k) + s[..|s| - 1];
      LeadingZerosValue(k, s[..|s| - 1]);
    }
  }

  lemma {:induction false} ZerosValue(k: nat)
    ensures DecimalValue(Zeros(k)) == 0
  {
    if k > 0 {
      assert Zeros(k)[..k - 1] == Zeros(k - 1);
      ZerosValue(k - 1);
    }
  }

  /** `str(n)` has at most three digits exactly below 1000, and at least three exactly from 100 on. */
  lemma DecimalWidth(n: nat)
    ensures |Decimal(n)| <= 3 <==> n < 1000
    ensures |Decimal(n)| >= 3 <==> n >= 100
  {
    if n >= 10 {
      var m := n / 10;
      DecimalStep(n);
      if m >= 10 {
        var k := m / 10;
        DecimalStep(m);
        if k >= 10 {
          DecimalStep(k);
        }
      }
    }
  }

  lemma DecimalStep(n: nat)
    requires n >= 10
    ensures |Decimal(n)| == |Decimal(n / 10)| + 1
  {
  }

  /**
   * The label reads back as the number it was made from: exactly three
   * digits below 1000, and `str(n)` itself from 100 on.
   */
  lemma ZeroPad3RoundTrip(n: nat)
    ensures |ZeroPad3(n)| >= 3 && AllDigits(ZeroPad3(n))
    ensures DecimalValue(ZeroPad3(n)) == n
    ensures n < 1000 ==> |ZeroPad3(n)| == 3
    ensures n >= 100 ==> ZeroPad3(n) == Decimal(n)
  {
    var d := Decimal(n);
    DecimalWidth(n);
    if |d| < 3 {
      LeadingZerosValue(3 - |d|, d);
    }
  }

  /** Distinct numbers get distinct labels. */
  lemma ZeroPad3Injective(m: nat, n: nat)
    requires m != n
    ensures ZeroPad3(m) != ZeroPad3(n)
  {
    ZeroPad3RoundTrip(m);
    ZeroPad3RoundTrip(n);
  }
}
