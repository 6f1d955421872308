/**
 * examples/cart_race_condition.py: how one request of the burst becomes a
 * result record, and how the summary filters the records and counts their
 * status codes. Sending the requests (aiohttp, asyncio) and reading the clock
 * are not modelled: how each request ended, and the elapsed time of a
 * completed one, are inputs.
 */
module CartAttack {
  import opened Text
  import opened Dicts

  const Url: string := "https://" + LabPlaceholder + ".web-security-academy.net/cart"
  const Cookies: Dict<string, string> := [("session", SessionPlaceholder)]
  const RequestCount: nat := 100
  const TimeoutSeconds: nat := 15

  /** How one POST ended: a response, the client timeout, or another exception with its message. */
  datatype Outcome =
    | Completed(status: int, text: string, elapsedMs: real)
    | TimedOut
    | Failed(message: string)

  /** The dict `perform_cart_attack` returns; `error` is present only for a request that did not complete. */
  datatype ResultRecord = ResultRecord(
    requestId: nat,
    statusCode: int,
    responseTime: real,
    contentLength: nat,
    likelySuccess: bool,
    error: Option<string>)

  /** The three success indicators of a response, any of which makes it a likely success. */
  predicate LikelySuccess(status: int, text: string) {
    Contains(Lower(text), "added to cart") || status == 200 || Contains(Lower(text), "quantity")
  }

  /** `perform_cart_attack(session, id)`: the record of request `id`; no `Exception` escapes it. */
  function RecordOf(id: nat, outcome: Outcome): (r: ResultRecord)
    ensures r.requestId == id
    ensures r.likelySuccess <==> outcome.Completed? && LikelySuccess(outcome.status, outcome.text)
    ensures outcome.Completed? ==>
      r.statusCode == outcome.status && r.contentLength == |outcome.text| &&
      r.responseTime == outcome.elapsedMs && r.error == None
    ensures !outcome.Completed? ==> r.statusCode == 0 && r.contentLength == 0 && r.error.Some?
    ensures outcome.TimedOut? ==> r.error == Some("timeout") && r.responseTime == (TimeoutSeconds * 1000) as real
    ensures outcome.Failed? ==> r.error == Some(outcome.message) && r.responseTime == 0.0
  {
    match outcome
    case Completed(status, text, elapsed) =>
      ResultRecord(id, status, elapsed, |text|, LikelySuccess(status, text), None)
    case TimedOut =>
      ResultRecord(id, 0, (TimeoutSeconds * 1000) as real, 0, false, Some("timeout"))
    case Failed(message) =>
      ResultRecord(id, 0, 0.0, 0, false, Some(message))
  }

  /** Every response with status 200 counts as a likely success, whatever its body. */
  lemma OkIsLikelySuccess(id: nat, text: string, elapsed: real)
    ensures RecordOf(id, Completed(200, text, elapsed)).likelySuccess
  {
  }

  /** A record is well formed when a failed request shows status 0 and no success, as `perform_cart_attack` makes them. */
  predicate WellFormed(r: ResultRecord) {
    r.error.Some? ==> r.statusCode == 0 && !r.likelySuccess && r.contentLength == 0
  }

  lemma RecordWellFormed(id: nat, outcome: Outcome)
    ensures WellFormed(RecordOf(id, outcome))
    ensures RecordOf(id, outcome).error.Some? <==> !outcome.Completed?
  {
  }

  // ---------------------------------------------------------------------
  // The burst and its summary

  /** `range(REQUEST_COUNT)`: the request ids, one task each. */
  function TaskIds(n: nat): (ids: seq<nat>)
    ensures |ids| == n
    ensures forall i :: 0 <= i < n ==> ids[i] == i
  {
    seq(n, i requires 0 <= i < n => i)
  }

  /**
   * How a task ended inside `asyncio.gather(..., return_exceptions=True)`:
   * `perform_cart_attack` returned for `outcome`, or an exception that is not
   * an `Exception` (such as a cancellation) escaped it.
   */
  datatype TaskEnd = Returned(outcome: Outcome) | Raised

  /** An element of the list `gather` returns: a record, or the exception raised. */
  datatype Gathered = Record(record: ResultRecord) | Exception

  /** The list `gather` returns for the coroutines of `TaskIds(|ends|)`, in their order. */
  function Results(ends: seq<TaskEnd>): (results: seq<Gathered>)
    ensures |results| == |ends|
  {
    seq(|ends|, i requires 0 <= i < |ends| =>
      match ends[i]
      case Returned(outcome) => Record(RecordOf(i, outcome))
      case Raised => Exception)
  }

  /** Result `i` belongs to request `i`, and only a task that raised leaves no record. */
  lemma ResultsInOrder(ends: seq<TaskEnd>, i: nat)
    requires i < |ends|
    ensures Results(ends)[i].Record? <==> ends[i].Returned?
    ensures ends[i].Returned? ==> Results(ends)[i].record == RecordOf(TaskIds(|ends|)[i], ends[i].outcome)
  {
  }

  /** `valid_results`: the records, in order, each as often as it was gathered. */
  function Valid(results: seq<Gathered>): (valid: seq<ResultRecord>)
    ensures |valid| <= |results|
    ensures forall r :: r in valid <==> Record(r) in results
    ensures forall r :: multiset(valid)[r] == multiset(results)[Record(r)]
  {
    if results == [] then []
    else
      var rest := Valid(results[1..]);
      assert results == [results[0]] + results[1..];
      assert forall g :: g in results <==> g == results[0] || g in results[1..];
      match results[0]
      case Record(r) => [r] + rest
      case Exception => rest
  }

  /** Filtering keeps the order: the records of a concatenation are those of each part, in turn. */
  lemma {:induction false} ValidAppend(a: seq<Gathered>, b: seq<Gathered>)
    ensures Valid(a + b) == Valid(a) + Valid(b)
  {
    if a == [] {
      assert a + b == b;
    } else {
      assert (a + b)[0] == a[0] && (a + b)[1..] == a[1..] + b;
      ValidAppend(a[1..], b);
    }
  }

  /** `successful_requests`: the valid records that are likely successes, in order, each as often as it is valid. */
  function Successful(valid: seq<ResultRecord>): (successful: seq<ResultRecord>)
    ensures |successful| <= |valid|
    ensures forall r :: r in successful <==> r in valid && r.likelySuccess
    ensures forall r :: multiset(successful)[r] == if r.likelySuccess then multiset(valid)[r] else 0
  {
    if valid == [] then []
    else
      var rest := Successful(valid[1..]);
      assert valid == [valid[0]] + valid[1..];
      assert forall r :: r in valid <==> r == valid[0] || r in valid[1..];
      if valid[0].likelySuccess then [valid[0]] + rest else rest
  }

  /** The likely successes of a concatenation are those of each part, in turn. */
  lemma {:induction false} SuccessfulAppend(a: seq<ResultRecord>, b: seq<ResultRecord>)
    ensures Successful(a + b) == Successful(a) + Successful(b)
  {
    if a == [] {
      assert a + b == b;
    } else {
      assert (a + b)[0] == a[0] && (a + b)[1..] == a[1..] + b;
      SuccessfulAppend(a[1..], b);
    }
  }

  /** Likely successes are at most the valid responses, which are at most the requests sent. */
  lemma SummaryBounds(ends: seq<TaskEnd>)
    requires |ends| == RequestCount
    ensures |Successful(Valid(Results(ends)))| <= |Valid(Results(ends))| <= RequestCount
  {
  }

  // ---------------------------------------------------------------------
  // The status-code histogram

  /** How many of `valid` have status code `code`. */
  function CountOf(valid: seq<ResultRecord>, code: int): nat {
    if valid == [] then 0
    else CountOf(valid[..|valid| - 1], code) + (if valid[|valid| - 1].statusCode == code then 1 else 0)
  }

  /** `status_codes.get(code, 0)` */
  function CountIn(counts: Dict<int, nat>, code: int): nat {
    match Lookup(counts, code)
    case Some(n) => n
    case None => 0
  }

  /** `status_codes[code] = status_codes.get(code, 0) + 1` */
  function Tally(counts: Dict<int, nat>, code: int): Dict<int, nat> {
    Set<int, nat>(counts, code, CountIn(counts, code) + 1)
  }

  /** The dict the counting loop leaves behind. */
  function Histogram(valid: seq<ResultRecord>): Dict<int, nat> {
    if valid == [] then [] else Tally(Histogram(valid[..|valid| - 1]), valid[|valid| - 1].statusCode)
  }

  /** The sum of the counts. */
  function Total(counts: Dict<int, nat>): nat {
    if counts == [] then 0 else counts[0].1 + Total(counts[1..])
  }

  /** The lines 208-211 loop: one pass over the valid records, counting each code. */
  method StatusHistogram(valid: seq<ResultRecord>) returns (counts: Dict<int, nat>)
    ensures counts == Histogram(valid)
    ensures UniqueKeys(counts)
    ensures forall code :: Lookup(counts, code) == if CountOf(valid, code) == 0 then None else Some(CountOf(valid, code))
    ensures Total(counts) == |valid|
    ensures forall e :: e in counts ==> e.1 > 0
  {
    counts := [];
    var i := 0;
    while i < |valid|
      invariant i <= |valid|
      invariant counts == Histogram(valid[..i])
    {
      assert valid[..i + 1][..i] == valid[..i];
      var code := valid[i].statusCode;
      counts := Set<int, nat>(counts, code, CountIn(counts, code) + 1);
      i := i + 1;
    }
    assert valid[..i] == valid;
    HistogramCounts(valid);
    HistogramTotal(valid);
    HistogramPositive(valid);
  }

  /** Every code's count is the number of valid records with that code, and codes never seen are absent. */
  lemma {:induction false} HistogramCounts(valid: seq<ResultRecord>)
    ensures UniqueKeys(Histogram(valid))
    ensures forall code :: Lookup(Histogram(valid), code) == if CountOf(valid, code) == 0 then None else Some(CountOf(valid, code))
  {
    HistogramUnique(valid);
    forall code
      ensures Lookup(Histogram(valid), code) == if CountOf(valid, code) == 0 then None else Some(CountOf(valid, code))
    {
      HistogramCount(valid, code);
    }
  }

  lemma {:induction false} HistogramUnique(valid: seq<ResultRecord>)
    ensures UniqueKeys(Histogram(valid))
  {
    if valid != [] {
      var n := |valid| - 1;
      var counts := Histogram(valid[..n]);
      HistogramUnique(valid[..n]);
      SetUniqueKeys<int, nat>(counts, valid[n].statusCode, CountIn(counts, valid[n].statusCode) + 1);
    }
  }

  lemma {:induction false} HistogramCount(valid: seq<ResultRecord>, code: int)
    ensures Lookup(Histogram(valid), code) == if CountOf(valid, code) == 0 then None else Some(CountOf(valid, code))
  {
    if valid != [] {
      var n := |valid| - 1;
      var counts := Histogram(valid[..n]);
      assert Histogram(valid) == Tally(counts, valid[n].statusCode);
      HistogramCount(valid[..n], code);
      TallyLookup(counts, valid[n].statusCode);
      if valid[n].statusCode == code {
        assert CountOf(valid, code) == CountOf(valid[..n], code) + 1;
        assert CountIn(counts, code) == CountOf(valid[..n], code);
      } else {
        assert CountOf(valid, code) == CountOf(valid[..n], code);
      }
    }
  }

  /** Counting `c` adds one to its count and leaves every other count alone. */
  lemma TallyLookup(counts: Dict<int, nat>, c: int)
    ensures Lookup(Tally(counts, c), c) == Some(CountIn(counts, c) + 1)
    ensures forall code :: code != c ==> Lookup(Tally(counts, c), code) == Lookup(counts, code)
  {
    SetLookup<int, nat>(counts, c, CountIn(counts, c) + 1);
  }

  /** Assigning to a key changes the total by the difference of the old and the new count. */
  lemma {:induction false} TotalSet(counts: Dict<int, nat>, code: int, n: nat)
    ensures Total(Set(counts, code, n)) + CountIn(counts, code) == Total(counts) + n
  {
    if counts != [] && counts[0].0 != code {
      TotalSet(counts[1..], code, n);
      assert Set(counts, code, n)[1..] == Set(counts[1..], code, n);
    }
  }

  lemma TallyTotal(counts: Dict<int, nat>, c: int)
    ensures Total(Tally(counts, c)) == Total(counts) + 1
  {
    TotalSet(counts, c, CountIn(counts, c) + 1);
  }

  lemma TallyEntries(counts: Dict<int, nat>, c: int)
    ensures forall e :: e in Tally(counts, c) ==> e == (c, CountIn(counts, c) + 1) || e in counts
  {
    SetEntries(counts, c, CountIn(counts, c) + 1);
  }

  /** The counts add up to the number of valid records. */
  lemma {:induction false} HistogramTotal(valid: seq<ResultRecord>)
    ensures Total(Histogram(valid)) == |valid|
  {
    if valid != [] {
      var n := |valid| - 1;
      var counts := Histogram(valid[..n]);
      var code := valid[n].statusCode;
      assert Histogram(valid) == Tally(counts, code);
      HistogramTotal(valid[..n]);
      TallyTotal(counts, code);
    }
  }

  /** An entry of `Set(counts, code, n)` is the new one or an old one. */
  lemma {:induction false} SetEntries(counts: Dict<int, nat>, code: int, n: nat)
    ensures forall e :: e in Set(counts, code, n) ==> e == (code, n) || e in counts
  {
    if counts != [] && counts[0].0 != code {
      SetEntries(counts[1..], code, n);
      assert Set(counts, code, n) == [counts[0]] + Set(counts[1..], code, n);
    }
  }

  /** No code is listed with a count of zero. */
  lemma {:induction false} HistogramPositive(valid: seq<ResultRecord>)
    ensures forall e :: e in Histogram(valid) ==> e.1 > 0
  {
    if valid != [] {
      var n := |valid| - 1;
      var counts := Histogram(valid[..n]);
      var code := valid[n].statusCode;
      assert Histogram(valid) == Tally(counts, code);
      HistogramPositive(valid[..n]);
      TallyEntries(counts, code);
    }
  }

  /** How many records carry an error: the timeouts and the failures. */
  function ErrorCount(valid: seq<ResultRecord>): nat {
    if valid == [] then 0
    else ErrorCount(valid[..|valid| - 1]) + (if valid[|valid| - 1].error.Some? then 1 else 0)
  }

  /** Timeouts and failures are all counted under code 0. */
  lemma {:induction false} ErrorsUnderZero(valid: seq<ResultRecord>)
    requires forall r :: r in valid ==> WellFormed(r)
    ensures ErrorCount(valid) <= CountOf(valid, 0)
  {
    if valid != [] {
      var n := |valid| - 1;
      assert forall r :: r in valid[..n] ==> r in valid;
      assert valid[n] in valid;
      ErrorsUnderZero(valid[..n]);
    }
  }

  /** The records of a burst are well formed, so its timeouts and failures are counted under code 0. */
  lemma BurstErrorsUnderZero(ends: seq<TaskEnd>)
    ensures ErrorCount(Valid(Results(ends))) <= CountOf(Valid(Results(ends)), 0)
  {
    var results := Results(ends);
    forall r | r in Valid(results)
      ensures WellFormed(r)
    {
      var i :| 0 <= i < |results| && results[i] == Record(r);
      RecordWellFormed(i, ends[i].outcome);
    }
    ErrorsUnderZero(Valid(results));
  }

  // ---------------------------------------------------------------------
  // `sorted(status_codes.items())`

  /** Insert an entry in front of the first entry whose code is not smaller. */
  function Insert(e: (int, nat), sorted: seq<(int, nat)>): (r: seq<(int, nat)>)
    ensures |r| == |sorted| + 1
    ensures forall x :: x in r <==> x == e || x in sorted
    ensures multiset(r) == multiset(sorted) + multiset{e}
  {
    if sorted == [] || e.0 <= sorted[0].0 then [e] + sorted
    else
      assert sorted == [sorted[0]] + sorted[1..];
      [sorted[0]] + Insert(e, sorted[1..])
  }

  /** The entries ordered by code. Codes are distinct, so this is the order of the tuple comparison. */
  function SortByCode(counts: Dict<int, nat>): (r: seq<(int, nat)>)
    ensures |r| == |counts|
    ensures forall x :: x in r <==> x in counts
    ensures multiset(r) == multiset(counts)
  {
    if counts == [] then []
    else
      assert counts == [counts[0]] + counts[1..];
      Insert(counts[0], SortByCode(counts[1..]))
  }

  predicate Ascending(entries: seq<(int, nat)>) {
    forall i, j :: 0 <= i < j < |entries| ==> entries[i].0 < entries[j].0
  }

  lemma {:induction false} InsertAscending(e: (int, nat), sorted: seq<(int, nat)>)
    requires Ascending(sorted)
    requires forall x :: x in sorted ==> x.0 != e.0
    ensures Ascending(Insert(e, sorted))
  {
    if sorted != [] && e.0 > sorted[0].0 {
      var rest := Insert(e, sorted[1..]);
      assert forall x :: x in sorted[1..] ==> x in sorted;
      InsertAscending(e, sorted[1..]);
      assert forall i :: 0 < i < |sorted| ==> sorted[0].0 < sorted[i].0;
      assert forall x :: x in rest ==> sorted[0].0 < x.0;
      AscendingCons(sorted[0], rest);
    }
  }

  /** An entry below every entry of an ascending list can go in front of it. */
  lemma AscendingCons(h: (int, nat), rest: seq<(int, nat)>)
    requires Ascending(rest)
    requires forall x :: x in rest ==> h.0 < x.0
    ensures Ascending([h] + rest)
  {
    var r := [h] + rest;
    forall i, j | 0 <= i < j < |r|
      ensures r[i].0 < r[j].0
    {
      assert r[j] == rest[j - 1];
      if i > 0 {
        assert r[i] == rest[i - 1];
      } else {
        assert rest[j - 1] in rest;
      }
    }
  }

  /** The distribution is reported with the codes in strictly ascending order, each with its count. */
  lemma {:induction false} ReportAscending(counts: Dict<int, nat>)
    requires UniqueKeys(counts)
    ensures Ascending(SortByCode(counts))
  {
    if counts != [] {
      UniqueKeysRest(counts);
      ReportAscending(counts[1..]);
      InsertAscending(counts[0], SortByCode(counts[1..]));
    }
  }

  /** Past the first entry the keys are still distinct, and none is the first key. */
  lemma UniqueKeysRest(counts: Dict<int, nat>)
    requires UniqueKeys(counts) && counts != []
    ensures UniqueKeys(counts[1..])
    ensures forall x :: x in SortByCode(counts[1..]) ==> x.0 != counts[0].0
  {
    var rest := counts[1..];
    KeysCons(counts);
    assert Keys(rest) == Keys(counts)[1..];
    forall x | x in SortByCode(rest)
      ensures x.0 != counts[0].0
    {
      var i :| 0 <= i < |rest| && rest[i] == x;
      assert Keys(counts)[i + 1] == x.0;
    }
  }


  /** The report of a burst: each code with its count, ascending, counts summing to the valid responses. */
  lemma Report(ends: seq<TaskEnd>)
    ensures var valid := Valid(Results(ends));
            var report := SortByCode(Histogram(valid));
            && Ascending(report)
            && (forall e :: e in report ==> e.1 == CountOf(valid, e.0) && e.1 > 0)
            && (forall code :: CountOf(valid, code) > 0 ==> (code, CountOf(valid, code)) in report)
  {
    var valid := Valid(Results(ends));
    var counts := Histogram(valid);
    HistogramCounts(valid);
    HistogramPositive(valid);
    ReportAscending(counts);
    forall e | e in counts
      ensures e.1 == CountOf(valid, e.0)
    {
      var i :| 0 <= i < |counts| && counts[i] == e;
      LookupAt(counts, i);
    }
    forall code | CountOf(valid, code) > 0
      ensures (code, CountOf(valid, code)) in counts
    {
      LookupIn(counts, code);
    }
  }

  /** A key that looks up a value has an entry with that value. */
  lemma {:induction false} LookupIn(d: Dict<int, nat>, k: int)
    requires Lookup(d, k).Some?
    ensures (k, Lookup(d, k).value) in d
  {
    if d[0].0 != k {
      KeysCons(d);
      LookupIn(d[1..], k);
    }
  }

  // ---------------------------------------------------------------------
  // `validate_example_config`

  const LabPlaceholder: string := "YOUR-LAB-ID"
  const SessionPlaceholder: string := "YOUR-SESSION-TOKEN"

  /** Some cookie value has `pattern` in it. */
  predicate InSomeValue(cookies: Dict<string, string>, pattern: string) {
    exists i :: 0 <= i < |cookies| && Contains(cookies[i].1, pattern)
  }

  /** `validate_example_config()` for the configuration `url`, `cookies`: false while a placeholder is left. */
  function ValidateExampleConfig(url: string, cookies: Dict<string, string>): bool {
    !(Contains(url, LabPlaceholder) || InSomeValue(cookies, SessionPlaceholder) || url == Url)
  }

  /** The shipped URL has the lab placeholder in it. */
  lemma DefaultUrlHasPlaceholder()
    ensures Contains(Url, LabPlaceholder)
  {
    ContainsMiddle("https://", LabPlaceholder, ".web-security-academy.net/cart");
  }

  /** The check is failed exactly by a URL with the lab placeholder or a cookie value with the session one; the exact-URL test adds nothing. */
  lemma ValidateExampleConfigExactly(url: string, cookies: Dict<string, string>)
    ensures !ValidateExampleConfig(url, cookies) <==> Contains(url, LabPlaceholder) || InSomeValue(cookies, SessionPlaceholder)
  {
    if url == Url {
      DefaultUrlHasPlaceholder();
    }
  }

  /** The example as shipped refuses to run. */
  lemma ShippedExampleRefused()
    ensures !ValidateExampleConfig(Url, Cookies)
  {
    DefaultUrlHasPlaceholder();
  }
}
