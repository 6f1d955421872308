/**
 * cart_script.py: the configuration check that guards a run, what one request
 * of the burst returns and logs, and the list of tasks `main` starts. The
 * requests themselves (aiohttp, asyncio) are not modelled: how each ended is
 * an input.
 */
module CartScript {
  import opened Text
  import opened Dicts

  const LabId: string := "0a820027030cd29f8705e3c600150019"
  const Url: string := "https://" + LabId + ".web-security-academy.net/cart"
  const Cookies: Dict<string, string> := [("session", "re4BQfkvR9vFZIzemtceiZZrIQ0zeOc3")]
  /** `n` in `main`: the number of requests of the burst. */
  const RequestCount: nat := 330

  /** The lab id and the session token the check treats as left-over defaults. */
  const DefaultLabId: string := "0a390020035ec1b5821438f800a10031"
  const DefaultSession: string := "6RhAsnvNaKZ6UinARqIdbxeNxVCUMoOg"

  // ---------------------------------------------------------------------
  // `validate_configuration`

  /** `validate_configuration()` for the configuration `url`, `cookies`. */
  function ValidateConfiguration(url: string, cookies: Dict<string, string>): bool {
    if Contains(url, DefaultLabId) then false
    else if Lookup(cookies, "session") == Some(DefaultSession) then false
    else true
  }

  /** The check passes exactly when the URL is free of the default lab id and the session cookie, if any, is not the default one. */
  lemma ValidateConfigurationExactly(url: string, cookies: Dict<string, string>)
    ensures ValidateConfiguration(url, cookies) <==>
      !Contains(url, DefaultLabId) && forall i :: 0 <= i < |cookies| && cookies[i].0 == "session" && (forall j :: 0 <= j < i ==> cookies[j].0 != "session") ==> cookies[i].1 != DefaultSession
  {
    if !Contains(url, DefaultLabId) {
      forall i | 0 <= i < |cookies| && cookies[i].0 == "session" && (forall j :: 0 <= j < i ==> cookies[j].0 != "session")
        ensures Lookup(cookies, "session") == Some(cookies[i].1)
      {
        LookupFirst(cookies, "session", i);
      }
      if Lookup(cookies, "session").Some? {
        var i := LookupIndex(cookies, "session");
      }
    }
  }

  /** A lookup that finds a value finds it at the first entry with the key. */
  lemma {:induction false} LookupIndex(d: Dict<string, string>, k: string) returns (i: nat)
    requires Lookup(d, k).Some?
    ensures i < |d| && d[i].0 == k && d[i].1 == Lookup(d, k).value
    ensures forall j :: 0 <= j < i ==> d[j].0 != k
  {
    if d[0].0 == k {
      i := 0;
    } else {
      KeysCons(d);
      var j := LookupIndex(d[1..], k);
      i := j + 1;
    }
  }

  /** A configuration without a session cookie is refused only for its URL. */
  lemma NoSessionChecksUrlOnly(url: string, cookies: Dict<string, string>)
    requires "session" !in Keys(cookies)
    ensures ValidateConfiguration(url, cookies) == !Contains(url, DefaultLabId)
  {
  }

  /** The values the script ships with pass the check. */
  lemma ShippedConfigurationAccepted()
    ensures ValidateConfiguration(Url, Cookies)
  {
    forall i | 0 <= i <= |Url|
      ensures !OccursAt(Url, DefaultLabId, i)
    {
      if i + |DefaultLabId| <= |Url| {
        var window := Url[i..i + |DefaultLabId|];
        if i < 8 {
          assert Url[7] == '/' && window[7 - i] == Url[7];
          assert DefaultLabId[7 - i] != '/' by { NoSlashInDefault(7 - i); }
        } else if i > 8 {
          assert Url[40] == '.' && window[40 - i] == Url[40];
          assert DefaultLabId[40 - i] != '.' by { NoSlashInDefault(40 - i); }
        } else {
          assert window == LabId;
          assert LabId[2] != DefaultLabId[2];
        }
      }
    }
    assert Lookup(Cookies, "session") == Some(Cookies[0].1);
    assert Cookies[0].1[0] != DefaultSession[0];
  }

  /** The default lab id is hexadecimal: no '/' and no '.' in it. */
  lemma NoSlashInDefault(k: nat)
    requires k < |DefaultLabId|
    ensures DefaultLabId[k] != '/' && DefaultLabId[k] != '.'
  {
    assert forall j :: 0 <= j < |DefaultLabId| ==> '0' <= DefaultLabId[j] <= 'f';
  }

  // ---------------------------------------------------------------------
  // `send_one` and the coroutines `main` gathers

  /** Why `send_one` gave up: the client timeout, or another exception with its message. */
  datatype Failure = Timeout | Error(message: string)

  /**
   * How one POST ended: a response whose text was read, a response whose text
   * could not be read, or no response at all.
   */
  datatype Outcome =
    | Answered(status: nat, text: string)
    | BodyFailed(status: nat, failure: Failure)
    | NoResponse(failure: Failure)

  /** `f"[{i+1:03d}]"`: the label of request `i` in the log. */
  function Label(i: nat): string {
    "[" + ZeroPad3(i + 1) + "]"
  }

  /** The mark of a response: '✓' for status 200, '✗' for any other. */
  function StatusMark(status: nat): char {
    if status == 200 then '✓' else '✗'
  }

  /** The mark of a failure: '⏰' for the timeout, '❌' for any other exception. */
  function FailureMark(f: Failure): char {
    match f
    case Timeout => '⏰'
    case Error(_) => '❌'
  }

  /** The line logged when the response of request `i` arrives: label, mark, status. */
  function StatusLine(i: nat, status: nat): (line: string)
    ensures StartsWith(line, Label(i) + " " + [StatusMark(status)])
  {
    var head := Label(i) + " " + [StatusMark(status)];
    var line := head + " " + Decimal(status);
    assert line[..|head|] == head;
    line
  }

  /** The line logged when request `i` fails: label, mark, and "TIMEOUT" or the error message. */
  function FailureLine(i: nat, f: Failure): (line: string)
    ensures StartsWith(line, Label(i) + " " + [FailureMark(f)])
  {
    var head := Label(i) + " " + [FailureMark(f)];
    var line := head + (match f
      case Timeout => " TIMEOUT"
      case Error(message) => " ERROR: " + message);
    assert line[..|head|] == head;
    line
  }

  /**
   * `send_one(session, i)`: the text it returns and the lines it logs, in
   * order. A response logs its status line before its text is read, so a
   * failure while reading logs a second line. No `Exception` leaves it.
   */
  function SendOne(i: nat, outcome: Outcome): (r: (string, seq<string>))
    ensures r.0 == if outcome.Answered? then outcome.text else ""
    ensures |r.1| == if outcome.BodyFailed? then 2 else 1
    ensures forall k :: 0 <= k < |r.1| ==> StartsWith(r.1[k], Label(i) + " ")
    ensures !outcome.NoResponse? ==> r.1[0] == StatusLine(i, outcome.status)
    ensures !outcome.Answered? ==> r.1[|r.1| - 1] == FailureLine(i, outcome.failure)
  {
    match outcome
    case Answered(status, text) =>
      LineLabel(StatusLine(i, status), i, StatusMark(status));
      (text, [StatusLine(i, status)])
    case BodyFailed(status, failure) =>
      LineLabel(StatusLine(i, status), i, StatusMark(status));
      LineLabel(FailureLine(i, failure), i, FailureMark(failure));
      ("", [StatusLine(i, status), FailureLine(i, failure)])
    case NoResponse(failure) =>
      LineLabel(FailureLine(i, failure), i, FailureMark(failure));
      ("", [FailureLine(i, failure)])
  }

  /** A line that starts with the label, a space and a mark starts with the label and a space, and holds the mark right after them. */
  lemma LineLabel(line: string, i: nat, mark: char)
    requires StartsWith(line, Label(i) + " " + [mark])
    ensures StartsWith(line, Label(i) + " ")
    ensures |line| > |Label(i)| + 1 && line[|Label(i)| + 1] == mark
  {
    StartsWithFront(line, Label(i) + " ", [mark]);
    assert line[|Label(i)| + 1] == line[..|Label(i)| + 2][|Label(i)| + 1];
  }

  /** The first line of request `i` carries '✓' exactly when a response with status 200 arrived. */
  lemma OkMark(i: nat, outcome: Outcome)
    ensures var line := SendOne(i, outcome).1[0];
            |line| > |Label(i)| + 1 && (line[|Label(i)| + 1] == '✓' <==> !outcome.NoResponse? && outcome.status == 200)
  {
    if outcome.NoResponse? {
      LineLabel(FailureLine(i, outcome.failure), i, FailureMark(outcome.failure));
    } else {
      LineLabel(StatusLine(i, outcome.status), i, StatusMark(outcome.status));
    }
  }

  /**
   * The last line of request `i` carries a failure mark exactly when no text
   * was read, '⏰' exactly for a timeout; the request then returns "".
   */
  lemma FailureLogged(i: nat, outcome: Outcome)
    ensures var lines := SendOne(i, outcome).1;
            var line := lines[|lines| - 1];
            |line| > |Label(i)| + 1
            && (line[|Label(i)| + 1] in {'⏰', '❌'} <==> !outcome.Answered?)
            && (line[|Label(i)| + 1] == '⏰' <==> !outcome.Answered? && outcome.failure.Timeout?)
            && (!outcome.Answered? ==> SendOne(i, outcome).0 == "")
  {
    if outcome.Answered? {
      LineLabel(StatusLine(i, outcome.status), i, StatusMark(outcome.status));
    } else {
      LineLabel(FailureLine(i, outcome.failure), i, FailureMark(outcome.failure));
    }
  }

  /** The status line ends with the digits of the status, after the label, the mark and a space. */
  lemma StatusLineDigits(i: nat, status: nat)
    ensures var line := StatusLine(i, status);
            |Label(i)| + 3 <= |line| && AllDigits(line[|Label(i)| + 3..])
            && DecimalValue(line[|Label(i)| + 3..]) == status
  {
    var line := StatusLine(i, status);
    var head := Label(i) + " " + [StatusMark(status)] + " ";
    assert line == head + Decimal(status);
    assert line[|head|..] == Decimal(status);
  }

  /** The label of request `i` holds the digits of `i + 1`: exactly three below 999 requests, and `str(i + 1)` from the hundredth on. */
  lemma LabelNumber(i: nat)
    ensures var tag := Label(i);
            |tag| >= 5 && tag[0] == '[' && tag[|tag| - 1] == ']'
            && AllDigits(tag[1..|tag| - 1]) && DecimalValue(tag[1..|tag| - 1]) == i + 1
            && (i + 1 < 1000 ==> |tag| == 5)
            && (i + 1 >= 100 ==> tag[1..|tag| - 1] == Decimal(i + 1))
  {
    ZeroPad3RoundTrip(i + 1);
    assert Label(i)[1..|Label(i)| - 1] == ZeroPad3(i + 1);
  }

  /** The labels of the burst `main` starts run from "[001]" to "[330]", five characters each. */
  lemma MainLabels()
    ensures forall i :: 0 <= i < RequestCount ==> |Label(i)| == 5
    ensures Label(0) == "[001]" && Label(RequestCount - 1) == "[330]"
  {
    forall i | 0 <= i < RequestCount
      ensures |Label(i)| == 5
    {
      LabelNumber(i);
    }
    assert Decimal(1) == "1";
    assert Zeros(2) == "00";
    assert Decimal(3) == "3" && Decimal(33) == "33" && Decimal(330) == "330";
    DecimalWidth(330);
  }

  /**
   * `gather` over `[send_one(session, i) for i in range(n)]`, with `n` the
   * number of outcomes: what each task returns and logs, in task order.
   */
  function Burst(outcomes: seq<Outcome>): (r: seq<(string, seq<string>)>)
    ensures |r| == |outcomes|
    ensures forall i :: 0 <= i < |outcomes| ==> r[i].0 == if outcomes[i].Answered? then outcomes[i].text else ""
    ensures forall i :: 0 <= i < |outcomes| ==> |r[i].1| == if outcomes[i].BodyFailed? then 2 else 1
    ensures forall i, k :: 0 <= i < |outcomes| && 0 <= k < |r[i].1| ==> StartsWith(r[i].1[k], Label(i) + " ")
  {
    seq(|outcomes|, i requires 0 <= i < |outcomes| => SendOne(i, outcomes[i]))
  }

  /** Different requests of a burst log under different labels, `[001]` for the first. */
  lemma TaskLabelsDistinct(outcomes: seq<Outcome>, a: nat, b: nat)
    requires a < b < |outcomes|
    ensures Label(a) != Label(b)
    ensures forall k :: 0 <= k < |Burst(outcomes)[a].1| ==> StartsWith(Burst(outcomes)[a].1[k], Label(a))
    ensures forall k :: 0 <= k < |Burst(outcomes)[b].1| ==> StartsWith(Burst(outcomes)[b].1[k], Label(b))
  {
    ZeroPad3Injective(a + 1, b + 1);
    LabelNumber(a);
    LabelNumber(b);
    var r := Burst(outcomes);
    forall k | 0 <= k < |r[a].1|
      ensures StartsWith(r[a].1[k], Label(a))
    {
      StartsWithFront(r[a].1[k], Label(a), " ");
    }
    forall k | 0 <= k < |r[b].1|
      ensures StartsWith(r[b].1[k], Label(b))
    {
      StartsWithFront(r[b].1[k], Label(b), " ");
    }
  }
}
