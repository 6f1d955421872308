# burp-suite-race-lab, modelled in Dafny

This is a Dafny model of the sequential logic of a teaching lab for a race condition in a shopping cart. The lab's tools are:

- a parser for captured requests (`parse_burp_request.py`). It turns a raw HTTP/1.1 request transcript into a request template. It then patches the quoted configuration literals of the attack script, forcing the `quantity` form field to `'99'`.
- the attack scripts (`cart_script.py`, `examples/cart_race_condition.py`). The model covers:
  - how one request of the burst becomes a return value or a result record;
  - the list of request coroutines;
  - the summary (valid and successful results, and the status-code histogram in ascending code order);
  - the checks that refuse to run while placeholder values are left in.
- the configuration template (`config_template.py`): the check over `DEFAULT_PATTERNS`, and `get_config`.

The model has one module per concern:

| module | file | what it holds |
|---|---|---|
| `Text` | text.dfy | Python's `strip`, `split`, `join`, `lower`, `replace`, `in` and `f"{n:03d}"` over `string` |
| `Dicts` | dicts.dfy | a Python dict as an insertion-ordered list of entries: `d[k] = v`, `d.get(k)` and `d.update(ps)` |
| `FormData` | form_data.dfy | `urllib.parse.parse_qs` and `parse_post_data` |
| `BurpParser` | burp_parser.dfy | `parse_burp_request` (after the file is read) and `parse_cookies` |
| `ScriptPatcher` | script_patcher.dfy | the text rewriting of `update_cart_script` |
| `Display` | display.dfy | the masking and truncation in `display_config` |
| `CartAttack` | cart_attack.dfy | `examples/cart_race_condition.py` |
| `CartScript` | cart_script.dfy | `cart_script.py` |
| `ConfigTemplate` | config_template.dfy | `config_template.py` |

The code that works step by step is written as methods with loops, each proved equal to a specification function whose properties are proved as lemmas. Those methods are:

- `ParseBurpRequest`, with its header loop that stops at the first blank line;
- `ParseCookies`;
- `ParsePostData`;
- `UpdateCartScript` and its `BuildDataItems` loop;
- the status-code counting loop `StatusHistogram`.

The expression-level code is written as functions.

How a request ended is an abstract outcome, passed in as data:

- a response with its status and text;
- in cart_script.py, a response whose status was logged but whose text could not be read;
- the client timeout;
- another exception with its message.

## Model

| member | source | states |
|---|---|---|
| Text.StripRemovesSpace | parse_burp_request.py:57 | `strip()` returns the slice of its input left after removing exactly the leading and the trailing whitespace, and the result neither starts nor ends with whitespace |
| Text.StripUnique | parse_burp_request.py:66 | a non-empty slice surrounded by whitespace that neither starts nor ends with whitespace is what `strip()` returns |
| Text.StripEmpty | parse_burp_request.py:67 | a line strips to "" exactly when it is all whitespace; this is the blank line that ends the headers |
| Text.StripIdempotent | parse_burp_request.py:90 | stripping twice is stripping once |
| Text.StripPadded | parse_burp_request.py:73-74 | whitespace around a trimmed text is exactly what `strip()` removes |
| Text.Find | parse_burp_request.py:72 | the index found holds the character, and no earlier index does (or it is the length when the character is absent) |
| Text.SplitPiecesFree | parse_burp_request.py:108 | no piece of `s.split(sep)` contains the separator |
| Text.SplitJoin | parse_burp_request.py:43 | the pieces of `s.split(sep)` joined by `sep` give back `s` |
| Text.JoinSplit | parse_burp_request.py:108 | pieces free of the separator, joined by it, split back into the same pieces |
| Text.Words | parse_burp_request.py:58 | every element of `s.split()` is a non-empty run of non-whitespace characters |
| Text.WordsEmpty | parse_burp_request.py:58-59 | `s.split()` is empty exactly when `s` is all whitespace |
| Text.WordsCons | parse_burp_request.py:58 | a word after leading whitespace and before whitespace or the end is the first element of `s.split()`, and the rest are the words after it |
| Text.StripResult | parse_burp_request.py:57 | `strip()` returns a trimmed text made only of characters of its input |
| Text.StripSpaceAround | parse_burp_request.py:73-74 | whitespace added around a text does not change what it strips to |
| Text.StripSplitLeft | parse_burp_request.py:72-73 | after stripping, the part before the first separator strips to what the text before the separator strips to |
| Text.StripSplitRight | parse_burp_request.py:72-74 | after stripping, the part after the first separator strips to what the text after the separator strips to |
| Text.ReplaceSkip | parse_burp_request.py:192 | `str.replace` copies the text before the first occurrence unchanged |
| Text.ReplaceHere | parse_burp_request.py:192 | `str.replace` replaces an occurrence at the front and goes on after it |
| Text.Decimal | cart_script.py:80 | `str(n)` is a non-empty digit string whose value is `n`, in canonical form: one digit exactly below 10, and a leading '0' only for 0 |
| Text.DecimalWidth | cart_script.py:80 | `str(n)` has at most three digits exactly below 1000, and at least three exactly from 100 on |
| Text.ZeroPad3RoundTrip | cart_script.py:80 | `f"{n:03d}"` has at least three digits, exactly three below 1000, that read back as `n`; from 100 on it is `str(n)` |
| Text.ZeroPad3Injective | cart_script.py:80 | different numbers get different labels |
| Dicts.Lookup | parse_burp_request.py:163 | `k in d` fails exactly when `k` is not among the keys |
| Dicts.LookupFirst | cart_script.py:151 | `d.get(k)` finds the value of the first entry with key `k` |
| Dicts.SetLookup | parse_burp_request.py:85 | after `d[k] = v`, `k` has value `v` and every other key keeps its value |
| Dicts.SetKeys | parse_burp_request.py:85 | assigning to a present key keeps the key order; assigning to a new key appends it |
| Dicts.SetUniqueKeys | parse_burp_request.py:85 | assignment keeps the keys distinct |
| Dicts.UpdateLookup | parse_burp_request.py:83 | after `d.update(ps)` each key has the value of its last pair in `ps`, or its old value when it has no pair |
| Dicts.UpdateUniqueKeys | parse_burp_request.py:83 | `update` keeps the keys distinct |
| Dicts.UpdateOfDict | parse_burp_request.py:83 | assigning the entries of a dict to `{}`, in order, rebuilds that dict |
| Dicts.LastValueOfDict | parse_burp_request.py:83 | in a dict with distinct keys, the last (and only) entry for a key is what the lookup finds, so merging a parsed dict is merging its pairs |
| FormData.Dedup | parse_burp_request.py:128 | the names of `parse_qs`: distinct, and exactly the names of the body |
| FormData.Group | parse_burp_request.py:128 | `parse_qs` maps each name, in order of first occurrence, to all its values in order; names without values are absent |
| FormData.FirstOfValues | parse_burp_request.py:131 | `values[0]` is the value of the name's first field |
| FormData.PostData | parse_burp_request.py:126-131 | `parse_post_data` keeps each name once, in order of first occurrence, with the value of its first field |
| FormData.ParsePostData | parse_burp_request.py:126-134 | the loop over `parse_qs(body).items()` builds exactly `PostData(body)` |
| FormData.PostDataResult | parse_burp_request.py:129-131 | the loop's result has distinct keys, the names of the body in first-occurrence order, and each name's first value |
| BurpParser.CookiePair | parse_burp_request.py:109-112 | a piece yields a pair exactly when its stripped text holds an '='; the name and the value are trimmed and the name holds no '=' |
| BurpParser.CookiePairPadded | parse_burp_request.py:109-112 | a piece that is a trimmed name without '=', '=', and a trimmed value, with any whitespace around each, reads back as that name and value |
| BurpParser.CookieJar | parse_burp_request.py:107-113 | `parse_cookies` stores each name once, with the value of its last pair |
| BurpParser.ParseCookies | parse_burp_request.py:107-113 | the loop over the ';'-separated pieces builds exactly `CookieJar(cookie_string)` |
| BurpParser.CookiePieceRoundTrip | parse_burp_request.py:109-112 | a piece `name=value` (after an optional space) reads back as `(name, value)` when both are trimmed and the name has no '=' |
| BurpParser.CookieHeaderRoundTrip | parse_burp_request.py:107-113 | a `Cookie` header `n1=v1; n2=v2; …` parses so that each name gets the value of its last cookie; cookies with distinct names come back exactly, in order |
| BurpParser.FieldMeaning | parse_burp_request.py:76-85 | a field classified as "other" is neither `Host` nor `Cookie` in any letter case |
| BurpParser.ClassifyLine | parse_burp_request.py:71-74 | a stripped line is skipped exactly when it holds no ':'; every name and value it yields is trimmed, and a name holds no ':' |
| BurpParser.ClassifyLineSplit | parse_burp_request.py:72-74 | a line with a ':' means the stripped text before its first ':' as name and the stripped rest as value |
| BurpParser.ClassifyPadded | parse_burp_request.py:66-74 | a raw line that is a trimmed name without ':', ':', and a trimmed value, with any whitespace around each, means that name and value |
| BurpParser.FieldLineRoundTrip | parse_burp_request.py:66-74 | the header loop reads a field line `name: value` back as that name and value |
| BurpParser.ApplyHeaders | parse_burp_request.py:64-85 | header lines never change the method, the path or the form data |
| BurpParser.LastHost | parse_burp_request.py:76-79 | there is no `Host` value exactly when no line is a `Host` header |
| BurpParser.HeaderKeysClean | parse_burp_request.py:76-85 | no key written to `headers` is a `Cookie` name, and a `Host` name (any case) is only ever written as "Host" |
| BurpParser.HeadersAreAssignments | parse_burp_request.py:79-85 | `headers` is the result of the header assignments in order, the later overwriting the earlier |
| BurpParser.CookiesLastWins | parse_burp_request.py:80-83 | each cookie has the value of its last pair over all `Cookie` lines, or keeps its old value when no line sets it |
| BurpParser.UrlFromLastHost | parse_burp_request.py:76-78 | the URL is "https://" + the last `Host` value + path, and is left alone without a `Host` line |
| BurpParser.HostFromLastHost | parse_burp_request.py:76-79 | the last value assigned to "Host" is the value of the last `Host` line |
| BurpParser.Lines | parse_burp_request.py:43 | there is at least one line, no line holds a newline, and the lines joined by newlines give back the stripped transcript |
| BurpParser.BlankFrom | parse_burp_request.py:65-69 | the scan stops at the first blank line from `i` on, or at the end |
| BurpParser.HeaderEnd | parse_burp_request.py:64-69 | the header lines are those after the request line up to the first blank line |
| BurpParser.BodyStart | parse_burp_request.py:64-69 | when there are lines left for a body, the line just before them is the first blank line after the request line |
| BurpParser.ClassifyAll | parse_burp_request.py:65-85 | one classified line per line, none an "other" header named `Host` or `Cookie` |
| BurpParser.HeaderLineStep | parse_burp_request.py:71-85 | one turn of the header loop applies exactly the meaning of the stripped line |
| BurpParser.ParseBurpRequest | parse_burp_request.py:43-94 | the parser, loop with `break` included, returns exactly `ParseRequest(content)` |
| BurpParser.RequestLineRule | parse_burp_request.py:46-61 | method and path are the first two words of a request line with at least two words, otherwise 'POST' and '/cart' |
| BurpParser.DataRule | parse_burp_request.py:64-92 | the form data is that of the non-empty body after the first blank line; with no blank line or an empty body it is `{}` |
| BurpParser.HeadersOnly | parse_burp_request.py:88-92 | the body sets the form data only |
| BurpParser.HeadersRule | parse_burp_request.py:71-85 | each header name has the value of its last line; `Host` is stored as "Host" with the last `Host` value; no `Cookie` header is stored |
| BurpParser.HeaderTable | parse_burp_request.py:71-85 | starting from `{}`, the header loop leaves distinct keys, last-wins values, and no `Cookie` key |
| BurpParser.UrlRule | parse_burp_request.py:47-78 | the URL is "https://" + last Host + path; it is non-empty exactly when some line is a `Host` header |
| BurpParser.CookiesRule | parse_burp_request.py:80-83 | each cookie name is stored once, with the value of its last pair over all `Cookie` lines |
| BurpParser.CookiesUnique | parse_burp_request.py:83 | merging cookie jars keeps each name once |
| Display.MaskSession | parse_burp_request.py:225 | a token of more than 16 characters shows as 19 characters; a shorter one shows as it is |
| Display.MaskShowsEnds | parse_burp_request.py:225 | a masked token shows its first 8 characters, "..." and its last 8 |
| Display.MaskHidesMiddle | parse_burp_request.py:225 | long tokens that agree on their first and last 8 characters look the same |
| Display.MaskIdempotent | parse_burp_request.py:225 | masking a shown token again changes nothing |
| Display.TruncateHeader | parse_burp_request.py:240-241 | a value of more than 60 characters shows as its first 60 and "..."; a shorter one as it is |
| Display.TruncateIdempotent | parse_burp_request.py:240-241 | cutting a shown value short again changes nothing |
| Display.ShownCookies | parse_burp_request.py:222-228 | every cookie is shown, in order; the value of a cookie named "session" in any case is masked, the others are shown as they are |
| Display.ShownHeaders | parse_burp_request.py:236-242 | at most one entry per key name is shown |
| Display.ShownHeadersSound | parse_burp_request.py:236-242 | only key headers that are present are shown, each with its value cut short |
| Display.ShownHeadersAppend | parse_burp_request.py:236-242 | headers are shown in the order of the key names: those for a list of names are those for its first part, then those for the rest |
| Display.KeyHeadersShown | parse_burp_request.py:236-242 | the "Key Headers" section shows at most Host, Origin, Referer and User-Agent, each present and cut short; with all four present, all four are shown in that order |
| Display.ShownAllPresent | parse_burp_request.py:236-242 | when every name is present, one header is shown per name, in the order of the names |
| Display.ShownHeadersComplete | parse_burp_request.py:236-242 | every key header that is present is shown |
| ScriptPatcher.SubSkip | parse_burp_request.py:160 | `re.sub` copies the text before the first match unchanged |
| ScriptPatcher.SubAbsent | parse_burp_request.py:160 | a text with no match of the pattern is left as it is |
| ScriptPatcher.SubMatch | parse_burp_request.py:160 | a match, which runs up to the first closing delimiter, becomes the replacement and the scan goes on after it |
| ScriptPatcher.SubOnce | parse_burp_request.py:160 | a text with exactly one match changes only there |
| ScriptPatcher.SubQuotedOnce | parse_burp_request.py:159-160 | exactly one quoted literal after the lead gets its value replaced, and nothing else changes |
| ScriptPatcher.BuildDataItems | parse_burp_request.py:185-187 | the loop appends exactly `Items(data)`: one `'key': 'value'` item per form field, in key order |
| ScriptPatcher.EntriesJoin | parse_burp_request.py:188 | the literal after `{`: the items joined by ", ", then "}" |
| ScriptPatcher.EntriesUntouched | parse_burp_request.py:191-192 | without a `quantity` key, the `replace` leaves the literal as it is |
| ScriptPatcher.EntriesForced | parse_burp_request.py:191-192 | the `quantity` item, and that one only, becomes `'quantity': '99'` |
| ScriptPatcher.LiteralForced | parse_burp_request.py:188-192 | the `replace` turns the literal of `data` into the literal of `data` with `quantity` set to '99' |
| ScriptPatcher.DataTextForcesQuantity | parse_burp_request.py:183-192 | the written `DATA` literal is that of the form data with `quantity` forced to '99' where present: same keys, same order, every other value kept |
| ScriptPatcher.PatchOnlyUrl | parse_burp_request.py:158-183 | with no Host, Origin, Referer, session or form data, only the `URL` literal is rewritten |
| ScriptPatcher.PatchUrlLiteral | parse_burp_request.py:158-160 | a script with one `URL = '…'` literal gets the new URL there and is otherwise unchanged |
| ScriptPatcher.UpdateCartScript | parse_burp_request.py:158-195 | the step-by-step rewrite of the script text returns exactly `PatchScript(content, config)` |
| CartAttack.RecordOf | examples/cart_race_condition.py:76-138 | a response records its status, text length and time, and no error; a timeout or failure records status 0, length 0 and an error; a timeout takes `TIMEOUT*1000` ms with error 'timeout'; a failure takes 0 ms with the exception message; `likely_success` holds exactly for a response meeting one of the three indicators |
| CartAttack.OkIsLikelySuccess | examples/cart_race_condition.py:93-104 | every 200 response is a likely success, whatever its body |
| CartAttack.RecordWellFormed | examples/cart_race_condition.py:99-138 | a record carries an error exactly when the request did not complete, and then has status 0 and no success |
| CartAttack.Results | examples/cart_race_condition.py:179 | `gather` returns one element per task |
| CartAttack.ResultsInOrder | examples/cart_race_condition.py:172-179 | element `i` belongs to request `i`, the `i`-th of the ids 0 to N-1 of `TaskIds`, and it is a record exactly when its coroutine returned |
| CartAttack.Valid | examples/cart_race_condition.py:194 | the valid results are exactly the records among the results, each as many times as it occurs there |
| CartAttack.ValidAppend | examples/cart_race_condition.py:194 | the filter keeps the order: the records of a concatenation are the records of each part, in turn |
| CartAttack.Successful | examples/cart_race_condition.py:195 | the successful results are exactly the valid ones marked likely successes, each as many times as it is valid |
| CartAttack.SuccessfulAppend | examples/cart_race_condition.py:195 | the filter keeps the order: the likely successes of a concatenation are those of each part, in turn |
| CartAttack.SummaryBounds | examples/cart_race_condition.py:172-195 | successful ≤ valid ≤ `REQUEST_COUNT` |
| CartAttack.StatusHistogram | examples/cart_race_condition.py:208-211 | the counting loop builds each code once, with the number of valid records with that code; the counts are positive and sum to the number of valid records |
| CartAttack.HistogramCounts | examples/cart_race_condition.py:208-211 | a code's count is the number of valid records with that code, and codes never seen are absent |
| CartAttack.TallyLookup | examples/cart_race_condition.py:211 | counting a code adds one to its count and leaves the other counts alone |
| CartAttack.HistogramTotal | examples/cart_race_condition.py:208-211 | the counts sum to the number of valid records |
| CartAttack.HistogramPositive | examples/cart_race_condition.py:208-211 | no code is listed with a count of zero |
| CartAttack.ErrorsUnderZero | examples/cart_race_condition.py:118-138 | timeouts and failures are all counted under code 0 |
| CartAttack.BurstErrorsUnderZero | examples/cart_race_condition.py:179-211 | in any burst, the records with an error are at most the count of code 0 |
| CartAttack.SortByCode | examples/cart_race_condition.py:214 | the report is a permutation of the histogram's entries |
| CartAttack.InsertAscending | examples/cart_race_condition.py:214 | inserting an entry with a new code keeps the entries in ascending code order |
| CartAttack.ReportAscending | examples/cart_race_condition.py:214 | a histogram with distinct codes is reported in strictly ascending code order |
| CartAttack.Report | examples/cart_race_condition.py:208-216 | the report lists codes ascending, each with its positive count, and every code that occurs is listed |
| CartAttack.DefaultUrlHasPlaceholder | examples/cart_race_condition.py:30 | the shipped URL contains 'YOUR-LAB-ID' |
| CartAttack.ValidateExampleConfigExactly | examples/cart_race_condition.py:226-241 | the check fails exactly when the URL contains 'YOUR-LAB-ID' or a cookie value contains 'YOUR-SESSION-TOKEN'; the exact-URL test adds nothing |
| CartAttack.ShippedExampleRefused | examples/cart_race_condition.py:226-232 | the example as shipped refuses to run |
| CartScript.ValidateConfigurationExactly | cart_script.py:144-156 | the check passes exactly when the URL does not contain the default lab id and the first `session` cookie, if any, is not the default token |
| CartScript.LookupIndex | cart_script.py:151 | a `get` that finds a value finds it at the first entry with that key |
| CartScript.NoSessionChecksUrlOnly | cart_script.py:151-156 | without a `session` cookie, only the URL test can fail |
| CartScript.ShippedConfigurationAccepted | cart_script.py:37-60 | the shipped URL and session cookie pass the check |
| CartScript.StatusLine | cart_script.py:79-80 | the status line starts with the label, a space and the mark of the status |
| CartScript.FailureLine | cart_script.py:82-86 | the failure line starts with the label, a space and '⏰' for a timeout or '❌' for another exception |
| CartScript.SendOne | cart_script.py:77-87 | only a response whose text was read returns text, every other ending returns ""; a response logs its status line first, and a failure logs its failure line last, so a failure while reading the text logs two lines; every line starts with the label; no `Exception` escapes |
| CartScript.OkMark | cart_script.py:79-80 | the first line carries '✓' exactly when a response with status 200 arrived, whether or not its text was read |
| CartScript.FailureLogged | cart_script.py:78-87 | the last line carries a failure mark exactly when no text was read, '⏰' exactly for a timeout, and the request then returns "" |
| CartScript.StatusLineDigits | cart_script.py:80 | the status line ends with digits that read back as the status |
| CartScript.LabelNumber | cart_script.py:80 | the label is `[` + the digits of `i+1` + `]`: exactly three digits below 1000, and `str(i+1)` from 100 on |
| CartScript.MainLabels | cart_script.py:98-120 | the 330 requests of `main` are labelled "[001]" to "[330]", five characters each |
| CartScript.Burst | cart_script.py:120-121 | one result per task, in order: each returns its response text or "", logs two lines exactly when its text could not be read and one otherwise, and every line starts with its own label |
| CartScript.TaskLabelsDistinct | cart_script.py:80-120 | different tasks of a burst log under different labels, and every line of a task starts with its label |
| ConfigTemplate.FirstDetected | config_template.py:92-96 | the pattern reported is a default pattern that is detected; none is reported exactly when no pattern is detected |
| ConfigTemplate.FirstDetectedFirst | config_template.py:92-96 | every pattern tried before the reported one was not detected |
| ConfigTemplate.ValidateConfigExactly | config_template.py:92-98 | the check fails exactly when some default pattern occurs in the URL, the cookies or the headers |
| ConfigTemplate.SameDetection | config_template.py:92-96 | two configurations that detect the same patterns report the same one |
| ConfigTemplate.ValidateConfigIgnoresSettings | config_template.py:93 | the data, the request count, the connection limit and the timeout play no part in the check |
| ConfigTemplate.ShippedRefused | config_template.py:23-96 | the shipped template fails the check, and the pattern reported is 'YOUR-LAB-ID' |
| ConfigTemplate.GetConfig | config_template.py:108-116 | the dict has exactly the keys url, headers, cookies, data, request_count, connection_limit, timeout, in that order |
| ConfigTemplate.GetConfigRoundTrip | config_template.py:108-116 | the keys are distinct, and every setting reads back from its key |

## Left out

- Reading and writing files, `print`, `input()` and `sys.exit`: the parser takes the transcript's text and the patcher returns the new script text. The error returns for a missing file and the interactive confirmation in `main` are not modelled.
- Sending requests: `aiohttp`, `asyncio.gather`, the connection limit and the client timeout. How each request ended is an input. In examples/cart_race_condition.py, a task that raises something other than an `Exception` is the `CartAttack.Raised` outcome.
- CartScript.SendOne: `send_one` catches only `Exception`, and a `BaseException` that is not one (such as `asyncio.CancelledError` or `KeyboardInterrupt`) escapes it. Such a task has then logged nothing, or only its status line, and returns no text. `CartScript.Outcome` has no case for this, so neither SendOne nor Burst describes it.
- The clock and all floating-point statistics: durations, requests per second, average response time and percentages. The elapsed time of a completed request is an input.
- The log lines of `perform_cart_attack` in examples/cart_race_condition.py are not modelled; the log lines of `send_one` in cart_script.py are modelled only by their text, and the order in which the lines of concurrent requests interleave on the console is not modelled.
- The summary when the session fails before `gather`: `results` is then unbound in the `finally` block. Only the path where `gather` returned is modelled.
- `urllib.parse.unquote` (percent-decoding with UTF-8 and replacement of bad bytes) is the parameter `unquote`; only the '+' to space step is written out.
- `parse_post_data`'s `except` branch is not modelled: the model of `parse_qs` never raises.
- `re.sub` replacement strings are inserted as they are. A backslash or a group reference in a replacement value is not interpreted as Python would.
- `str.lower()` is modelled only on 'A' to 'Z' and the KELVIN SIGN, the only characters Python lowers into ASCII letters. Other characters keep their case. This changes no comparison or search the program makes, since each one is against a lower-case ASCII word.
- `ConfigTemplate.InDict` and `CartAttack.InSomeValue` read `pattern in str(d)` as "the pattern occurs inside some key or value". This matches Python when no key or value holds a character that `repr` writes as an escape (a non-printable character such as '\x00'). No pattern holds a quote, ':', ',', a space or a brace, so a match never spans two entries.
- ConfigTemplate.ValidateConfigExactly: where a key or value holds an escaped character, Python searches the escape's text too. The hexadecimal digits of an escape such as `\x00` can then complete the lower-case hexadecimal pattern '0a390020035ec1b5821438f800a10031'. For example, a session cookie '\x00a390020035ec1b5821438f800a10031' is refused by Python and accepted by the model. The same applies to ConfigTemplate.FirstDetected. `CartAttack.InSomeValue` is not affected: no escape yields its upper-case placeholders.
- ScriptPatcher.EntriesUntouched: proved only for form names and values without a quote.
- ScriptPatcher.EntriesForced: proved only for form names and values without a quote.
- ScriptPatcher.LiteralForced: proved only for form names and values without a quote.
- ScriptPatcher.PatchUrlLiteral: covers only a configuration with no `Host`, `Origin`, `Referer`, session or form data; the other rewrites are described by ScriptPatcher.SubQuotedOnce one at a time.
- ScriptPatcher.DataTextForcesQuantity: holds only when no form name or value contains a quote, because the `replace` of the source searches the literal text.
- BurpParser.CookieHeaderRoundTrip: covers only cookies whose names and values are trimmed and hold no ';', and whose names hold no '='.
- BurpParser.FieldLineRoundTrip: covers only field names that are non-empty, trimmed and hold no ':', with trimmed values.
- CartAttack.SortByCode: sorts on the code alone. Python's `sorted` compares the whole pair, but the codes of a dict are distinct, so the order is the same.
- setup_and_run.py is not part of this model: it creates a virtual environment and runs commands.
- The `HEADERS` and `DATA` constants of the attack scripts are only sent with each request. Sending is not modelled, so they appear in the model only where a check reads them.
