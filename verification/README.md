# Konami daily check-in: a Dafny model of its decision logic

The program logs in to the e-amusement web service and then performs the daily
card-game check-in. The login is gated by an image captcha. The program solves
the captcha with fixed pixel tests, assembles an answer key, and maps the login
response to an error code. It then scrapes a token and a `c_type` value from the
card-game page and posts them back as a form. Every HTTP call goes through a
dispatcher. The dispatcher queues finished responses, and a single consumer
thread drains that queue.

This project models the pure decisions around those HTTP calls, as total
functions over plain datatypes, and proves what each one guarantees:

- `basics.dfy` (module `Basics`): `Option` (a C# `null` is `None`), `Outcome`
  (`Done`, the program's own `Failed`, or `Threw` when an exception escapes),
  and `byte`.
- `text.dfy` (module `Text`): .NET `IndexOf` (ordinal), `int.TryParse` with the
  default number style, and decimal formatting as its inverse.
- `network.dfy` (module `Network`): `ParseHeader`, the queue entry produced when
  a request finishes, and the `Update` drain.
- `captcha.dfy` (module `Captcha`): classification of the reference picture,
  matching of the candidate pictures, and `SolveProblem`.
- `konami_web.dfy` (module `KonamiWeb`): the choice-key filter, the
  answer-key loop, the challenge step of `Login`, the `fail_code` mapping,
  page scraping, the form body, and the request headers.

Modelling choices:

- A bitmap is a function from a pixel position to an ARGB colour. Colours are
  compared on all four channels, as .NET does for the unnamed colours that
  `GetPixel` and `Color.FromArgb` produce.
- Downloads are parameters. The reference picture is a plain image. A
  candidate picture is an `Option`, where `None` is the `Result == null` case
  that `SolveProblem` tests. The source always downloads exactly five
  candidates.
- The answer-key loop is modelled for any index list, not only sorted ones.
  Its cursor consumes the longest strictly ascending prefix of the list whose
  entries are below the number of choices (`ConsumedCount`). The solver's
  answer is always consumed completely (`AscendingAnswerFullyConsumed`).
- Page scraping follows the code. Only the two markers are checked. A missing
  `value="` or `value=` makes the value start at offset `-1 + 7` or `-1 + 6`
  (an offset counted in scalar values here; see "## Left out").
  A missing closing `"` or `;` makes `Substring` get a negative length, which
  throws. The model returns `Threw` in that case.
- A `null` kcsess is written as nothing by the string interpolation
  `$"k_{kcsess}"`.

What the C# code does at the points where a reader might expect otherwise:

- The reference picture is fetched and awaited before the candidates
  (lines 235-236). A failed fetch throws inside `Task.WaitAll`. The only null
  test is the literal `Result == null` check on the candidates (line 248).
- The answer key has one `_` for every choice position, and a matched
  position's key follows its `_`. With five choices where only the last
  matches, the key is `k_s1`, five `_`, then the last key
  (`LastOfFiveExample`).
- Page scraping checks only the first marker of each field (lines 403 and
  419). A missing value prefix or closing character is not checked; see above.
- Choice entries whose `key` is `null` or empty are skipped (lines 489-494).
  A missing `key` field throws inside the JSON library, which is not modelled.
- An exception from a queued callback leaves `Update` (line 53) and the loop
  in `Main` that calls it (lines 542-545). The entries behind it are never
  run (`Update`).

## Model

| member | source | states |
|---|---|---|
| Network.ParseHeader | NonoDailyCardGame/NonoDailyCardGame/NonoDailyCardGame.cs:158-194 | A null dictionary leaves the request unchanged. Each of the six recognized keys that is present sets its field: Keep-Alive becomes true only for the value "true", and the other five fields take the value itself. Every field whose key is absent keeps its previous value. |
| Network.UnrecognizedHeaderIgnored | NonoDailyCardGame/NonoDailyCardGame/NonoDailyCardGame.cs:158-194 | Adding or changing a key outside the six recognized ones (for example Accept-Encoding) does not change the resulting request. |
| Network.OnlyRecognizedHeadersMatter | NonoDailyCardGame/NonoDailyCardGame/NonoDailyCardGame.cs:158-194 | Applying a dictionary is the same as applying only its recognized entries. |
| Network.ParseHeaderIdempotent | NonoDailyCardGame/NonoDailyCardGame/NonoDailyCardGame.cs:158-194 | Applying the same overrides twice gives the same request as applying them once. |
| Network.KeepAliveExactlyTrue | NonoDailyCardGame/NonoDailyCardGame/NonoDailyCardGame.cs:169-172 | When Keep-Alive is present, the request keeps the connection alive if and only if the value is exactly "true". |
| Network.Finish | NonoDailyCardGame/NonoDailyCardGame/NonoDailyCardGame.cs:126-156 | A finished request queues its success callback with the response bytes if and only if a response arrived. Otherwise it queues the failure report for that request, with a null payload. |
| Network.Update | NonoDailyCardGame/NonoDailyCardGame/NonoDailyCardGame.cs:44-55 | The drain runs the queued entries in FIFO order and passes each handler its own payload. It stops at the first handler that throws: that entry has been dequeued, and every later entry stays queued. The exception escapes if and only if some queued invocation throws. Otherwise every entry runs once and the queue ends empty. For every handler, its runs plus its entries still queued equal its entries in the original queue, so a completed drain runs each handler exactly as often as it was queued. |
| Network.DrainAccountsForEveryEntry | NonoDailyCardGame/NonoDailyCardGame/NonoDailyCardGame.cs:44-55 | Even for a drain that an exception cut short, each handler's run count plus its count among the entries still queued equals its count in the original queue. |
| Captcha.FirstMatch | NonoDailyCardGame/NonoDailyCardGame/NonoDailyCardGame.cs:276-285 | The table walk returns Unknown if and only if no row's pixel has the row's colour. Otherwise it returns the character of the first row whose pixel matches. |
| Captcha.MainCharacterType | NonoDailyCardGame/NonoDailyCardGame/NonoDailyCardGame.cs:263-286 | The reference picture is Unknown if and only if no row of the five-row table has its colour at its point. Otherwise it is the character of a row that is the first matching row. |
| Captcha.ClassifiedAsFirstShown | NonoDailyCardGame/NonoDailyCardGame/NonoDailyCardGame.cs:263-286 | The reference picture is classified as a row's character if and only if that row is the first row, in the order Bomberman, Girl, Goemon, Rabbit, Robot, whose point has exactly its colour. |
| Captcha.ClassificationPriority | NonoDailyCardGame/NonoDailyCardGame/NonoDailyCardGame.cs:267-282 | When the pixels of two rows both match, the later row's character is not chosen. |
| Captcha.MatchConditionOf | NonoDailyCardGame/NonoDailyCardGame/NonoDailyCardGame.cs:290-297 | Every known character has exactly five match points. Unknown has no entry. |
| Captcha.MatchColorIsIdentifierColor | NonoDailyCardGame/NonoDailyCardGame/NonoDailyCardGame.cs:216-220 | Each character is matched with the same colour that identifies it in the classification table. |
| Captcha.GoemonSinglePixel | NonoDailyCardGame/NonoDailyCardGame/NonoDailyCardGame.cs:294 | A candidate matches Goemon if and only if pixel (55,20) has Goemon's colour. |
| Captcha.GetMatchedSubCharacterIndices | NonoDailyCardGame/NonoDailyCardGame/NonoDailyCardGame.cs:288-316 | The result is strictly ascending, so it has no duplicates. Every entry is a valid candidate index. An index is present if and only if at least one of the character's five points has the character's colour in that candidate. |
| Captcha.MatchingIndices | NonoDailyCardGame/NonoDailyCardGame/NonoDailyCardGame.cs:299-315 | This is a reference definition built one picture at a time, and it has the same three properties: strictly ascending, in range, and an exact match on membership. |
| Captcha.AscendingListsWithSameMembersAreEqual | NonoDailyCardGame/NonoDailyCardGame/NonoDailyCardGame.cs:299-315 | Two strictly ascending lists with the same members are equal. So the matching contract fixes the result completely. |
| Captcha.FindMissing | NonoDailyCardGame/NonoDailyCardGame/NonoDailyCardGame.cs:248 | The result is -1 if and only if every download result is present. Otherwise it is the first index whose result is null. |
| Captcha.SolveProblem | NonoDailyCardGame/NonoDailyCardGame/NonoDailyCardGame.cs:232-254 | The answer is null if and only if the reference picture is Unknown or some candidate result is null. Otherwise it is exactly the ascending list of matching candidate indices, all below five. |
| KonamiWeb.FilterChoiceKeys | NonoDailyCardGame/NonoDailyCardGame/NonoDailyCardGame.cs:484-495 | No output key is empty. A string is in the output if and only if it is non-empty and appears among the input keys. The output is never longer than the input. |
| KonamiWeb.FilterChoiceKeysAppend | NonoDailyCardGame/NonoDailyCardGame/NonoDailyCardGame.cs:486-495 | Filtering a concatenation gives the concatenation of the filtered parts, so the kept keys stay in their original relative order. |
| KonamiWeb.FilterChoiceKeysKeepsValid | NonoDailyCardGame/NonoDailyCardGame/NonoDailyCardGame.cs:486-495 | A list with no null or empty key passes the filter unchanged. |
| KonamiWeb.ConsumedFrom | NonoDailyCardGame/NonoDailyCardGame/NonoDailyCardGame.cs:366-375 | The number of matched indices the cursor can consume is the length of the longest prefix that is strictly ascending and lies within the range of positions. |
| KonamiWeb.AssembleCaptchaKey | NonoDailyCardGame/NonoDailyCardGame/NonoDailyCardGame.cs:363-375 | The key is "k_" plus kcsess, then one "_" for every choice position. The position's key follows its "_" exactly when the position is one of the matched indices the cursor consumes. |
| KonamiWeb.AscendingAnswerFullyConsumed | NonoDailyCardGame/NonoDailyCardGame/NonoDailyCardGame.cs:364-375 | A strictly ascending list of indices below the number of choices is consumed completely. |
| KonamiWeb.NoMatchKey | NonoDailyCardGame/NonoDailyCardGame/NonoDailyCardGame.cs:364-375 | With an empty match list, the key is "k_" plus kcsess followed by one "_" per choice. |
| KonamiWeb.CaptchaKeyLength | NonoDailyCardGame/NonoDailyCardGame/NonoDailyCardGame.cs:364-375 | The key length is 2 + the length of kcsess + the number of choices + the total length of the matched keys. |
| KonamiWeb.ThreeChoiceExample | NonoDailyCardGame/NonoDailyCardGame/NonoDailyCardGame.cs:364-375 | With kcsess "ABC", keys k1 k2 k3 and matched indices 0 and 2, the key is k_ABC_k1__k3. |
| KonamiWeb.LastOfFiveExample | NonoDailyCardGame/NonoDailyCardGame/NonoDailyCardGame.cs:364-375 | With five choices where only the last matches, the key is k_s1, five "_", then the last key. |
| KonamiWeb.SolveChallenge | NonoDailyCardGame/NonoDailyCardGame/NonoDailyCardGame.cs:341-375 | The step throws if and only if fewer than five usable keys remain. Given enough keys, it fails if and only if the reference picture is Unknown or a candidate is missing. Otherwise the key is built from the filtered keys and the full ascending list of matching candidates. |
| KonamiWeb.LoginResult | NonoDailyCardGame/NonoDailyCardGame/NonoDailyCardGame.cs:380-388 | The result is Success if and only if fail_code parses as the integer 0. It is InvalidEmailOrPassword if and only if it parses as 200. Every other value, including one that does not parse, is Failure. |
| KonamiWeb.LoginResultOfCode | NonoDailyCardGame/NonoDailyCardGame/NonoDailyCardGame.cs:381-384 | For the decimal text of any 32-bit code: 0 gives Success, 200 gives InvalidEmailOrPassword, and anything else gives Failure. |
| KonamiWeb.LoginResultExamples | NonoDailyCardGame/NonoDailyCardGame/NonoDailyCardGame.cs:381-384 | "0" gives Success, "200" gives InvalidEmailOrPassword, and "77" gives Failure. |
| KonamiWeb.LoginResultNonNumeric | NonoDailyCardGame/NonoDailyCardGame/NonoDailyCardGame.cs:385-388 | A fail_code with no digit, or a null fail_code, gives Failure. |
| Text.IndexOf | NonoDailyCardGame/NonoDailyCardGame/NonoDailyCardGame.cs:402-411 | The result is -1 if and only if the text does not occur at or after the start. Otherwise it is the first position of an occurrence at or after the start. |
| Text.FirstOccurrenceIsIndexOf | NonoDailyCardGame/NonoDailyCardGame/NonoDailyCardGame.cs:402-411 | IndexOf finds exactly the first occurrence. |
| Text.TryParseInt32 | NonoDailyCardGame/NonoDailyCardGame/NonoDailyCardGame.cs:381 | Parsing succeeds only on a non-null string, and only with a value in the 32-bit range. |
| Text.FormatIntRoundTrip | NonoDailyCardGame/NonoDailyCardGame/NonoDailyCardGame.cs:381 | Parsing the decimal text of any 32-bit value gives that value back. |
| Text.NoDigitNoParse | NonoDailyCardGame/NonoDailyCardGame/NonoDailyCardGame.cs:381 | A string with no decimal digit never parses. |
| Text.WhiteSpaceIgnored | NonoDailyCardGame/NonoDailyCardGame/NonoDailyCardGame.cs:381 | A white-space character at either end does not change what parses. |
| KonamiWeb.ScrapeField | NonoDailyCardGame/NonoDailyCardGame/NonoDailyCardGame.cs:402-412 | The field is Failure if and only if the marker does not occur. A scraped value never contains the terminator, and in the page it is immediately followed by the terminator. |
| KonamiWeb.ScrapeFieldWellFormed | NonoDailyCardGame/NonoDailyCardGame/NonoDailyCardGame.cs:409-412 | On a well-formed page, the value is the text between the first value prefix after the first marker and the next terminator. |
| KonamiWeb.ScrapeFieldFromIndices | NonoDailyCardGame/NonoDailyCardGame/NonoDailyCardGame.cs:404-411 | Once the marker search, the value-prefix search and the terminator search have given their positions, the field is the text from the value start up to the terminator. |
| KonamiWeb.ScrapeFieldThrows | NonoDailyCardGame/NonoDailyCardGame/NonoDailyCardGame.cs:409-412 | Once the marker and a value prefix after it are found, the field throws if and only if no terminator follows the value start. |
| KonamiWeb.TerminatorAbsent | NonoDailyCardGame/NonoDailyCardGame/NonoDailyCardGame.cs:411 | The search for the closing character gives -1 if and only if the rest of the page does not contain it. |
| KonamiWeb.ScrapeFieldWithoutValuePrefix | NonoDailyCardGame/NonoDailyCardGame/NonoDailyCardGame.cs:409-412 | If no value prefix follows the marker, the value is read from offset length-of-prefix minus 1 (the -1+7 case), up to the next terminator. |
| KonamiWeb.ScrapeCardGamePage | NonoDailyCardGame/NonoDailyCardGame/NonoDailyCardGame.cs:399-429 | If the "id_initial_token marker is absent, the result is Failure. If the token scrapes and c_type is absent, the result is Failure. Failure happens only when a marker is absent. The fields are exactly the values the token and c_type scrapes read, so the token has no '"' and c_type has no ';'. The callback throws if and only if the token scrape throws, or the token scrapes and the c_type scrape throws. |
| KonamiWeb.ScrapeCardGamePageWellFormed | NonoDailyCardGame/NonoDailyCardGame/NonoDailyCardGame.cs:399-429 | On a page where each field's first marker, the next value prefix and the next closing character are at known positions, the token is the text after `value="` up to the next `"`, and c_type is the text after `value=` up to the next `;`. |
| KonamiWeb.ScrapeCardGamePageThrows | NonoDailyCardGame/NonoDailyCardGame/NonoDailyCardGame.cs:409-428 | When both markers and their value prefixes are present, the callback throws if and only if no `"` follows the token's start or no `;` follows c_type's start. |
| KonamiWeb.CardGameBody | NonoDailyCardGame/NonoDailyCardGame/NonoDailyCardGame.cs:432 | The body starts with c_type=, then holds c_type, then &c_id=0&t_id=, and ends with the token; its length is the sum of those parts. |
| KonamiWeb.CardGameBodyRoundTrip | NonoDailyCardGame/NonoDailyCardGame/NonoDailyCardGame.cs:432 | The body c_type={ctype}&c_id=0&t_id={token} reads back as the same c_type and token whenever c_type has no '&'. |
| KonamiWeb.CardGameRequestBody | NonoDailyCardGame/NonoDailyCardGame/NonoDailyCardGame.cs:395-432 | A body is produced if and only if both fields scrape, and it fails if and only if scraping fails. When c_type has no '&', the body reads back as the scraped fields. |
| KonamiWeb.CardGameRequestBodyWellFormed | NonoDailyCardGame/NonoDailyCardGame/NonoDailyCardGame.cs:399-432 | On a well-formed page the posted body is c_type=, the scraped c_type, &c_id=0&t_id=, and the scraped token. |
| KonamiWeb.CardSaveRequestSettings | NonoDailyCardGame/NonoDailyCardGame/NonoDailyCardGame.cs:434-438 | The card-save request is form-encoded. It keeps the connection alive, uses the common host, and sends the card page as its referer. |

## Left out

- HTTP transport: `Get`, `Post`, `BeginGetResponse`, writing the request body, the cookie container, and the synchronous `OnRequestFailure` call when request creation throws. These are foreign networking calls. A finished request is modelled only by its response bytes, or by their absence.
- Concurrency: `Update` drains the snapshot of the queue present when it starts. The thread safety of `ConcurrentQueue` is not modelled, and neither are entries that arrive while the drain runs.
- Picture download and decoding: `DownloadImage`, `Task.WaitAll` and `new Bitmap(stream)` are foreign calls. Their results are parameters. An exception from a failed download, which the code does not turn into a null result, is not modelled.
- `GetPixel` outside the bitmap's bounds throws in .NET. The pixel function here is total.
- JSON parsing (`JObject.Parse`, the field lookups, `Value<string>()`) is replaced by fields that have already been extracted. A missing field throws in the library and is not modelled. The `parsedData == null` test at line 342 can never succeed, because `ParseKcaptchaJson` never returns null.
- URL construction for the candidate pictures and the login request, and the fixed endpoint constants: this is plain string concatenation with no decision in it.
- The card-save POST and its callback, which reports Success whatever the response. The model stops at the body that is posted.
- `Main`, console output, `Environment.Exit` and the busy-wait loop around `Update`: process-level code. Which callbacks throw is a parameter of `Update`, not derived from the callbacks' own models.
- Text.TryParseInt32: does not model culture-specific sign symbols or the trailing NUL characters that .NET also accepts. The program's codes are plain ASCII digits.
- KonamiWeb.ScrapeField: positions count Unicode scalar values, while the C# code indexes its strings by UTF-16 code unit. Every delimiter is ASCII, so the searches and the normal value start agree. They differ only at the fallback start `-1 + 7` or `-1 + 6` (lines 409 and 425), an absolute offset. When a character outside the Basic Multilingual Plane comes before that offset, the C# code starts the value at a different character. It may even split a surrogate pair, which a Dafny string cannot hold. The UTF-8 decode of the page (line 397) and the encode of the body (line 432) are not modelled either.
- KonamiWeb.ScrapeFieldWithoutValuePrefix: its offset `|valuePrefix| - 1` counts scalar values. It gives the C# code's result only when no character before that offset lies outside the Basic Multilingual Plane.
- Text.IndexOf: ordinal search, while the code's `IndexOf(string)` calls are culture-sensitive. The two agree unless the page holds ignorable code points (such as a soft hyphen) inside a marker, or a combining mark right after one. A culture-sensitive search skips the former and rejects a match followed by the latter, while the ordinal search does neither. The one-character `IndexOf(char)` searches are ordinal in .NET too.
- Network.ParseHeader: assumes every header value is one .NET accepts. `HttpWebRequest.Host` throws on a value that is not a valid host name (for example an empty one). The string header setters reject control characters and clear the header when given an empty string. Those exceptions would reach the catch blocks of `Get` and `Post`. The program passes only its fixed, valid header values.
