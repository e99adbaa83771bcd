/** The decisions inside `KonamiWeb`: filtering the captcha choice keys,
    assembling the captcha answer key, mapping the login response's
    `fail_code`, and scraping the card-game page into the form that is posted
    back. The HTTP requests and the JSON parser are outside the model; their
    results arrive here as already-extracted values. */
module KonamiWeb {
  import opened Basics
  import opened Text
  import Captcha
  import Network

  // ---------------------------------------------------------------------
  // ParseKcaptchaJson: the choice-list key filter
  // ---------------------------------------------------------------------

  predicate IsNullOrEmpty(s: Option<string>)
  {
    s.None? || s.value == ""
  }

  /** The `foreach` over `data.choicelist`: the `key` values that are neither
      `null` nor empty, in their original order. */
  function FilterChoiceKeys(keys: seq<Option<string>>): (r: seq<string>)
    ensures |r| <= |keys|
    ensures forall i | 0 <= i < |r| :: r[i] != ""
    ensures forall x :: x in r <==> x != "" && Some(x) in keys
  {
    if |keys| == 0 then []
    else
      var n := |keys| - 1;
      var prefix := FilterChoiceKeys(keys[..n]);
      assert keys == keys[..n] + [keys[n]];
      if IsNullOrEmpty(keys[n]) then prefix else prefix + [keys[n].value]
  }

  /** The filter works entry by entry: filtering a concatenation is
      concatenating the filtered parts, so the kept keys keep their order. */
  lemma {:induction false} FilterChoiceKeysAppend(a: seq<Option<string>>, b: seq<Option<string>>)
    ensures FilterChoiceKeys(a + b) == FilterChoiceKeys(a) + FilterChoiceKeys(b)
    decreases |b|
  {
    if |b| == 0 {
      assert a + b == a;
    } else {
      var n := |b| - 1;
      assert (a + b)[..|a + b| - 1] == a + b[..n];
      FilterChoiceKeysAppend(a, b[..n]);
    }
  }

  /** A list with no `null` or empty key passes the filter unchanged. */
  lemma {:induction false} FilterChoiceKeysKeepsValid(keys: seq<Option<string>>)
    requires forall i | 0 <= i < |keys| :: !IsNullOrEmpty(keys[i])
    ensures |FilterChoiceKeys(keys)| == |keys|
    ensures forall i | 0 <= i < |keys| :: Some(FilterChoiceKeys(keys)[i]) == keys[i]
  {
    if |keys| > 0 {
      FilterChoiceKeysKeepsValid(keys[..|keys| - 1]);
    }
  }

  // ---------------------------------------------------------------------
  // Captcha answer key
  // ---------------------------------------------------------------------

  /** `p` is strictly ascending with every element in `[lo, hi)`. */
  predicate AscendingIn(p: seq<int>, lo: int, hi: int)
  {
    && Captcha.StrictlyAscending(p)
    && forall k | 0 <= k < |p| :: lo <= p[k] < hi
  }

  lemma AscendingInCons(x: int, p: seq<int>, lo: int, hi: int)
    ensures AscendingIn([x] + p, lo, hi) <==> lo <= x < hi && AscendingIn(p, x + 1, hi)
  {
    var s := [x] + p;
    if lo <= x < hi && AscendingIn(p, x + 1, hi) {
      forall k, l | 0 <= k < l < |s|
        ensures s[k] < s[l]
      {
        if k > 0 {
          assert s[k] == p[k - 1] && s[l] == p[l - 1];
        }
      }
    }
    if AscendingIn(s, lo, hi) {
      assert s[0] == x;
      forall k | 0 <= k < |p|
        ensures x + 1 <= p[k] < hi
      {
        assert s[k + 1] == p[k];
        assert s[0] < s[k + 1];
      }
      forall k, l | 0 <= k < l < |p|
        ensures p[k] < p[l]
      {
        assert s[k + 1] < s[l + 1];
      }
    }
  }

  /** How many entries of `matched` the assembly loop's cursor consumes, when
      the smallest position still ahead is `lo` and there are `hi` positions:
      the longest strictly ascending prefix inside `[lo, hi)`. */
  function ConsumedFrom(matched: seq<int>, lo: int, hi: int): (c: nat)
    ensures c <= |matched|
    ensures AscendingIn(matched[..c], lo, hi)
    ensures c == |matched| || !AscendingIn(matched[..c + 1], lo, hi)
    decreases |matched|
  {
    if |matched| == 0 || !(lo <= matched[0] < hi) then
      assert |matched| > 0 ==> matched[..1][0] == matched[0];
      0
    else
      var rest := ConsumedFrom(matched[1..], matched[0] + 1, hi);
      ConsumedFromStep(matched, lo, hi, rest);
      rest + 1
  }

  /** The recursive case of `ConsumedFrom`: consuming the head keeps the
      prefix ascending and maximal. */
  lemma ConsumedFromStep(matched: seq<int>, lo: int, hi: int, rest: nat)
    requires |matched| > 0 && lo <= matched[0] < hi
    requires rest <= |matched[1..]|
    requires AscendingIn(matched[1..][..rest], matched[0] + 1, hi)
    requires rest == |matched[1..]| || !AscendingIn(matched[1..][..rest + 1], matched[0] + 1, hi)
    ensures AscendingIn(matched[..rest + 1], lo, hi)
    ensures rest + 1 == |matched| || !AscendingIn(matched[..rest + 2], lo, hi)
  {
    assert matched[..rest + 1] == [matched[0]] + matched[1..][..rest];
    AscendingInCons(matched[0], matched[1..][..rest], lo, hi);
    if rest < |matched[1..]| {
      assert matched[..rest + 2] == [matched[0]] + matched[1..][..rest + 1];
      AscendingInCons(matched[0], matched[1..][..rest + 1], lo, hi);
    }
  }

  function ConsumedCount(matched: seq<int>, positions: nat): nat
  {
    ConsumedFrom(matched, 0, positions)
  }

  /** There is only one maximal ascending prefix. */
  lemma MaximalPrefixUnique(m: seq<int>, hi: int, c: nat, d: nat)
    requires c <= |m| && d <= |m|
    requires AscendingIn(m[..c], 0, hi) && (c == |m| || !AscendingIn(m[..c + 1], 0, hi))
    requires AscendingIn(m[..d], 0, hi) && (d == |m| || !AscendingIn(m[..d + 1], 0, hi))
    ensures c == d
  {
  }

  /** The slot text for the first `n` choice positions: one `_` per position,
      followed by the position's key when the position is in `taken`. */
  function Slots(keys: seq<string>, taken: seq<int>, n: nat): string
    requires n <= |keys|
  {
    if n == 0 then "" else Slots(keys, taken, n - 1) + "_" + (if n - 1 in taken then keys[n - 1] else "")
  }

  /** The answer key: `k_{kcsess}` and then the slot of every choice position. */
  function CaptchaKey(kcsess: string, keys: seq<string>, taken: seq<int>): string
  {
    "k_" + kcsess + Slots(keys, taken, |keys|)
  }

  /** Slots only look at the members of `taken` below `n`. */
  lemma {:induction false} SlotsIgnoreLaterPositions(keys: seq<string>, a: seq<int>, b: seq<int>, n: nat)
    requires n <= |keys|
    requires forall j | 0 <= j < n :: j in a <==> j in b
    ensures Slots(keys, a, n) == Slots(keys, b, n)
  {
    if n > 0 {
      SlotsIgnoreLaterPositions(keys, a, b, n - 1);
    }
  }

  /** The assembly loop of `Login`: walk the choice positions with a second
      cursor into `matched`, writing `_` for every position and the position's
      key when it is the matched index under the cursor. */
  method AssembleCaptchaKey(kcsess: string, keys: seq<string>, matched: seq<int>) returns (key: string)
    ensures key == CaptchaKey(kcsess, keys, matched[..ConsumedCount(matched, |keys|)])
  {
    var cursor := 0;
    key := "k_" + kcsess;
    assert |matched| > 0 ==> matched[..1][0] == matched[0];
    var i := 0;
    while i < |keys|
      invariant 0 <= i <= |keys|
      invariant cursor <= |matched|
      invariant AscendingIn(matched[..cursor], 0, i)
      invariant cursor == |matched| || !AscendingIn(matched[..cursor + 1], 0, i)
      invariant key == "k_" + kcsess + Slots(keys, matched[..cursor], i)
    {
      key := key + "_";
      if |matched| > cursor && matched[cursor] == i {
        key := key + keys[i];
        ConsumeStep(keys, matched, cursor, i);
        cursor := cursor + 1;
      } else {
        SkipStep(keys, matched, cursor, i);
      }
      i := i + 1;
    }
    MaximalPrefixUnique(matched, |keys|, cursor, ConsumedCount(matched, |keys|));
  }

  /** The cursor consumes position `i`: the slot gets the key, and the consumed
      prefix stays ascending and maximal for one more position. */
  lemma ConsumeStep(keys: seq<string>, matched: seq<int>, cursor: nat, i: nat)
    requires i < |keys|
    requires cursor < |matched| && matched[cursor] == i
    requires AscendingIn(matched[..cursor], 0, i)
    ensures AscendingIn(matched[..cursor + 1], 0, i + 1)
    ensures cursor + 1 == |matched| || !AscendingIn(matched[..cursor + 2], 0, i + 1)
    ensures Slots(keys, matched[..cursor + 1], i + 1) == Slots(keys, matched[..cursor], i) + "_" + keys[i]
  {
    var before := matched[..cursor];
    assert matched[..cursor + 1] == before + [i];
    SlotsIgnoreLaterPositions(keys, before, matched[..cursor + 1], i);
    if cursor + 1 < |matched| {
      NoRoomAfter(matched[..cursor + 2], i);
    }
  }

  /** The cursor does not consume position `i`: the slot stays empty. */
  lemma SkipStep(keys: seq<string>, matched: seq<int>, cursor: nat, i: nat)
    requires i < |keys|
    requires cursor <= |matched|
    requires AscendingIn(matched[..cursor], 0, i)
    requires cursor == |matched| || !AscendingIn(matched[..cursor + 1], 0, i)
    requires !(|matched| > cursor && matched[cursor] == i)
    ensures AscendingIn(matched[..cursor], 0, i + 1)
    ensures cursor == |matched| || !AscendingIn(matched[..cursor + 1], 0, i + 1)
    ensures Slots(keys, matched[..cursor], i + 1) == Slots(keys, matched[..cursor], i) + "_"
  {
    ExtendBound(matched, cursor, i);
    assert i !in matched[..cursor];
  }

  /** A position that the cursor does not consume leaves the consumed prefix
      maximal when one more position has been walked. */
  lemma ExtendBound(matched: seq<int>, cursor: nat, i: int)
    requires cursor <= |matched|
    requires AscendingIn(matched[..cursor], 0, i)
    requires cursor == |matched| || !AscendingIn(matched[..cursor + 1], 0, i)
    requires !(|matched| > cursor && matched[cursor] == i)
    ensures AscendingIn(matched[..cursor], 0, i + 1)
    ensures cursor == |matched| || !AscendingIn(matched[..cursor + 1], 0, i + 1)
  {
  }

  /** Once index `i` has been consumed, no further index fits below `i + 1`. */
  lemma NoRoomAfter(p: seq<int>, i: int)
    requires |p| >= 2 && p[|p| - 2] == i
    ensures !AscendingIn(p, 0, i + 1)
  {
    assert Captcha.StrictlyAscending(p) ==> p[|p| - 2] < p[|p| - 1];
  }

  /** The solver's answer is ascending and below the number of positions, so
      the cursor consumes all of it. */
  lemma AscendingAnswerFullyConsumed(matched: seq<int>, positions: nat)
    requires AscendingIn(matched, 0, positions)
    ensures ConsumedCount(matched, positions) == |matched|
  {
    var c := ConsumedCount(matched, positions);
    assert matched[..|matched|] == matched;
    MaximalPrefixUnique(matched, positions, c, |matched|);
  }

  function Underscores(n: nat): (s: string)
    ensures |s| == n
    ensures forall i | 0 <= i < n :: s[i] == '_'
  {
    seq(n, _ => '_')
  }

  /** With no matched index the key is `k_{kcsess}` and one `_` per position. */
  lemma {:induction false} NoMatchKey(kcsess: string, keys: seq<string>)
    ensures CaptchaKey(kcsess, keys, []) == "k_" + kcsess + Underscores(|keys|)
  {
    NoMatchSlots(keys, |keys|);
  }

  lemma {:induction false} NoMatchSlots(keys: seq<string>, n: nat)
    requires n <= |keys|
    ensures Slots(keys, [], n) == Underscores(n)
  {
    if n > 0 {
      NoMatchSlots(keys, n - 1);
    }
  }

  /** Total length of the keys at the positions of `taken`. */
  function KeysLength(keys: seq<string>, taken: seq<int>): nat
    requires forall k | 0 <= k < |taken| :: 0 <= taken[k] < |keys|
  {
    if |taken| == 0 then 0
    else KeysLength(keys, taken[..|taken| - 1]) + |keys[taken[|taken| - 1]]|
  }

  /** The key holds the prefix, one separator per position, and the text of
      every matched key. */
  lemma CaptchaKeyLength(kcsess: string, keys: seq<string>, taken: seq<int>)
    requires AscendingIn(taken, 0, |keys|)
    ensures |CaptchaKey(kcsess, keys, taken)| == 2 + |kcsess| + |keys| + KeysLength(keys, taken)
  {
    SlotsLength(keys, taken, |keys|);
  }

  lemma {:induction false} SlotsLength(keys: seq<string>, taken: seq<int>, n: nat)
    requires n <= |keys|
    requires AscendingIn(taken, 0, n)
    ensures |Slots(keys, taken, n)| == n + KeysLength(keys, taken)
  {
    if n > 0 {
      if |taken| > 0 && taken[|taken| - 1] == n - 1 {
        var init := taken[..|taken| - 1];
        DropLastPosition(taken, n);
        SlotsIgnoreLaterPositions(keys, taken, init, n - 1);
        SlotsLength(keys, init, n - 1);
        assert n - 1 in taken;
      } else {
        NotLastPosition(taken, n);
        SlotsLength(keys, taken, n - 1);
      }
    }
  }

  /** When the last index is the last position, the other indices lie below it. */
  lemma DropLastPosition(taken: seq<int>, n: int)
    requires AscendingIn(taken, 0, n)
    requires |taken| > 0 && taken[|taken| - 1] == n - 1
    ensures AscendingIn(taken[..|taken| - 1], 0, n - 1)
    ensures forall j | 0 <= j < n - 1 :: j in taken <==> j in taken[..|taken| - 1]
  {
    var init := taken[..|taken| - 1];
    assert taken == init + [n - 1];
    forall k | 0 <= k < |init|
      ensures init[k] < n - 1
    {
      assert taken[k] < taken[|taken| - 1];
    }
  }

  /** When the last position is not the last index, every index lies below it. */
  lemma NotLastPosition(taken: seq<int>, n: int)
    requires AscendingIn(taken, 0, n)
    requires !(|taken| > 0 && taken[|taken| - 1] == n - 1)
    ensures AscendingIn(taken, 0, n - 1)
    ensures n - 1 !in taken
  {
    forall k | 0 <= k < |taken|
      ensures taken[k] < n - 1
    {
      assert taken[k] <= taken[|taken| - 1];
    }
  }

  /** The key of a three-choice captcha whose first and third pictures match. */
  lemma ThreeChoiceExample()
    ensures CaptchaKey("ABC", ["k1", "k2", "k3"], [0, 2]) == "k_ABC_k1__k3"
  {
    var keys := ["k1", "k2", "k3"];
    var taken := [0, 2];
    assert 0 in taken && 1 !in taken && 2 in taken;
    assert Slots(keys, taken, 1) == "_k1";
    assert Slots(keys, taken, 2) == "_k1_";
    assert Slots(keys, taken, 3) == "_k1__k3";
  }

  /** Five choices of which only the last matches: four empty slots, then the
      last slot holding its key (five separators in all). */
  lemma LastOfFiveExample(keys: seq<string>)
    requires |keys| == 5
    ensures CaptchaKey("s1", keys, [4]) == "k_s1_____" + keys[4]
  {
    var taken := [4];
    assert 0 !in taken && 1 !in taken && 2 !in taken && 3 !in taken && 4 in taken;
    assert Slots(keys, taken, 1) == "_";
    assert Slots(keys, taken, 2) == "__";
    assert Slots(keys, taken, 3) == "___";
    assert Slots(keys, taken, 4) == "____";
    assert Slots(keys, taken, 5) == "_____" + keys[4];
    assert "k_" + "s1" + ("_____" + keys[4]) == "k_s1_____" + keys[4];
  }

  // ---------------------------------------------------------------------
  // The challenge step of Login
  // ---------------------------------------------------------------------

  /** The fields `ParseKcaptchaJson` reads from the challenge payload;
      `None` is a JSON `null`. */
  datatype Challenge = Challenge(kcsess: Option<string>, correctPic: Option<string>, choices: seq<Option<string>>)

  /** String interpolation writes a `null` as nothing. */
  function Interpolated(s: Option<string>): string
  {
    if s.None? then "" else s.value
  }

  /** The first callback of `Login`, from the parsed challenge to the answer
      key. `main` is the downloaded reference picture and `candidates` the
      five downloaded choice pictures. Fewer than five usable choice keys make
      the solver index past its URL array, which throws. */
  method SolveChallenge(challenge: Challenge, main: Captcha.Image, candidates: seq<Option<Captcha.Image>>)
    returns (r: Outcome<string>)
    requires |candidates| == Captcha.SubCharacterImageCount
    ensures |FilterChoiceKeys(challenge.choices)| < Captcha.SubCharacterImageCount <==> r.Threw?
    ensures r.Failed? <==>
      && |FilterChoiceKeys(challenge.choices)| >= Captcha.SubCharacterImageCount
      && (Captcha.MainCharacterType(main) == Captcha.Unknown || !Captcha.AllPresent(candidates))
    ensures r.Done? ==>
      && Captcha.AllPresent(candidates)
      && Captcha.MainCharacterType(main) != Captcha.Unknown
      && r.value == CaptchaKey(Interpolated(challenge.kcsess), FilterChoiceKeys(challenge.choices),
                               Captcha.MatchingIndices(Captcha.MainCharacterType(main), Captcha.Present(candidates)))
  {
    var keys := FilterChoiceKeys(challenge.choices);
    if |keys| < Captcha.SubCharacterImageCount {
      return Threw;
    }
    var matched := Captcha.SolveProblem(main, candidates);
    if matched.None? {
      return Failed;
    }
    var key := AssembleCaptchaKey(Interpolated(challenge.kcsess), keys, matched.value);
    AscendingAnswerFullyConsumed(matched.value, |keys|);
    assert matched.value[..|matched.value|] == matched.value;
    r := Done(key);
  }

  // ---------------------------------------------------------------------
  // Login result
  // ---------------------------------------------------------------------

  datatype ErrorCode = Success | Failure | InvalidEmailOrPassword

  /** The login callback's mapping of the response's `fail_code`. */
  function LoginResult(failCode: Option<string>): (e: ErrorCode)
    ensures e == Success <==> TryParseInt32(failCode) == Some(0)
    ensures e == InvalidEmailOrPassword <==> TryParseInt32(failCode) == Some(200)
  {
    match TryParseInt32(failCode)
    case Some(code) => if code == 0 then Success else if code == 200 then InvalidEmailOrPassword else Failure
    case None => Failure
  }

  /** For every code the server can send as a decimal number: 0 is success,
      200 is a credentials error, anything else a failure. */
  lemma LoginResultOfCode(code: int)
    requires InInt32(code)
    ensures LoginResult(Some(FormatInt(code))) ==
      if code == 0 then Success else if code == 200 then InvalidEmailOrPassword else Failure
  {
    FormatIntRoundTrip(code);
  }

  /** The response codes the program is written against. */
  lemma LoginResultExamples()
    ensures LoginResult(Some("0")) == Success
    ensures LoginResult(Some("200")) == InvalidEmailOrPassword
    ensures LoginResult(Some("77")) == Failure
  {
    assert FormatInt(0) == "0";
    LoginResultOfCode(0);
    assert FormatNat(2) == "2";
    assert FormatNat(20) == "20";
    assert FormatInt(200) == "200";
    LoginResultOfCode(200);
    assert FormatNat(7) == "7";
    assert FormatInt(77) == "77";
    LoginResultOfCode(77);
  }

  /** Text with no digit at all, and a `null` code, are failures. */
  lemma LoginResultNonNumeric(failCode: string)
    requires forall i | 0 <= i < |failCode| :: !IsDigit(failCode[i])
    ensures LoginResult(Some(failCode)) == Failure
    ensures LoginResult(None) == Failure
  {
    NoDigitNoParse(failCode);
  }

  // ---------------------------------------------------------------------
  // DoCardGame: page scraping and form body
  // ---------------------------------------------------------------------

  const TokenMarker: string := "\"id_initial_token"
  const TokenValuePrefix: string := "value=\""
  const CTypeMarker: string := "c_type"
  const CTypeValuePrefix: string := "value="

  predicate Occurs(text: string, pat: string)
  {
    exists i | 0 <= i <= |text| :: OccursAt(text, pat, i)
  }

  /** One field of the page: find the first `marker`, then the first
      `valuePrefix` after it, and take the text from there up to the next
      `terminator`. An absent marker is the program's `Failure`. The
      `valuePrefix` search is not checked: when it finds nothing the value
      starts at offset `-1 + |valuePrefix|`. A missing terminator gives a
      negative `Substring` length, which throws. */
  function ScrapeField(html: string, marker: string, valuePrefix: string, terminator: char): (r: Outcome<string>)
    ensures r.Failed? <==> !Occurs(html, marker)
    ensures r.Done? ==> terminator !in r.value
    ensures r.Done? ==> exists s :: OccursAt(html, r.value + [terminator], s)
  {
    var m := IndexOf(html, marker, 0);
    if m == -1 then Failed
    else
      var start := IndexOf(html, valuePrefix, m) + |valuePrefix|;
      if start < 0 || start > |html| then Threw
      else
        var end := IndexOf(html, [terminator], start);
        if end == -1 then Threw
        else
          assert OccursAt(html, marker, m);
          ValueEndsAtTerminator(html, terminator, start, end);
          Done(html[start..end])
  }

  /** The text from `start` up to the first `terminator` at or after it holds
      no terminator and is followed by one. */
  lemma ValueEndsAtTerminator(html: string, terminator: char, start: int, end: int)
    requires 0 <= start <= end < |html|
    requires OccursAt(html, [terminator], end)
    requires forall i | start <= i < end :: !OccursAt(html, [terminator], i)
    ensures terminator !in html[start..end]
    ensures OccursAt(html, html[start..end] + [terminator], start)
  {
    var v := html[start..end];
    forall k | 0 <= k < |v|
      ensures v[k] != terminator
    {
      assert v[k] == html[start + k];
      assert html[start + k..start + k + 1] == [html[start + k]];
      assert !OccursAt(html, [terminator], start + k);
    }
    assert html[end..end + 1][0] == html[end];
    assert html[start..end + 1] == v + [terminator];
  }

  /** On a well-formed page the field is the text between the value prefix that
      follows the marker and the next terminator. */
  lemma ScrapeFieldWellFormed(html: string, marker: string, valuePrefix: string, terminator: char, m: nat, q: nat, e: nat)
    requires FirstAt(html, marker, 0, m)
    requires FirstAt(html, valuePrefix, m, q)
    requires TerminatorAt(html, terminator, q + |valuePrefix|, e)
    ensures ScrapeField(html, marker, valuePrefix, terminator) == Done(html[q + |valuePrefix|..e])
  {
    FirstOccurrenceIsIndexOf(html, marker, 0, m);
    FirstOccurrenceIsIndexOf(html, valuePrefix, m, q);
    var start := q + |valuePrefix|;
    assert 0 <= start <= |html| by {
      assert OccursAt(html, valuePrefix, q);
    }
    TerminatorIsIndexOf(html, terminator, start, e);
    ScrapeFieldFromIndices(html, marker, valuePrefix, terminator, m, start, e);
  }

  /** `ScrapeField` in terms of the three searches it makes. */
  lemma ScrapeFieldFromIndices(html: string, marker: string, valuePrefix: string, terminator: char, m: nat, start: nat, e: nat)
    requires m <= |html| && IndexOf(html, marker, 0) == m
    requires start <= |html| && IndexOf(html, valuePrefix, m) + |valuePrefix| == start
    requires start <= e && IndexOf(html, [terminator], start) == e
    ensures ScrapeField(html, marker, valuePrefix, terminator) == Done(html[start..e])
  {
  }

  /** Position `e` holds the first `terminator` at or after `start`. */
  predicate TerminatorAt(html: string, terminator: char, start: int, e: int)
  {
    && 0 <= start <= e < |html|
    && html[e] == terminator
    && forall i | start <= i < e :: html[i] != terminator
  }

  /** The first terminator at or after `start` is what `IndexOf` finds. */
  lemma TerminatorIsIndexOf(html: string, terminator: char, start: nat, e: nat)
    requires TerminatorAt(html, terminator, start, e)
    ensures IndexOf(html, [terminator], start) == e
  {
    assert html[e..e + 1] == [terminator];
    forall i | start <= i < e
      ensures !OccursAt(html, [terminator], i)
    {
      assert html[i..i + 1] == [html[i]];
    }
    assert FirstAt(html, [terminator], start, e);
    FirstOccurrenceIsIndexOf(html, [terminator], start, e);
  }

  /** When no value prefix follows the marker, the field is read from offset
      `|valuePrefix| - 1`, whatever the page holds there. */
  lemma ScrapeFieldWithoutValuePrefix(html: string, marker: string, valuePrefix: string, terminator: char, m: nat, e: nat)
    requires |valuePrefix| > 0
    requires FirstAt(html, marker, 0, m)
    requires forall i | m <= i <= |html| :: !OccursAt(html, valuePrefix, i)
    requires TerminatorAt(html, terminator, |valuePrefix| - 1, e)
    ensures ScrapeField(html, marker, valuePrefix, terminator) == Done(html[|valuePrefix| - 1..e])
  {
    FirstOccurrenceIsIndexOf(html, marker, 0, m);
    TerminatorIsIndexOf(html, terminator, |valuePrefix| - 1, e);
    ScrapeFieldFromIndices(html, marker, valuePrefix, terminator, m, |valuePrefix| - 1, e);
  }

  /** `IndexOf` finds no terminator at or after `start` exactly when the rest
      of the page holds none. */
  lemma TerminatorAbsent(html: string, terminator: char, start: nat)
    requires start <= |html|
    ensures IndexOf(html, [terminator], start) == -1 <==> terminator !in html[start..]
  {
    if terminator in html[start..] {
      var k :| start <= k < |html| && html[k] == terminator;
      assert html[k..k + 1] == [terminator];
      assert OccursAt(html, [terminator], k);
    } else {
      forall i | start <= i <= |html|
        ensures !OccursAt(html, [terminator], i)
      {
        if i < |html| {
          assert html[i] in html[start..];
          assert html[i..i + 1][0] == html[i];
        }
      }
    }
  }

  /** Once the marker and a value prefix after it are found, the field throws
      exactly when no terminator follows the value start: `Substring` then
      gets a negative length. */
  lemma ScrapeFieldThrows(html: string, marker: string, valuePrefix: string, terminator: char, m: nat, q: nat)
    requires FirstAt(html, marker, 0, m)
    requires FirstAt(html, valuePrefix, m, q)
    ensures q + |valuePrefix| <= |html|
    ensures ScrapeField(html, marker, valuePrefix, terminator).Threw? <==> terminator !in html[q + |valuePrefix|..]
  {
    FirstOccurrenceIsIndexOf(html, marker, 0, m);
    FirstOccurrenceIsIndexOf(html, valuePrefix, m, q);
    assert OccursAt(html, valuePrefix, q);
    TerminatorAbsent(html, terminator, q + |valuePrefix|);
  }


  datatype CardGameFields = CardGameFields(token: string, ctype: string)

  /** The page callback of `DoCardGame`, up to the fields: the token first,
      then `c_type`. */
  function ScrapeCardGamePage(html: string): (r: Outcome<CardGameFields>)
    ensures !Occurs(html, TokenMarker) ==> r.Failed?
    ensures (ScrapeField(html, TokenMarker, TokenValuePrefix, '"').Done? && !Occurs(html, CTypeMarker)) ==> r.Failed?
    ensures r.Failed? ==> !Occurs(html, TokenMarker) || !Occurs(html, CTypeMarker)
    ensures r.Done? ==> '"' !in r.value.token && ';' !in r.value.ctype
    ensures r.Done? ==>
      && ScrapeField(html, TokenMarker, TokenValuePrefix, '"') == Done(r.value.token)
      && ScrapeField(html, CTypeMarker, CTypeValuePrefix, ';') == Done(r.value.ctype)
    ensures r.Threw? <==>
      || ScrapeField(html, TokenMarker, TokenValuePrefix, '"').Threw?
      || (ScrapeField(html, TokenMarker, TokenValuePrefix, '"').Done?
          && ScrapeField(html, CTypeMarker, CTypeValuePrefix, ';').Threw?)
  {
    match ScrapeField(html, TokenMarker, TokenValuePrefix, '"')
    case Failed => Failed
    case Threw => Threw
    case Done(token) =>
      match ScrapeField(html, CTypeMarker, CTypeValuePrefix, ';')
      case Failed => Failed
      case Threw => Threw
      case Done(ctype) => Done(CardGameFields(token, ctype))
  }

  /** The token field of a well-formed page: its marker at `m`, its value
    prefix at `q` and its closing quote at `e`. */
  predicate TokenFieldAt(html: string, m: int, q: int, e: int)
  {
    && FirstAt(html, TokenMarker, 0, m)
    && FirstAt(html, TokenValuePrefix, m, q)
    && TerminatorAt(html, '"', q + |TokenValuePrefix|, e)
  }

  /** The `c_type` field of a well-formed page: its marker at `m`, its value
      prefix at `q` and its closing `;` at `e`. */
  predicate CTypeFieldAt(html: string, m: int, q: int, e: int)
  {
    && FirstAt(html, CTypeMarker, 0, m)
    && FirstAt(html, CTypeValuePrefix, m, q)
    && TerminatorAt(html, ';', q + |CTypeValuePrefix|, e)
  }

  /** On a well-formed page the callback reads the token between `value="`
      and the next `"`, and `c_type` between `value=` and the next `;`. */
  lemma ScrapeCardGamePageWellFormed(html: string, m1: nat, q1: nat, e1: nat, m2: nat, q2: nat, e2: nat)
    requires TokenFieldAt(html, m1, q1, e1)
    requires CTypeFieldAt(html, m2, q2, e2)
    ensures ScrapeCardGamePage(html) == Done(CardGameFields(html[q1 + 7..e1], html[q2 + 6..e2]))
  {
    ScrapeFieldWellFormed(html, TokenMarker, TokenValuePrefix, '"', m1, q1, e1);
    ScrapeFieldWellFormed(html, CTypeMarker, CTypeValuePrefix, ';', m2, q2, e2);
  }

  /** With both markers and value prefixes present, the callback throws
      exactly when a closing `"` or `;` is missing after a value start. */
  lemma ScrapeCardGamePageThrows(html: string, m1: nat, q1: nat, m2: nat, q2: nat)
    requires FirstAt(html, TokenMarker, 0, m1) && FirstAt(html, TokenValuePrefix, m1, q1)
    requires FirstAt(html, CTypeMarker, 0, m2) && FirstAt(html, CTypeValuePrefix, m2, q2)
    ensures q1 + 7 <= |html| && q2 + 6 <= |html|
    ensures ScrapeCardGamePage(html).Threw? <==> '"' !in html[q1 + 7..] || ';' !in html[q2 + 6..]
  {
    ScrapeFieldThrows(html, TokenMarker, TokenValuePrefix, '"', m1, q1);
    ScrapeFieldThrows(html, CTypeMarker, CTypeValuePrefix, ';', m2, q2);
  }

  const CardGameBodyInfix: string := "&c_id=0&t_id="

  /** The form body posted to the card-save endpoint. */
  function CardGameBody(f: CardGameFields): (b: string)
    ensures |b| == 7 + |f.ctype| + |CardGameBodyInfix| + |f.token|
    ensures b[..7] == "c_type=" && b[7..7 + |f.ctype|] == f.ctype
    ensures b[7 + |f.ctype|..7 + |f.ctype| + |CardGameBodyInfix|] == CardGameBodyInfix
    ensures b[|b| - |f.token|..] == f.token
  {
    "c_type=" + f.ctype + CardGameBodyInfix + f.token
  }

  /** Reads a card-game form body back: `c_type` up to the first `&c_id=0&t_id=`,
      then `t_id`. */
  function ReadCardGameBody(body: string): Option<CardGameFields>
  {
    if |body| < 7 || body[..7] != "c_type=" then None
    else
      var k := IndexOf(body, CardGameBodyInfix, 7);
      if k == -1 then None
      else Some(CardGameFields(body[k + |CardGameBodyInfix|..], body[7..k]))
  }

  /** The body names both fields unambiguously as long as `c_type` has no `&`. */
  lemma CardGameBodyRoundTrip(f: CardGameFields)
    requires '&' !in f.ctype
    ensures ReadCardGameBody(CardGameBody(f)) == Some(f)
  {
    var prefix := "c_type=";
    var body := CardGameBody(f);
    var k := 7 + |f.ctype|;
    assert body == prefix + f.ctype + CardGameBodyInfix + f.token;
    assert body[..7] == prefix;
    assert body[7..k] == f.ctype;
    assert body[k..k + |CardGameBodyInfix|] == CardGameBodyInfix;
    assert body[k + |CardGameBodyInfix|..] == f.token;
    forall i | 7 <= i < k
      ensures !OccursAt(body, CardGameBodyInfix, i)
    {
      assert body[i] == f.ctype[i - 7];
      assert body[i] != CardGameBodyInfix[0];
    }
    assert FirstAt(body, CardGameBodyInfix, 7, k);
    FirstOccurrenceIsIndexOf(body, CardGameBodyInfix, 7, k);
  }

  lemma CardGameBodyReadBack(f: CardGameFields)
    ensures '&' !in f.ctype ==> ReadCardGameBody(CardGameBody(f)) == Some(f)
  {
    if '&' !in f.ctype {
      CardGameBodyRoundTrip(f);
    }
  }

  /** The page callback of `DoCardGame`, up to the body it posts. */
  function CardGameRequestBody(html: string): (r: Outcome<string>)
    ensures r.Failed? <==> ScrapeCardGamePage(html).Failed?
    ensures r.Done? <==> ScrapeCardGamePage(html).Done?
    ensures r.Done? && '&' !in ScrapeCardGamePage(html).value.ctype ==>
      ReadCardGameBody(r.value) == Some(ScrapeCardGamePage(html).value)
  {
    match ScrapeCardGamePage(html)
    case Failed => Failed
    case Threw => Threw
    case Done(f) =>
      CardGameBodyReadBack(f);
      Done(CardGameBody(f))
  }

  /** On a well-formed page the posted body is
      `c_type=<c_type>&c_id=0&t_id=<token>` with the two scraped texts. */
  lemma CardGameRequestBodyWellFormed(html: string, m1: nat, q1: nat, e1: nat, m2: nat, q2: nat, e2: nat)
    requires TokenFieldAt(html, m1, q1, e1)
    requires CTypeFieldAt(html, m2, q2, e2)
    ensures CardGameRequestBody(html) == Done("c_type=" + html[q2 + 6..e2] + "&c_id=0&t_id=" + html[q1 + 7..e1])
  {
    ScrapeCardGamePageWellFormed(html, m1, q1, e1, m2, q2, e2);
  }

  // ---------------------------------------------------------------------
  // Request headers
  // ---------------------------------------------------------------------

  const CommonHeader: Network.Headers := map[
    "Content-Type" := "application/json",
    "Keep-Alive" := "true",
    "Upgrade-Insecure-Requests" := "1",
    "User-Agent" := "Mozilla/5.0 (Windows NT 10.0; Win64; x64) AppleWebKit/537.36 (KHTML, like Gecko) Chrome/70.0.3538.102 Safari/537.36",
    "Accept" := "text/html,application/xhtml+xml,application/xml;q=0.9,image/webp,image/apng,*/*;q=0.8",
    "Accept-Encoding" := "sdch",
    "Accept-Language" := "ko-KR,ko;q=0.9,en-US;q=0.8,en;q=0.7",
    "Host" := "p.eagate.573.jp"
  ]

  /** The common header with the card-save overrides. */
  const CardSaveHeader: Network.Headers := CommonHeader[
    "Content-Type" := "application/x-www-form-urlencoded"][
    "Referer" := "https://p.eagate.573.jp/game/bemani/wbr2020/01/card.html"]

  /** The card-save request is form-encoded, keeps the connection alive, and
      carries the card page as referer and the common host. */
  lemma CardSaveRequestSettings(request: Network.RequestSettings)
    ensures var r := Network.ParseHeader(request, Some(CardSaveHeader));
      && r.contentType == Some("application/x-www-form-urlencoded")
      && r.keepAlive
      && r.host == "p.eagate.573.jp"
      && r.referer == Some("https://p.eagate.573.jp/game/bemani/wbr2020/01/card.html")
  {
  }
}
