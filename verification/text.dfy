/** The .NET string primitives the program relies on: ordinal `IndexOf`,
    `Substring` bounds, and `int.TryParse` with its default number style. */
module Text {
  import opened Basics

  // ---------------------------------------------------------------------
  // Substring search
  // ---------------------------------------------------------------------

  /** `pat` occurs in `text` starting at position `i`. */
  predicate OccursAt(text: string, pat: string, i: int)
  {
    0 <= i && i + |pat| <= |text| && text[i..i + |pat|] == pat
  }

  /** `string.IndexOf(pat, start)` (and `IndexOf(char, start)` with a one-letter
      `pat`): the first position at or after `start` where `pat` occurs, or -1.
      .NET throws when `start` exceeds the length, so callers must rule that out. */
  function IndexOf(text: string, pat: string, start: nat): (r: int)
    requires start <= |text|
    ensures r == -1 || (start <= r && OccursAt(text, pat, r))
    ensures r == -1 <==> forall i | start <= i <= |text| :: !OccursAt(text, pat, i)
    ensures forall i | start <= i < r :: !OccursAt(text, pat, i)
    decreases |text| - start
  {
    if OccursAt(text, pat, start) then start
    else if start == |text| then -1
    else IndexOf(text, pat, start + 1)
  }

  /** Position `k` holds the first occurrence of `pat` at or after `start`. */
  predicate FirstAt(text: string, pat: string, start: int, k: int)
  {
    && start <= k <= |text|
    && OccursAt(text, pat, k)
    && forall i | start <= i < k :: !OccursAt(text, pat, i)
  }

  /** A first occurrence is what `IndexOf` finds. */
  lemma FirstOccurrenceIsIndexOf(text: string, pat: string, start: nat, k: int)
    requires FirstAt(text, pat, start, k)
    ensures IndexOf(text, pat, start) == k
  {
  }

  // ---------------------------------------------------------------------
  // int.TryParse (NumberStyles.Integer, Int32)
  // ---------------------------------------------------------------------

  const Int32Min: int := -0x8000_0000
  const Int32Max: int := 0x7FFF_FFFF

  predicate InInt32(v: int)
  {
    Int32Min <= v <= Int32Max
  }

  /** The white-space characters `NumberStyles.AllowLeadingWhite` and
      `AllowTrailingWhite` accept: U+0009 to U+000D and U+0020. */
  predicate IsWhite(c: char)
  {
    c == ' ' || '\t' <= c <= '\r'
  }

  predicate IsDigit(c: char)
  {
    '0' <= c <= '9'
  }

  predicate AllDigits(s: string)
  {
    forall i | 0 <= i < |s| :: IsDigit(s[i])
  }

  function TrimStart(s: string): (t: string)
    ensures |t| <= |s|
    ensures t == s[|s| - |t|..]
    ensures |t| > 0 ==> !IsWhite(t[0])
  {
    if |s| > 0 && IsWhite(s[0]) then TrimStart(s[1..]) else s
  }

  function TrimEnd(s: string): (t: string)
    ensures |t| <= |s|
    ensures t == s[..|t|]
    ensures |t| > 0 ==> !IsWhite(t[|t| - 1])
  {
    if |s| > 0 && IsWhite(s[|s| - 1]) then TrimEnd(s[..|s| - 1]) else s
  }

  function Trim(s: string): string
  {
    TrimEnd(TrimStart(s))
  }

  /** The value of a run of decimal digits, most significant first. */
  function DigitsValue(ds: string): nat
    requires AllDigits(ds)
  {
    if |ds| == 0 then 0
    else DigitsValue(ds[..|ds| - 1]) * 10 + (ds[|ds| - 1] as int - '0' as int)
  }

  /** The sign-and-digits part of `int.TryParse`, on already trimmed text. */
  function ParseSignedDigits(t: string): (r: Option<int>)
    ensures r.Some? ==> InInt32(r.value)
  {
    var negative := |t| > 0 && t[0] == '-';
    var digits := if |t| > 0 && (t[0] == '+' || t[0] == '-') then t[1..] else t;
    if |digits| == 0 || !AllDigits(digits) then None
    else
      var magnitude: int := DigitsValue(digits);
      var v := if negative then -magnitude else magnitude;
      if InInt32(v) then Some(v) else None
  }

  /** `int.TryParse(s, out v)`: surrounding white space, an optional sign and at
      least one digit, whose value must fit in 32 bits. A `null` string fails. */
  function TryParseInt32(s: Option<string>): (r: Option<int>)
    ensures r.Some? ==> s.Some? && InInt32(r.value)
  {
    if s.None? then None else ParseSignedDigits(Trim(s.value))
  }

  // ---------------------------------------------------------------------
  // Decimal rendering, the inverse of TryParseInt32
  // ---------------------------------------------------------------------

  function DigitChar(d: nat): char
    requires d < 10
  {
    ('0' as int + d) as char
  }

  /** The shortest decimal rendering of `n` (no sign, no leading zero). */
  function FormatNat(n: nat): (s: string)
    ensures |s| > 0 && AllDigits(s)
  {
    if n < 10 then [DigitChar(n)] else FormatNat(n / 10) + [DigitChar(n % 10)]
  }

  /** `Int32.ToString()` under the invariant culture. */
  function FormatInt(n: int): string
  {
    if n < 0 then "-" + FormatNat(-n) else FormatNat(n)
  }

  lemma {:induction false} DigitsValueOfFormatNat(n: nat)
    ensures DigitsValue(FormatNat(n)) == n
  {
    if n >= 10 {
      var s := FormatNat(n);
      assert s[..|s| - 1] == FormatNat(n / 10);
      DigitsValueOfFormatNat(n / 10);
    }
  }

  lemma TrimKeepsUnpadded(s: string)
    requires |s| > 0 && !IsWhite(s[0]) && !IsWhite(s[|s| - 1])
    ensures Trim(s) == s
  {
  }

  /** Rendering a 32-bit value in decimal and parsing it back gives the value. */
  lemma FormatIntRoundTrip(n: int)
    requires InInt32(n)
    ensures TryParseInt32(Some(FormatInt(n))) == Some(n)
  {
    var s := FormatInt(n);
    var f := FormatNat(if n < 0 then -n else n);
    DigitsValueOfFormatNat(if n < 0 then -n else n);
    assert !IsWhite(f[|f| - 1]) by { assert IsDigit(f[|f| - 1]); }
    assert !IsWhite(f[0]) by { assert IsDigit(f[0]); }
    if n < 0 {
      assert s[1..] == f;
    }
    TrimKeepsUnpadded(s);
  }

  /** A string without any decimal digit never parses, whatever its sign or
      white space. */
  lemma NoDigitNoParse(s: string)
    requires forall i | 0 <= i < |s| :: !IsDigit(s[i])
    ensures TryParseInt32(Some(s)) == None
  {
    var t := Trim(s);
    assert t == TrimStart(s)[..|t|];
    if |t| > 1 {
      assert t[1] == s[|s| - |TrimStart(s)| + 1];
    } else if |t| == 1 {
      assert t[0] == s[|s| - |TrimStart(s)|];
    }
  }

  lemma {:induction false} TrimStartAppendWhite(s: string, c: char)
    requires IsWhite(c)
    ensures TrimStart(s) == [] ==> TrimStart(s + [c]) == []
    ensures TrimStart(s) != [] ==> TrimStart(s + [c]) == TrimStart(s) + [c]
    decreases |s|
  {
    if |s| == 0 {
      assert [c][1..] == [];
    } else if IsWhite(s[0]) {
      assert (s + [c])[1..] == s[1..] + [c];
      TrimStartAppendWhite(s[1..], c);
    }
  }

  lemma TrimEndAppendWhite(s: string, c: char)
    requires IsWhite(c)
    ensures TrimEnd(s + [c]) == TrimEnd(s)
  {
    assert (s + [c])[..|s|] == s;
  }

  /** Leading and trailing white space do not change what parses. */
  lemma WhiteSpaceIgnored(s: string, c: char)
    requires IsWhite(c)
    ensures TryParseInt32(Some([c] + s)) == TryParseInt32(Some(s))
    ensures TryParseInt32(Some(s + [c])) == TryParseInt32(Some(s))
  {
    assert ([c] + s)[1..] == s;
    assert Trim([c] + s) == Trim(s);
    TrimStartAppendWhite(s, c);
    if TrimStart(s) != [] {
      TrimEndAppendWhite(TrimStart(s), c);
    }
    assert Trim(s + [c]) == Trim(s);
  }
}
