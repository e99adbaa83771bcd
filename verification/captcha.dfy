/** The e-amusement captcha solver (`EAmusementCaptchaSolver`): classify the
    reference picture by sampling one pixel per character, then keep the
    candidate pictures that show that character's colour at any of five
    character-specific points. Bitmaps are abstracted to their pixel function;
    downloading and decoding them is outside the model. */
module Captcha {
  import opened Basics

  /** An ARGB colour. `Bitmap.GetPixel` and `Color.FromArgb` both give unnamed
      colours, for which `==` compares exactly these four channels. */
  datatype Color = Argb(a: byte, r: byte, g: byte, b: byte)

  datatype Point = Point(x: int, y: int)

  /** A decoded bitmap, seen through `GetPixel`. */
  type Image = Point -> Color

  datatype Character = Unknown | Bomberman | Girl | Goemon | Rabbit | Robot

  const RabbitColor: Color := Argb(255, 0, 220, 170)
  const RobotColor: Color := Argb(255, 40, 90, 180)
  const GirlColor: Color := Argb(255, 240, 90, 145)
  const BombermanColor: Color := Argb(255, 255, 225, 170)
  const GoemonColor: Color := Argb(255, 25, 10, 140)

  // ---------------------------------------------------------------------
  // Classification of the reference picture
  // ---------------------------------------------------------------------

  /** One row of the classification table: the pixel to sample, the colour it
      must have, and the character it then identifies. */
  datatype Identifier = Identifier(at: Point, color: Color, character: Character)

  /** The classification table, in priority order. */
  const IdentifierTable: seq<Identifier> := [
    Identifier(Point(42, 19), BombermanColor, Bomberman),
    Identifier(Point(55, 8), GirlColor, Girl),
    Identifier(Point(55, 20), GoemonColor, Goemon),
    Identifier(Point(48, 11), RabbitColor, Rabbit),
    Identifier(Point(53, 22), RobotColor, Robot)
  ]

  predicate Shows(image: Image, e: Identifier)
  {
    image(e.at) == e.color
  }

  /** Row `k` is the first row of `table` whose pixel test succeeds. */
  predicate FirstShown(image: Image, table: seq<Identifier>, k: int)
  {
    && 0 <= k < |table|
    && Shows(image, table[k])
    && forall j | 0 <= j < k :: !Shows(image, table[j])
  }

  predicate NamesCharacters(table: seq<Identifier>)
  {
    forall i | 0 <= i < |table| :: table[i].character != Unknown
  }

  /** The `foreach` over a classification table: the character of the first row
      whose pixel matches, or `Unknown` when none does. */
  function FirstMatch(image: Image, table: seq<Identifier>): (c: Character)
    requires NamesCharacters(table)
    ensures c == Unknown <==> forall i | 0 <= i < |table| :: !Shows(image, table[i])
    ensures c != Unknown ==> exists k :: FirstShown(image, table, k) && table[k].character == c
  {
    if |table| == 0 then Unknown
    else if Shows(image, table[0]) then
      assert FirstShown(image, table, 0);
      table[0].character
    else
      var c := FirstMatch(image, table[1..]);
      if c != Unknown then
        var k :| FirstShown(image, table[1..], k) && table[1..][k].character == c;
        assert FirstShown(image, table, k + 1);
        c
      else
        c
  }

  /** `GetMainCharacterType`: the reference picture's character, by the
      classification table. */
  function MainCharacterType(image: Image): (c: Character)
    ensures c == Unknown <==> forall i | 0 <= i < |IdentifierTable| :: !Shows(image, IdentifierTable[i])
    ensures c != Unknown ==> exists k :: FirstShown(image, IdentifierTable, k) && IdentifierTable[k].character == c
  {
    FirstMatch(image, IdentifierTable)
  }

  /** The reference picture is classified as row `k`'s character exactly when
      row `k` is the first row of the table whose pixel test succeeds. */
  lemma ClassifiedAsFirstShown(image: Image, k: int)
    requires 0 <= k < |IdentifierTable|
    ensures MainCharacterType(image) == IdentifierTable[k].character <==> FirstShown(image, IdentifierTable, k)
  {
    var c := MainCharacterType(image);
    if FirstShown(image, IdentifierTable, k) {
      assert c != Unknown;
      var k' :| FirstShown(image, IdentifierTable, k') && IdentifierTable[k'].character == c;
      assert k' == k;
    }
    if c == IdentifierTable[k].character {
      var k' :| FirstShown(image, IdentifierTable, k') && IdentifierTable[k'].character == c;
      assert k' == k;
    }
  }

  /** Priority: when the pixels of two rows both match, the earlier row wins. */
  lemma ClassificationPriority(image: Image, i: int, j: int)
    requires 0 <= i < j < |IdentifierTable|
    requires Shows(image, IdentifierTable[i]) && Shows(image, IdentifierTable[j])
    ensures MainCharacterType(image) != IdentifierTable[j].character
  {
    ClassifiedAsFirstShown(image, j);
  }

  // ---------------------------------------------------------------------
  // Matching the candidate pictures
  // ---------------------------------------------------------------------

  /** The points sampled in every candidate picture, and the colour sought. */
  datatype MatchCondition = MatchCondition(points: seq<Point>, color: Color)

  /** The dictionary `characterTypeMatchConditionTable`. It has no entry for
      `Unknown`: looking that up would throw. */
  function MatchConditionOf(c: Character): (m: MatchCondition)
    requires c != Unknown
    ensures |m.points| == 5
  {
    match c
    case Bomberman =>
      MatchCondition([Point(49, 9), Point(48, 34), Point(57, 32), Point(51, 20), Point(31, 29)], BombermanColor)
    case Girl =>
      MatchCondition([Point(41, 15), Point(39, 10), Point(45, 13), Point(50, 14), Point(42, 11)], GirlColor)
    case Goemon =>
      MatchCondition([Point(55, 20), Point(55, 20), Point(55, 20), Point(55, 20), Point(55, 20)], GoemonColor)
    case Rabbit =>
      MatchCondition([Point(81, 9), Point(55, 11), Point(38, 5), Point(31, 18), Point(69, 4)], RabbitColor)
    case Robot =>
      MatchCondition([Point(37, 54), Point(68, 32), Point(27, 45), Point(27, 49), Point(48, 45)], RobotColor)
  }

  /** Matching looks for the same colour that identified the character. */
  lemma MatchColorIsIdentifierColor(k: int)
    requires 0 <= k < |IdentifierTable|
    ensures IdentifierTable[k].character != Unknown
    ensures MatchConditionOf(IdentifierTable[k].character).color == IdentifierTable[k].color
  {
  }

  /** A candidate picture matches character `c` when at least one of the
      character's sample points has the character's colour. */
  predicate Matches(c: Character, image: Image)
    requires c != Unknown
  {
    var m := MatchConditionOf(c);
    exists j | 0 <= j < |m.points| :: image(m.points[j]) == m.color
  }

  /** For Goemon all five sample points coincide: one pixel decides. */
  lemma GoemonSinglePixel(image: Image)
    ensures Matches(Goemon, image) <==> image(Point(55, 20)) == GoemonColor
  {
    var m := MatchConditionOf(Goemon);
    if image(Point(55, 20)) == GoemonColor {
      assert image(m.points[0]) == m.color;
    }
  }

  predicate StrictlyAscending(s: seq<int>)
  {
    forall k, l | 0 <= k < l < |s| :: s[k] < s[l]
  }

  /** `GetMatchedSubCharacterIndices`: the indices of the matching candidates,
      in ascending order. */
  method GetMatchedSubCharacterIndices(c: Character, images: seq<Image>) returns (matched: seq<int>)
    requires c != Unknown
    ensures StrictlyAscending(matched)
    ensures forall k | 0 <= k < |matched| :: 0 <= matched[k] < |images|
    ensures forall i | 0 <= i < |images| :: i in matched <==> Matches(c, images[i])
  {
    var condition := MatchConditionOf(c);
    matched := [];
    var i := 0;
    while i < |images|
      invariant 0 <= i <= |images|
      invariant StrictlyAscending(matched)
      invariant forall k | 0 <= k < |matched| :: 0 <= matched[k] < i
      invariant forall m | 0 <= m < i :: m in matched <==> Matches(c, images[m])
    {
      var image := images[i];
      ghost var before := matched;
      var j := 0;
      while j < |condition.points|
        invariant 0 <= j <= |condition.points|
        invariant matched == before
        invariant forall k | 0 <= k < j :: image(condition.points[k]) != condition.color
      {
        if image(condition.points[j]) == condition.color {
          matched := matched + [i];
          break;
        }
        j := j + 1;
      }
      i := i + 1;
    }
  }

  /** Reference definition of the matching step: the indices of the matching
      pictures, in order. */
  function MatchingIndices(c: Character, images: seq<Image>): (r: seq<int>)
    requires c != Unknown
    ensures StrictlyAscending(r)
    ensures forall k | 0 <= k < |r| :: 0 <= r[k] < |images|
    ensures forall i | 0 <= i < |images| :: i in r <==> Matches(c, images[i])
  {
    if |images| == 0 then []
    else
      var n := |images| - 1;
      var prefix := MatchingIndices(c, images[..n]);
      assert forall i | 0 <= i < n :: images[..n][i] == images[i];
      prefix + (if Matches(c, images[n]) then [n] else [])
  }

  /** The contract of `GetMatchedSubCharacterIndices` fixes its result: two
      strictly ascending lists with the same members are equal. */
  lemma {:induction false} AscendingListsWithSameMembersAreEqual(s: seq<int>, t: seq<int>)
    requires StrictlyAscending(s) && StrictlyAscending(t)
    requires forall x :: x in s <==> x in t
    ensures s == t
  {
    if |s| > 0 {
      assert s[0] in s;
    }
    if |t| > 0 {
      assert t[0] in t;
    }
    if |s| > 0 && |t| > 0 {
      assert s[0] == t[0] by {
        assert s[0] in t && t[0] in s;
      }
      forall x
        ensures x in s[1..] <==> x in t[1..]
      {
        if x in s[1..] {
          assert x in t && x != t[0];
        }
        if x in t[1..] {
          assert x in s && x != s[0];
        }
      }
      AscendingListsWithSameMembersAreEqual(s[1..], t[1..]);
      assert s == [s[0]] + s[1..] && t == [t[0]] + t[1..];
    }
  }

  // ---------------------------------------------------------------------
  // SolveProblem
  // ---------------------------------------------------------------------

  /** The solver always downloads this many candidate pictures. */
  const SubCharacterImageCount: nat := 5

  /** `SolveProblem`, given the downloaded pictures: `candidates[i]` is `None`
      when the download task's `Result` was `null`. The answer is `None`
      (the C# code's `null`) when the reference picture is not recognised or a
      candidate picture is missing. */
  method SolveProblem(main: Image, candidates: seq<Option<Image>>) returns (r: Option<seq<int>>)
    requires |candidates| == SubCharacterImageCount
    ensures r.None? <==> MainCharacterType(main) == Unknown || exists i | 0 <= i < |candidates| :: candidates[i].None?
    ensures r.Some? ==> StrictlyAscending(r.value)
    ensures r.Some? ==> forall k | 0 <= k < |r.value| :: 0 <= r.value[k] < SubCharacterImageCount
    ensures r.Some? ==> forall i | 0 <= i < |candidates| ::
      candidates[i].Some? && (i in r.value <==> Matches(MainCharacterType(main), candidates[i].value))
    ensures r.Some? ==> AllPresent(candidates) && r.value == MatchingIndices(MainCharacterType(main), Present(candidates))
  {
    var character := MainCharacterType(main);
    var missing := FindMissing(candidates);
    if character == Unknown || missing != -1 {
      return None;
    }
    var images := Present(candidates);
    var matched := GetMatchedSubCharacterIndices(character, images);
    AscendingListsWithSameMembersAreEqual(matched, MatchingIndices(character, images));
    r := Some(matched);
  }

  predicate AllPresent<T>(s: seq<Option<T>>)
  {
    forall i | 0 <= i < |s| :: s[i].Some?
  }

  /** The pictures of a download batch in which none is missing. */
  function Present<T>(s: seq<Option<T>>): (r: seq<T>)
    requires AllPresent(s)
    ensures |r| == |s|
    ensures forall i | 0 <= i < |s| :: s[i] == Some(r[i])
  {
    seq(|s|, i requires 0 <= i < |s| => s[i].value)
  }

  /** `Array.FindIndex(subCharacterImages, item => item.Result == null)`. */
  function FindMissing<T>(s: seq<Option<T>>): (k: int)
    ensures k == -1 <==> forall i | 0 <= i < |s| :: s[i].Some?
    ensures k != -1 ==> 0 <= k < |s| && s[k].None? && forall i | 0 <= i < k :: s[i].Some?
  {
    if |s| == 0 then -1
    else if s[0].None? then 0
    else
      var k := FindMissing(s[1..]);
      if k == -1 then -1 else k + 1
  }
}
