/** The training-side pieces of the labeler: the text cleaner applied to every
    review and the rule that turns a rating and a polarity score into a label. */
module Training {
  import opened Strings
  import opened Reviews
  import Curator

  datatype Sentiment = Positive | Negative | Neutral

  /** The position of a label on the scale Negative < Neutral < Positive. */
  function Rank(s: Sentiment): nat {
    match s
    case Negative => 0
    case Neutral => 1
    case Positive => 2
  }

  const POSITIVE_THRESHOLD: real := 0.1
  const NEGATIVE_THRESHOLD: real := -0.05

  /** `get_smart_label`: ratings 1 and 3 (the synthetic rows' ratings) decide the
      label outright; any other rating defers to the polarity score. */
  function SmartLabel(rating: int, score: real): (r: Sentiment)
    ensures rating == 1 ==> r == Negative
    ensures rating == 3 ==> r == Neutral
    ensures rating != 1 && rating != 3 ==>
              (r == Positive <==> score > POSITIVE_THRESHOLD) &&
              (r == Negative <==> score < NEGATIVE_THRESHOLD) &&
              (r == Neutral <==> NEGATIVE_THRESHOLD <= score <= POSITIVE_THRESHOLD)
  {
    if rating == 1 then Negative
    else if rating == 3 then Neutral
    else if score > POSITIVE_THRESHOLD then Positive
    else if score < NEGATIVE_THRESHOLD then Negative
    else Neutral
  }

  /** For a fixed rating, a higher score never gives a lower label. */
  lemma SmartLabelMonotone(rating: int, s1: real, s2: real)
    requires s1 <= s2
    ensures Rank(SmartLabel(rating, s1)) <= Rank(SmartLabel(rating, s2))
  {
  }

  /** The synthetic rows injected by the curator carry ratings 1 and 3, so their
      label is their kind's, whatever the score of their text. */
  lemma SyntheticRowsKeepTheirLabel(kind: Curator.SyntheticKind, row: Review, score: real)
    requires Curator.IsSynthetic(kind, row)
    ensures SmartLabel(row.rating, score) == if kind == Curator.NegativeKind then Negative else Neutral
  {
  }

  // ---------------------------------------------------------------------------
  // The date-prefix pattern `^[A-Z][a-z]{2}\s\d{1,2},\s\d{4}\.\s`

  /** The pattern matches at the start of `s` with `d` day digits. */
  predicate DateAt(s: string, d: nat)
    requires d == 1 || d == 2
  {
    |s| >= 12 + d &&
    IsUpper(s[0]) && IsLower(s[1]) && IsLower(s[2]) && IsSpace(s[3]) &&
    (forall k :: 4 <= k < 4 + d ==> IsDigit(s[k])) &&
    s[4 + d] == ',' && IsSpace(s[5 + d]) &&
    (forall k :: 6 + d <= k < 10 + d ==> IsDigit(s[k])) &&
    s[10 + d] == '.' && IsSpace(s[11 + d])
  }

  /** The length of the match at the start of `s`, or 0 when there is none. The
      two day widths cannot both match, since position 5 would have to be both a
      digit and a comma. */
  function DatePrefixLength(s: string): (n: nat)
    ensures n == 0 || n == 13 || n == 14
    ensures n == 14 <==> DateAt(s, 2)
    ensures n == 13 <==> DateAt(s, 1)
    ensures n <= |s|
  {
    if DateAt(s, 2) then 14 else if DateAt(s, 1) then 13 else 0
  }

  /** `re.sub` with the anchored date pattern: the match, if any, is removed. */
  function DateSub(s: string): (r: string)
    ensures |r| <= |s| && r == s[|s| - |r|..]
    ensures !IsUpper(if s == [] then ' ' else s[0]) ==> r == s
  {
    s[DatePrefixLength(s)..]
  }

  /** `clean_text` of the training script. */
  function TrainClean(text: string): string {
    var lowered := Lower(text);
    var undated := DateSub(lowered);
    var unbadged := ReplaceAll(undated, "verified buyer", "");
    Strip(KeepLettersAndSpaces(unbadged))
  }

  /** The date substitution runs after lower-casing, and its pattern starts with an
      upper-case letter: it never removes anything. */
  lemma DateSubNeverMatches(text: string)
    ensures DateSub(Lower(text)) == Lower(text)
  {
    LowerHasNoUpper(text);
  }

  /** The cleaned text holds only lower-case ASCII letters and whitespace, with no
      whitespace at either end. */
  lemma TrainCleanOutput(text: string)
    ensures var r := TrainClean(text);
            (forall c :: c in r ==> IsLower(c) || IsSpace(c)) &&
            (r != [] ==> !IsSpace(r[0]) && !IsSpace(r[|r| - 1]))
  {
    var lowered := Lower(text);
    LowerHasNoUpper(text);
    DateSubNeverMatches(text);
    var unbadged := ReplaceAll(lowered, "verified buyer", "");
    ReplaceChars(lowered, "verified buyer", "");
    assert forall c :: c in unbadged ==> !IsUpper(c);
  }

  // The witness below is written `"verified" + "1" + " buyer"`, the text
  // "verified1 buyer".

  /** The witness does not start with the badge phrase. */
  lemma BadgeNotAtStart()
    ensures !IsPrefix("verified buyer", "verified" + "1" + " buyer")
  {
    var pat, s := "verified buyer", "verified" + "1" + " buyer";
    IsPrefixSlice(pat, s);
    assert s[8] == '1' && pat[8] == ' ';
  }

  /** Nor does the witness without its first character. */
  lemma BadgeNotAtSecond()
    ensures !IsPrefix("verified buyer", "erified" + "1" + " buyer")
  {
    var pat, s := "verified buyer", "erified" + "1" + " buyer";
    IsPrefixSlice(pat, s);
    assert s[0] == 'e' && pat[0] == 'v';
  }

  /** The badge phrase does not occur in the witness. */
  lemma BadgeAbsentFromExample()
    ensures var x := "verified" + "1" + " buyer";
            ReplaceAll(x, "verified buyer", "") == x
  {
    BadgeNotAtStart();
    BadgeNotAtSecond();
    var pat, x := "verified buyer", "verified" + "1" + " buyer";
    var x1 := x[1..];
    assert x1 == "erified" + "1" + " buyer";
    assert ReplaceAll(x1[1..], pat, "") == x1[1..];
    assert ReplaceAll(x1, pat, "") == [x1[0]] + x1[1..];
    assert ReplaceAll(x, pat, "") == [x[0]] + x1;
  }

  /** Deleting the digit joins the two words into the badge phrase. */
  lemma KeepExample()
    ensures KeepLettersAndSpaces("verified" + "1" + " buyer") == "verified" + " buyer"
  {
    KeepDropsMiddle("verified", '1', " buyer");
  }

  lemma LowerExample()
    ensures Lower("verified" + "1" + " buyer") == "verified" + "1" + " buyer"
  {
    LowerIdentity("verified" + "1" + " buyer");
  }

  lemma StripBadge()
    ensures Strip("verified" + " buyer") == "verified" + " buyer"
  {
  }

  /** A digit between two words is deleted, which can join a badge phrase. */
  lemma CleanDigitJoinsBadge()
    ensures TrainClean("verified" + "1" + " buyer") == "verified" + " buyer"
  {
    LowerExample();
    BadgeAbsentFromExample();
    KeepExample();
    StripBadge();
  }

  /** The badge phrase alone is removed entirely. */
  lemma BadgeRemoved()
    ensures ReplaceAll("verified" + " buyer", "verified buyer", "") == ""
  {
    var s := "verified" + " buyer";
    IsPrefixSlice("verified buyer", s);
    assert s[14..] == [];
  }

  lemma LowerBadge()
    ensures Lower("verified" + " buyer") == "verified" + " buyer"
  {
    LowerIdentity("verified" + " buyer");
  }

  /** The badge phrase alone cleans to nothing. */
  lemma CleanBadgeAlone()
    ensures TrainClean("verified" + " buyer") == ""
  {
    LowerBadge();
    BadgeRemoved();
    assert KeepLettersAndSpaces([]) == [];
  }

  /** Cleaning is not idempotent: deleting a digit can join a new badge phrase,
      which a second cleaning then removes. */
  lemma TrainCleanNotIdempotent()
    ensures var x := "verified" + "1" + " buyer";
            TrainClean(TrainClean(x)) != TrainClean(x)
  {
    CleanDigitJoinsBadge();
    CleanBadgeAlone();
  }
}
