/** The corpus curator: drops rows whose review text was already seen, then appends
    a fixed block of synthetic Negative and Neutral rows. The random phrase choices
    and numeric suffixes are inputs. */
module Curator {
  import opened Strings
  import opened Reviews

  /** The number of synthetic rows added for each of the two sentiments. */
  const TARGET_COUNT: nat := 800

  const SYNTHETIC_NAME: string := "Synthetic Data"
  const SYNTHETIC_DATE: string := "2025-01-21"
  const SYNTHETIC_VERIFIED: string := "System"

  /** The size of each phrase bank, and the range of the numeric suffix. */
  const PHRASE_COUNT: nat := 15
  const MIN_SUFFIX: nat := 1
  const MAX_SUFFIX: nat := 1000

  // ---------------------------------------------------------------------------
  // Removing duplicate review texts, keeping the first occurrence

  /** The rows left after dropping every row whose text occurs in an earlier row. */
  function Dedup(rows: seq<Review>): (r: seq<Review>)
    ensures |r| <= |rows|
  {
    if rows == [] then []
    else
      var init, last := rows[..|rows| - 1], rows[|rows| - 1];
      if last.reviewText in Texts(init) then Dedup(init) else Dedup(init) + [last]
  }

  /** Row `k` is the first row carrying its text. */
  predicate FirstOccurrence(rows: seq<Review>, k: nat)
    requires k < |rows|
  {
    forall j :: 0 <= j < k ==> rows[j].reviewText != rows[k].reviewText
  }

  /** The positions of the rows `Dedup` keeps. */
  function KeptIndices(rows: seq<Review>): seq<nat> {
    if rows == [] then []
    else
      var init := rows[..|rows| - 1];
      KeptIndices(init) + (if rows[|rows| - 1].reviewText in Texts(init) then [] else [|rows| - 1])
  }

  lemma TextsSnoc(rows: seq<Review>, x: Review)
    ensures Texts(rows + [x]) == Texts(rows) + {x.reviewText}
  {
    var all := rows + [x];
    forall t | t in Texts(rows) ensures t in Texts(all) {
      var k :| 0 <= k < |rows| && rows[k].reviewText == t;
      assert all[k] == rows[k];
    }
    assert all[|rows|] == x;
  }

  /** One more row: its text joins the texts seen, and it is kept exactly when its
      text is new. */
  lemma DedupStep(rows: seq<Review>, i: nat)
    requires i < |rows|
    ensures Texts(rows[..i + 1]) == Texts(rows[..i]) + {rows[i].reviewText}
    ensures Dedup(rows[..i + 1]) ==
            if rows[i].reviewText in Texts(rows[..i]) then Dedup(rows[..i])
            else Dedup(rows[..i]) + [rows[i]]
  {
    var p := rows[..i + 1];
    assert p[..|p| - 1] == rows[..i];
    assert p == rows[..i] + [rows[i]];
    TextsSnoc(rows[..i], rows[i]);
  }

  /** After dedup no two rows share a review text. */
  lemma {:induction false} DedupDistinct(rows: seq<Review>)
    ensures DistinctTexts(Dedup(rows))
  {
    if rows != [] {
      var init, last := rows[..|rows| - 1], rows[|rows| - 1];
      DedupDistinct(init);
      DedupTexts(init);
      if last.reviewText !in Texts(init) {
        var d := Dedup(init);
        forall i | 0 <= i < |d| ensures d[i].reviewText != last.reviewText {
          assert d[i].reviewText in Texts(d);
        }
      }
    }
  }

  /** Dedup loses no text of the input and invents none. */
  lemma {:induction false} DedupTexts(rows: seq<Review>)
    ensures Texts(Dedup(rows)) == Texts(rows)
  {
    if rows != [] {
      var init, last := rows[..|rows| - 1], rows[|rows| - 1];
      DedupTexts(init);
      assert rows == init + [last];
      TextsSnoc(init, last);
      if last.reviewText !in Texts(init) {
        TextsSnoc(Dedup(init), last);
      }
    }
  }

  /** The kept rows are exactly the first occurrences of each text, in their
      original order. */
  lemma {:induction false} DedupKeepsFirst(rows: seq<Review>)
    ensures var idx := KeptIndices(rows);
            |idx| == |Dedup(rows)| &&
            (forall m :: 0 <= m < |idx| ==> idx[m] < |rows| && Dedup(rows)[m] == rows[idx[m]]) &&
            (forall m, n :: 0 <= m < n < |idx| ==> idx[m] < idx[n]) &&
            (forall k :: 0 <= k < |rows| ==> (k in idx <==> FirstOccurrence(rows, k)))
  {
    if rows != [] {
      var init, last := rows[..|rows| - 1], rows[|rows| - 1];
      DedupKeepsFirst(init);
      var pre := KeptIndices(init);
      var idx := KeptIndices(rows);
      forall k | 0 <= k < |init| ensures FirstOccurrence(rows, k) == FirstOccurrence(init, k) {
        assert forall j :: 0 <= j <= k ==> rows[j] == init[j];
      }
      assert FirstOccurrence(rows, |init|) <==> last.reviewText !in Texts(init) by {
        if last.reviewText in Texts(init) {
          var j :| 0 <= j < |init| && init[j].reviewText == last.reviewText;
          assert rows[j] == init[j];
        } else {
          forall j | 0 <= j < |init| ensures rows[j].reviewText != last.reviewText {
            assert rows[j] == init[j];
            assert init[j].reviewText in Texts(init);
          }
        }
      }
    }
  }

  /** Rows whose texts are already distinct come through unchanged. */
  lemma {:induction false} DedupOfDistinct(rows: seq<Review>)
    requires DistinctTexts(rows)
    ensures Dedup(rows) == rows
  {
    if rows != [] {
      var init, last := rows[..|rows| - 1], rows[|rows| - 1];
      assert DistinctTexts(init) by {
        forall i, j | 0 <= i < j < |init| ensures init[i].reviewText != init[j].reviewText {
          assert init[i] == rows[i] && init[j] == rows[j];
        }
      }
      DedupOfDistinct(init);
      forall j | 0 <= j < |init| ensures init[j].reviewText != last.reviewText {
        assert rows[j] == init[j];
      }
      assert rows == init + [last];
    }
  }

  /** Dropping duplicates a second time changes nothing. */
  lemma DedupIdempotent(rows: seq<Review>)
    ensures Dedup(Dedup(rows)) == Dedup(rows)
  {
    DedupDistinct(rows);
    DedupOfDistinct(Dedup(rows));
  }

  /** Rows appended later never disturb what dedup kept from the rows before them. */
  lemma {:induction false} DedupPrefix(a: seq<Review>, b: seq<Review>)
    ensures |Dedup(a)| <= |Dedup(a + b)| && Dedup(a + b)[..|Dedup(a)|] == Dedup(a)
    decreases |b|
  {
    if b == [] {
      assert a + b == a;
    } else {
      var b' := b[..|b| - 1];
      DedupPrefix(a, b');
      var all := a + b;
      assert all[..|all| - 1] == a + b';
    }
  }

  /** `df.drop_duplicates(subset=['Review Text'], inplace=True)` on the loaded
      table. */
  class Frame {
    var rows: seq<Review>

    constructor (loaded: seq<Review>)
      ensures rows == loaded
    {
      rows := loaded;
    }

    method DropDuplicates()
      modifies this
      ensures rows == Dedup(old(rows))
    {
      var input := rows;
      var kept: seq<Review> := [];
      var seen: set<string> := {};
      var i := 0;
      assert input[..0] == [];
      while i < |input|
        invariant 0 <= i <= |input|
        invariant kept == Dedup(input[..i])
        invariant seen == Texts(input[..i])
      {
        DedupStep(input, i);
        if input[i].reviewText !in seen {
          kept := kept + [input[i]];
        }
        seen := seen + {input[i].reviewText};
        i := i + 1;
      }
      assert input[..i] == input;
      rows := kept;
    }

    /** The whole curation run: dedup, then the Negative block, then the Neutral
        block. */
    method Curate(negChoices: seq<nat>, negSuffixes: seq<nat>,
                  neuChoices: seq<nat>, neuSuffixes: seq<nat>)
      requires ValidChoices(negChoices, negSuffixes, TARGET_COUNT)
      requires ValidChoices(neuChoices, neuSuffixes, TARGET_COUNT)
      modifies this
      ensures rows == CleanCsv(old(rows), negChoices, negSuffixes, neuChoices, neuSuffixes)
    {
      DropDuplicates();
      var negRows := GenerateSynthetic(NegativeKind, TARGET_COUNT, negChoices, negSuffixes);
      var neuRows := GenerateSynthetic(NeutralKind, TARGET_COUNT, neuChoices, neuSuffixes);
      rows := rows + negRows + neuRows;
    }
  }

  // ---------------------------------------------------------------------------
  // Synthetic rows

  datatype SyntheticKind = NegativeKind | NeutralKind

  /** The phrase bank of each kind. */
  function Phrases(kind: SyntheticKind): (r: seq<string>)
    ensures |r| == PHRASE_COUNT
  {
    match kind
    case NegativeKind => [
      "waste of money", "bad quality", "terrible product", "fake item",
      "poor stitching", "sole came off", "uncomfortable", "worst purchase",
      "do not buy", "damaged product", "size is wrong", "very cheap material",
      "not original", "totally disappointed", "return request rejected"]
    case NeutralKind => [
      "product received", "delivery on time", "received the package",
      "packaging was okay", "average product", "it is what it is",
      "standard quality", "ok for the price", "size 9 delivered",
      "just okay", "not bad not good", "item arrived today",
      "is this washable?", "can I return this?", "color is slightly different"]
  }

  /** The rating stored with each kind. */
  function SyntheticRating(kind: SyntheticKind): int {
    if kind == NegativeKind then 1 else 3
  }

  /** The random draws of one call: a phrase index below 15 and a suffix in
      [1, 1000] for each of the `n` rows. */
  predicate ValidChoices(choices: seq<nat>, suffixes: seq<nat>, n: nat) {
    |choices| == n && |suffixes| == n &&
    forall k :: 0 <= k < n ==>
      choices[k] < PHRASE_COUNT && MIN_SUFFIX <= suffixes[k] <= MAX_SUFFIX
  }

  function SyntheticText(kind: SyntheticKind, choice: nat, suffix: nat): string
    requires choice < PHRASE_COUNT
  {
    Phrases(kind)[choice] + " " + Decimal(suffix)
  }

  /** The fixed shape of a synthetic row of `kind`: its text is a phrase of the bank,
      a space and a suffix in range. */
  predicate IsSynthetic(kind: SyntheticKind, row: Review) {
    row.productName == SYNTHETIC_NAME && row.rating == SyntheticRating(kind) &&
    row.reviewDate == SYNTHETIC_DATE && row.verified == SYNTHETIC_VERIFIED &&
    exists c: nat, s: nat | c < PHRASE_COUNT && MIN_SUFFIX <= s <= MAX_SUFFIX ::
      row.reviewText == SyntheticText(kind, c, s)
  }

  function SyntheticRow(kind: SyntheticKind, choice: nat, suffix: nat): Review
    requires choice < PHRASE_COUNT
  {
    Review(SYNTHETIC_NAME, SyntheticText(kind, choice, suffix), SyntheticRating(kind),
           SYNTHETIC_DATE, SYNTHETIC_VERIFIED)
  }

  /** The rows one call of the generator produces. */
  function SyntheticRows(kind: SyntheticKind, choices: seq<nat>, suffixes: seq<nat>): seq<Review>
    requires ValidChoices(choices, suffixes, |choices|)
  {
    seq(|choices|, k requires 0 <= k < |choices| => SyntheticRow(kind, choices[k], suffixes[k]))
  }

  /** `generate_synthetic_data`: the `append` loop building `count` rows. */
  method GenerateSynthetic(kind: SyntheticKind, count: nat, choices: seq<nat>, suffixes: seq<nat>)
    returns (rows: seq<Review>)
    requires ValidChoices(choices, suffixes, count)
    ensures |rows| == count
    ensures forall k :: 0 <= k < count ==> IsSynthetic(kind, rows[k])
    ensures forall k :: 0 <= k < count ==>
              rows[k].reviewText == Phrases(kind)[choices[k]] + " " + Decimal(suffixes[k])
    ensures rows == SyntheticRows(kind, choices, suffixes)
  {
    rows := [];
    var i := 0;
    while i < count
      invariant 0 <= i <= count
      invariant rows == SyntheticRows(kind, choices[..i], suffixes[..i])
    {
      var text := Phrases(kind)[choices[i]] + " " + Decimal(suffixes[i]);
      rows := rows + [Review(SYNTHETIC_NAME, text, SyntheticRating(kind), SYNTHETIC_DATE, SYNTHETIC_VERIFIED)];
      i := i + 1;
    }
    assert choices[..i] == choices && suffixes[..i] == suffixes;
    forall k | 0 <= k < count ensures IsSynthetic(kind, rows[k]) {
      assert rows[k].reviewText == SyntheticText(kind, choices[k], suffixes[k]);
    }
  }

  /** A text made of a space-free piece after the last space splits back into its
      two parts. */
  lemma LastSpaceSplit(p1: string, d1: string, p2: string, d2: string)
    requires ' ' !in d1 && ' ' !in d2
    requires p1 + " " + d1 == p2 + " " + d2
    ensures p1 == p2 && d1 == d2
  {
    var t := p1 + " " + d1;
    assert t[|p1|] == ' ' && t[|p2|] == ' ';
    assert forall k :: |p1| < k < |t| ==> t[k] == d1[k - |p1| - 1];
    assert forall k :: |p2| < k < |t| ==> t[k] == d2[k - |p2| - 1];
    assert |p1| == |p2|;
    assert p1 == t[..|p1|] && p2 == t[..|p2|];
    assert d1 == t[|p1| + 1..] && d2 == t[|p2| + 1..];
  }

  /** Two synthetic texts of one kind are equal exactly when they use the same phrase
      and the same suffix: the suffix is the only thing that keeps them apart. */
  lemma SyntheticTextInjective(kind: SyntheticKind, c1: nat, s1: nat, c2: nat, s2: nat)
    requires c1 < PHRASE_COUNT && c2 < PHRASE_COUNT
    ensures SyntheticText(kind, c1, s1) == SyntheticText(kind, c2, s2) <==>
            Phrases(kind)[c1] == Phrases(kind)[c2] && s1 == s2
  {
    var d1, d2 := Decimal(s1), Decimal(s2);
    assert ' ' !in d1 by { forall k | 0 <= k < |d1| ensures d1[k] != ' ' { assert IsDigit(d1[k]); } }
    assert ' ' !in d2 by { forall k | 0 <= k < |d2| ensures d2[k] != ' ' { assert IsDigit(d2[k]); } }
    if SyntheticText(kind, c1, s1) == SyntheticText(kind, c2, s2) {
      LastSpaceSplit(Phrases(kind)[c1], d1, Phrases(kind)[c2], d2);
      DecimalInjective(s1, s2);
    }
  }

  /** Two draws with the same phrase and suffix give two rows with the same text,
      and nothing removes them: the generator may produce duplicates. */
  lemma SyntheticMayCollide(kind: SyntheticKind, choices: seq<nat>, suffixes: seq<nat>, i: nat, j: nat)
    requires ValidChoices(choices, suffixes, |choices|)
    requires i < j < |choices| && choices[i] == choices[j] && suffixes[i] == suffixes[j]
    ensures !DistinctTexts(SyntheticRows(kind, choices, suffixes))
  {
    var rows := SyntheticRows(kind, choices, suffixes);
    assert rows[i].reviewText == rows[j].reviewText;
  }

  // ---------------------------------------------------------------------------
  // The final table

  /** `pd.concat([df, df_neg, df_neu])` after dedup. */
  function CleanCsv(rows: seq<Review>, negChoices: seq<nat>, negSuffixes: seq<nat>,
                    neuChoices: seq<nat>, neuSuffixes: seq<nat>): seq<Review>
    requires ValidChoices(negChoices, negSuffixes, TARGET_COUNT)
    requires ValidChoices(neuChoices, neuSuffixes, TARGET_COUNT)
  {
    Dedup(rows) + SyntheticRows(NegativeKind, negChoices, negSuffixes) +
    SyntheticRows(NeutralKind, neuChoices, neuSuffixes)
  }

  /** The final table: the unique real rows, then 800 Negative rows, then 800 Neutral
      rows. Only the real prefix is guaranteed free of duplicate texts. */
  lemma CleanCsvShape(rows: seq<Review>, negChoices: seq<nat>, negSuffixes: seq<nat>,
                      neuChoices: seq<nat>, neuSuffixes: seq<nat>)
    requires ValidChoices(negChoices, negSuffixes, TARGET_COUNT)
    requires ValidChoices(neuChoices, neuSuffixes, TARGET_COUNT)
    ensures var out := CleanCsv(rows, negChoices, negSuffixes, neuChoices, neuSuffixes);
            var u := |Dedup(rows)|;
            |out| == u + 2 * TARGET_COUNT &&
            out[..u] == Dedup(rows) && DistinctTexts(out[..u]) &&
            (forall k :: u <= k < u + TARGET_COUNT ==> IsSynthetic(NegativeKind, out[k])) &&
            (forall k :: u + TARGET_COUNT <= k < |out| ==> IsSynthetic(NeutralKind, out[k]))
  {
    var out := CleanCsv(rows, negChoices, negSuffixes, neuChoices, neuSuffixes);
    var u := |Dedup(rows)|;
    var neg := SyntheticRows(NegativeKind, negChoices, negSuffixes);
    var neu := SyntheticRows(NeutralKind, neuChoices, neuSuffixes);
    DedupDistinct(rows);
    assert out[..u] == Dedup(rows);
    forall k | u <= k < u + TARGET_COUNT ensures IsSynthetic(NegativeKind, out[k]) {
      var c, s := negChoices[k - u], negSuffixes[k - u];
      assert out[k] == neg[k - u] == SyntheticRow(NegativeKind, c, s);
    }
    forall k | u + TARGET_COUNT <= k < |out| ensures IsSynthetic(NeutralKind, out[k]) {
      var c, s := neuChoices[k - u - TARGET_COUNT], neuSuffixes[k - u - TARGET_COUNT];
      assert out[k] == neu[k - u - TARGET_COUNT] == SyntheticRow(NeutralKind, c, s);
    }
  }

  /** Duplicates can reach the final table: two Negative draws with the same phrase
      index and suffix both survive, since deduplication ran before the injection. */
  lemma FinalMayRepeat(rows: seq<Review>, negChoices: seq<nat>, negSuffixes: seq<nat>,
                       neuChoices: seq<nat>, neuSuffixes: seq<nat>, i: nat, j: nat)
    requires ValidChoices(negChoices, negSuffixes, TARGET_COUNT)
    requires ValidChoices(neuChoices, neuSuffixes, TARGET_COUNT)
    requires i < j < TARGET_COUNT && negChoices[i] == negChoices[j] && negSuffixes[i] == negSuffixes[j]
    ensures !DistinctTexts(CleanCsv(rows, negChoices, negSuffixes, neuChoices, neuSuffixes))
  {
    var out := CleanCsv(rows, negChoices, negSuffixes, neuChoices, neuSuffixes);
    var u := |Dedup(rows)|;
    var neg := SyntheticRows(NegativeKind, negChoices, negSuffixes);
    assert out[u + i] == neg[i] && out[u + j] == neg[j];
  }

  /** Curating an already curated table keeps its real rows in front unchanged and
      adds another 1600 synthetic rows. */
  lemma CurateTwice(rows: seq<Review>, negChoices: seq<nat>, negSuffixes: seq<nat>,
                    neuChoices: seq<nat>, neuSuffixes: seq<nat>)
    requires ValidChoices(negChoices, negSuffixes, TARGET_COUNT)
    requires ValidChoices(neuChoices, neuSuffixes, TARGET_COUNT)
    ensures var once := CleanCsv(rows, negChoices, negSuffixes, neuChoices, neuSuffixes);
            var twice := CleanCsv(once, negChoices, negSuffixes, neuChoices, neuSuffixes);
            |Dedup(rows)| <= |twice| && twice[..|Dedup(rows)|] == Dedup(rows)
  {
    var d := Dedup(rows);
    var synth := SyntheticRows(NegativeKind, negChoices, negSuffixes) +
                 SyntheticRows(NeutralKind, neuChoices, neuSuffixes);
    var once := CleanCsv(rows, negChoices, negSuffixes, neuChoices, neuSuffixes);
    assert once == d + synth;
    DedupPrefix(d, synth);
    DedupIdempotent(rows);
  }
}
