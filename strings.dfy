/** ASCII character classes and the pieces of Python's `str` and `re` behaviour the
    pipeline relies on: lower-casing, title-casing, `replace`, `split`, `strip`,
    deletion of a character class, and `str(n)` for a natural number.
    Only ASCII semantics are modelled; every other character is uncased, not a
    letter and not whitespace. */
module Strings {

  datatype Option<T> = None | Some(value: T)

  /** `str.isspace()` and the regular-expression class `\s`, restricted to ASCII:
      tab, line feed, vertical tab, form feed, carriage return (9-13), the four
      information separators (28-31) and space (32). */
  predicate IsSpace(c: char) {
    (9 <= c as int <= 13) || (28 <= c as int <= 32)
  }

  predicate IsUpper(c: char) { 'A' <= c <= 'Z' }
  predicate IsLower(c: char) { 'a' <= c <= 'z' }
  predicate IsLetter(c: char) { IsUpper(c) || IsLower(c) }
  predicate IsDigit(c: char) { '0' <= c <= '9' }

  function ToLower(c: char): (r: char)
    ensures IsUpper(c) ==> IsLower(r) && r as int == c as int + 32
    ensures !IsUpper(c) ==> r == c
  {
    if IsUpper(c) then (c as int + 32) as char else c
  }

  function ToUpper(c: char): (r: char)
    ensures IsLower(c) ==> IsUpper(r) && r as int == c as int - 32
    ensures !IsLower(c) ==> r == c
  {
    if IsLower(c) then (c as int - 32) as char else c
  }

  /** `str.lower()` */
  function Lower(s: string): string {
    seq(|s|, i requires 0 <= i < |s| => ToLower(s[i]))
  }

  lemma {:induction false} LowerHasNoUpper(s: string)
    ensures |Lower(s)| == |s|
    ensures forall i :: 0 <= i < |s| ==> !IsUpper(Lower(s)[i])
    ensures forall i :: 0 <= i < |s| ==> (IsLetter(Lower(s)[i]) <==> IsLetter(s[i]))
    ensures forall i :: 0 <= i < |s| ==> (IsSpace(Lower(s)[i]) <==> IsSpace(s[i]))
  {
  }

  /** Lower-casing a string without upper-case letters changes nothing. */
  lemma LowerIdentity(s: string)
    requires forall i :: 0 <= i < |s| ==> !IsUpper(s[i])
    ensures Lower(s) == s
  {
  }

  // ---------------------------------------------------------------------------
  // str.replace(pat, rep): leftmost, non-overlapping, single pass

  predicate MatchesAt(s: string, pat: string, i: nat) {
    i + |pat| <= |s| && s[i..i + |pat|] == pat
  }

  /** `pat in s` */
  predicate Occurs(s: string, pat: string) {
    exists i: nat | i <= |s| :: MatchesAt(s, pat, i)
  }

  /** `s.startswith(pat)`, written character by character. */
  predicate IsPrefix(pat: string, s: string) {
    pat == [] || (s != [] && s[0] == pat[0] && IsPrefix(pat[1..], s[1..]))
  }

  lemma {:induction false} IsPrefixSlice(pat: string, s: string)
    ensures IsPrefix(pat, s) <==> |pat| <= |s| && s[..|pat|] == pat
  {
    if pat != [] && s != [] {
      IsPrefixSlice(pat[1..], s[1..]);
      if |pat| <= |s| && s[..|pat|] == pat {
        assert s[1..][..|pat| - 1] == s[..|pat|][1..];
      }
      if IsPrefix(pat, s) {
        assert s[..|pat|] == [s[0]] + s[1..][..|pat| - 1];
        assert pat == [pat[0]] + pat[1..];
      }
    }
  }

  function ReplaceAll(s: string, pat: string, rep: string): string
    requires |pat| > 0
    decreases |s|
  {
    if |s| < |pat| then s
    else if IsPrefix(pat, s) then rep + ReplaceAll(s[|pat|..], pat, rep)
    else [s[0]] + ReplaceAll(s[1..], pat, rep)
  }

  /** Replacing a pattern that does not occur changes nothing. */
  lemma {:induction false} ReplaceAbsent(s: string, pat: string, rep: string)
    requires |pat| > 0
    ensures Occurs(s, pat) || ReplaceAll(s, pat, rep) == s
    decreases |s|
  {
    IsPrefixSlice(pat, s);
    if |s| < |pat| {
    } else if IsPrefix(pat, s) {
      assert MatchesAt(s, pat, 0);
    } else {
      ReplaceAbsent(s[1..], pat, rep);
      if Occurs(s[1..], pat) {
        var i: nat :| i <= |s[1..]| && MatchesAt(s[1..], pat, i);
        assert i + |pat| <= |s| - 1 && s[1..][i..i + |pat|] == pat;
        assert s[i + 1..i + 1 + |pat|] == s[1..][i..i + |pat|];
        assert MatchesAt(s, pat, i + 1);
      }
    }
  }

  /** Every character of the result comes from the input or from the replacement. */
  lemma {:induction false} ReplaceChars(s: string, pat: string, rep: string)
    requires |pat| > 0
    ensures forall c :: c in ReplaceAll(s, pat, rep) ==> c in s || c in rep
    decreases |s|
  {
    if |s| < |pat| {
    } else if IsPrefix(pat, s) {
      ReplaceChars(s[|pat|..], pat, rep);
      forall c | c in ReplaceAll(s[|pat|..], pat, rep) && c in s[|pat|..] ensures c in s {
        var k :| 0 <= k < |s[|pat|..]| && s[|pat|..][k] == c;
        assert s[|pat| + k] == c;
      }
    } else {
      ReplaceChars(s[1..], pat, rep);
      forall c | c in ReplaceAll(s[1..], pat, rep) && c in s[1..] ensures c in s {
        var k :| 0 <= k < |s[1..]| && s[1..][k] == c;
        assert s[1 + k] == c;
      }
    }
  }

  /** Deleting every occurrence of a pattern never adds a character of the pattern,
      and removes at least one when the pattern occurs. */
  lemma {:induction false} ReplaceDropsCount(s: string, pat: string, c: char)
    requires |pat| > 0 && c in pat
    ensures multiset(ReplaceAll(s, pat, ""))[c] <= multiset(s)[c]
    ensures Occurs(s, pat) ==> multiset(ReplaceAll(s, pat, ""))[c] < multiset(s)[c]
    decreases |s|
  {
    if |s| < |pat| {
    } else if IsPrefix(pat, s) {
      ReplaceDropsCount(s[|pat|..], pat, c);
      PrefixCount(s, pat, c);
      assert "" + ReplaceAll(s[|pat|..], pat, "") == ReplaceAll(s[|pat|..], pat, "");
    } else {
      ReplaceDropsCount(s[1..], pat, c);
      assert s == [s[0]] + s[1..];
      if Occurs(s, pat) {
        OccursPastHead(s, pat);
      }
    }
  }

  lemma PrefixCount(s: string, pat: string, c: char)
    requires IsPrefix(pat, s) && c in pat
    ensures |pat| <= |s| && multiset(s[|pat|..])[c] < multiset(s)[c]
  {
    IsPrefixSlice(pat, s);
    assert s == pat + s[|pat|..];
  }

  /** A pattern that occurs but is not a prefix occurs after the first character. */
  lemma OccursPastHead(s: string, pat: string)
    requires Occurs(s, pat) && !IsPrefix(pat, s)
    ensures s != [] && Occurs(s[1..], pat)
  {
    IsPrefixSlice(pat, s);
    var i: nat :| i <= |s| && MatchesAt(s, pat, i);
    assert i != 0;
    assert s[1..][i - 1..i - 1 + |pat|] == s[i..i + |pat|];
    assert MatchesAt(s[1..], pat, i - 1);
  }

  /** Replacing a character that does not occur changes nothing. */
  lemma {:induction false} ReplaceCharAbsent(s: string, c: char, rep: string)
    requires c !in s
    ensures ReplaceAll(s, [c], rep) == s
    decreases |s|
  {
    if |s| >= 1 {
      assert !IsPrefix([c], s) by { assert s[..1][0] == s[0]; }
      ReplaceCharAbsent(s[1..], c, rep);
    }
  }

  /** Replacing a single character by text that does not contain it removes it entirely. */
  lemma {:induction false} ReplaceCharRemoves(s: string, c: char, rep: string)
    requires c !in rep
    ensures c !in ReplaceAll(s, [c], rep)
    decreases |s|
  {
    IsPrefixSlice([c], s);
    if |s| >= 1 {
      assert s[0] != c ==> !IsPrefix([c], s) by { assert s[..1][0] == s[0]; }
      ReplaceCharRemoves(s[1..], c, rep);
    }
  }

  // ---------------------------------------------------------------------------
  // re.sub(r'[^a-zA-Z\s]', '', s): delete every character that is neither a letter nor whitespace

  predicate Kept(c: char) { IsLetter(c) || IsSpace(c) }

  function KeepLettersAndSpaces(s: string): (r: string)
    ensures forall c :: c in r ==> c in s && Kept(c)
  {
    if s == [] then []
    else (if Kept(s[0]) then [s[0]] else []) + KeepLettersAndSpaces(s[1..])
  }

  /** Every letter and whitespace character survives, as often as it occurred. */
  lemma {:induction false} KeepCounts(s: string)
    ensures forall c :: Kept(c) ==> multiset(KeepLettersAndSpaces(s))[c] == multiset(s)[c]
  {
    if s != [] {
      KeepCounts(s[1..]);
      assert s == [s[0]] + s[1..];
    }
  }

  /** A string made only of letters and whitespace comes through unchanged. */
  lemma {:induction false} KeepIdentity(s: string)
    requires forall c :: c in s ==> Kept(c)
    ensures KeepLettersAndSpaces(s) == s
  {
    if s != [] {
      assert forall c :: c in s[1..] ==> c in s;
      KeepIdentity(s[1..]);
      assert s == [s[0]] + s[1..];
    }
  }

  lemma KeepSingle(c: char)
    ensures KeepLettersAndSpaces([c]) == if Kept(c) then [c] else []
  {
    assert [c][1..] == [];
  }

  /** Deletion works piecewise on a concatenation. */
  lemma {:induction false} KeepAppend(a: string, b: string)
    ensures KeepLettersAndSpaces(a + b) == KeepLettersAndSpaces(a) + KeepLettersAndSpaces(b)
    decreases |a|
  {
    if a != [] {
      assert (a + b)[1..] == a[1..] + b;
      KeepAppend(a[1..], b);
    } else {
      assert a + b == b;
    }
  }

  /** Deleting a character between two runs of letters and whitespace joins them. */
  lemma KeepDropsMiddle(a: string, c: char, b: string)
    requires forall x :: x in a ==> Kept(x)
    requires forall x :: x in b ==> Kept(x)
    requires !Kept(c)
    ensures KeepLettersAndSpaces(a + [c] + b) == a + b
  {
    var ac := a + [c];
    KeepIdentity(a);
    KeepIdentity(b);
    KeepSingle(c);
    KeepAppend(a, [c]);
    assert KeepLettersAndSpaces(ac) == a;
    KeepAppend(ac, b);
  }

  // ---------------------------------------------------------------------------
  // str.strip()

  /** The end of the run of whitespace that starts at `i`. */
  function SpaceRunEnd(s: string, i: nat): (n: nat)
    requires i <= |s|
    ensures i <= n <= |s|
    ensures forall k :: i <= k < n ==> IsSpace(s[k])
    ensures n < |s| ==> !IsSpace(s[n])
    decreases |s| - i
  {
    if i < |s| && IsSpace(s[i]) then SpaceRunEnd(s, i + 1) else i
  }

  /** The start of the run of whitespace that ends at `j`. */
  function SpaceRunStart(s: string, j: nat): (n: nat)
    requires j <= |s|
    ensures n <= j
    ensures forall k :: n <= k < j ==> IsSpace(s[k])
    ensures n > 0 ==> !IsSpace(s[n - 1])
  {
    if j > 0 && IsSpace(s[j - 1]) then SpaceRunStart(s, j - 1) else j
  }

  function StripLeft(s: string): (r: string)
    ensures |r| <= |s| && r == s[|s| - |r|..]
    ensures forall k :: 0 <= k < |s| - |r| ==> IsSpace(s[k])
    ensures r != [] ==> !IsSpace(r[0])
  {
    s[SpaceRunEnd(s, 0)..]
  }

  function StripRight(s: string): (r: string)
    ensures |r| <= |s| && r == s[..|r|]
    ensures forall k :: |r| <= k < |s| ==> IsSpace(s[k])
    ensures r != [] ==> !IsSpace(r[|r| - 1])
  {
    s[..SpaceRunStart(s, |s|)]
  }

  /** `str.strip()`: the longest infix with no whitespace at either end, obtained by
      dropping whitespace only. */
  function Strip(s: string): (r: string)
    ensures r != [] ==> !IsSpace(r[0]) && !IsSpace(r[|r| - 1])
    ensures forall c :: c in r ==> c in s
    ensures (s == [] || (!IsSpace(s[0]) && !IsSpace(s[|s| - 1]))) ==> r == s
  {
    var l := StripLeft(s);
    var r := StripRight(l);
    assert r != [] ==> r[0] == l[0];
    assert forall c :: c in r ==> c in l;
    assert forall c :: c in l ==> c in s;
    r
  }

  /** Stripping removes whitespace at the two ends and nothing else: the result is
      the infix of the input between a run of leading and a run of trailing
      whitespace. */
  lemma StripSlice(s: string)
    ensures var r, i := Strip(s), |s| - |StripLeft(s)|;
      i + |r| <= |s| && r == s[i..i + |r|] &&
      (forall k :: 0 <= k < i ==> IsSpace(s[k])) && (forall k :: i + |r| <= k < |s| ==> IsSpace(s[k]))
  {
  }

  /** Stripping keeps every character that is not whitespace, as often as it occurred. */
  lemma StripCounts(s: string, c: char)
    requires !IsSpace(c)
    ensures multiset(Strip(s))[c] == multiset(s)[c]
  {
    StripSlice(s);
    var r, i := Strip(s), |s| - |StripLeft(s)|;
    var a, b := s[..i], s[i + |r|..];
    assert s == a + r + b;
    forall k | 0 <= k < |a| ensures a[k] != c { assert a[k] == s[k]; }
    forall k | 0 <= k < |b| ensures b[k] != c { assert b[k] == s[i + |r| + k]; }
    assert c !in a && c !in b;
  }

  // ---------------------------------------------------------------------------
  // str.split(c) and its inverse c.join(pieces)

  function Split(s: string, c: char): (r: seq<string>)
    ensures |r| >= 1
    ensures forall k :: 0 <= k < |r| ==> c !in r[k]
    ensures (c in s) <==> |r| >= 2
  {
    if s == [] then [[]]
    else
      var rest := Split(s[1..], c);
      assert s == [s[0]] + s[1..];
      if s[0] == c then [[]] + rest
      else [[s[0]] + rest[0]] + rest[1..]
  }

  /** Joining the pieces with the separator gives back the split string. */
  lemma {:induction false} JoinSplit(s: string, c: char)
    ensures Join(Split(s, c), c) == s
  {
    if s != [] {
      var tail := s[1..];
      JoinSplit(tail, c);
      var rest := Split(tail, c);
      var r := Split(s, c);
      assert s == [s[0]] + tail;
      if s[0] == c {
        assert r == [[]] + rest;
        assert r[1..] == rest;
        assert Join(r, c) == [] + [c] + Join(rest, c);
      } else {
        JoinConsHead(s[0], rest, c);
      }
    }
  }

  /** Prefixing a character to the first piece prefixes it to the join. */
  lemma JoinConsHead(x: char, pieces: seq<string>, c: char)
    requires |pieces| >= 1
    ensures Join([[x] + pieces[0]] + pieces[1..], c) == [x] + Join(pieces, c)
  {
    var q := [[x] + pieces[0]] + pieces[1..];
    assert q[1..] == pieces[1..];
  }

  function Join(pieces: seq<string>, c: char): string
    requires |pieces| >= 1
  {
    if |pieces| == 1 then pieces[0] else pieces[0] + [c] + Join(pieces[1..], c)
  }

  lemma {:induction false} JoinSnoc(pieces: seq<string>, x: string, c: char)
    requires |pieces| >= 1
    ensures Join(pieces + [x], c) == Join(pieces, c) + [c] + x
    decreases |pieces|
  {
    if |pieces| > 1 {
      assert (pieces + [x])[1..] == pieces[1..] + [x];
      JoinSnoc(pieces[1..], x, c);
    }
  }

  /** A join ends with its last piece, right after a separator when there are at
      least two pieces. */
  lemma JoinEndsWithLast(pieces: seq<string>, c: char)
    requires |pieces| >= 1
    ensures var j, l := Join(pieces, c), pieces[|pieces| - 1];
            |l| <= |j| && j[|j| - |l|..] == l &&
            (|pieces| == 1 ==> j == l) &&
            (|pieces| > 1 ==> |l| < |j| && j[|j| - |l| - 1] == c && j[..|j| - |l| - 1] == Join(pieces[..|pieces| - 1], c))
  {
    if |pieces| > 1 {
      var init, l := pieces[..|pieces| - 1], pieces[|pieces| - 1];
      assert pieces == init + [l];
      JoinSnoc(init, l, c);
    }
  }

  /** The second-to-last piece is the separator-free text that ends at the last
      separator and starts right after the separator before it (or at the start). */
  lemma SplitSecondToLast(s: string, c: char)
    requires c in s
    ensures var parts := Split(s, c);
            var seg := parts[|parts| - 2];
            c !in seg &&
            exists i: nat, j: nat {:trigger s[i..j]} ::
              i <= j < |s| && s[i..j] == seg && s[j] == c &&
              c !in s[j + 1..] && (i == 0 || s[i - 1] == c)
  {
    var parts := Split(s, c);
    var n := |parts|;
    var seg, last := parts[n - 2], parts[n - 1];
    JoinSplit(s, c);
    JoinEndsWithLast(parts, c);
    var j := |s| - |last| - 1;
    var head := s[..j];
    JoinEndsWithLast(parts[..n - 1], c);
    assert head == Join(parts[..n - 1], c);
    var i := j - |seg|;
    assert head[i..] == seg;
    assert s[i..j] == seg;
    assert s[j + 1..] == last;
    if i > 0 {
      assert s[i - 1] == head[i - 1];
    }
  }

  /** Every character of every piece comes from the split string. */
  lemma {:induction false} SplitChars(s: string, c: char)
    ensures forall k, x :: 0 <= k < |Split(s, c)| && x in Split(s, c)[k] ==> x in s
  {
    if s != [] {
      SplitChars(s[1..], c);
      var rest := Split(s[1..], c);
      var r := Split(s, c);
      forall k, x | 0 <= k < |r| && x in r[k] ensures x in s {
        if s[0] == c {
          assert r[k] == ([[]] + rest)[k];
          if k > 0 { assert r[k] == rest[k - 1]; assert x in s[1..]; }
        } else if k == 0 {
          assert r[0] == [s[0]] + rest[0];
          if x != s[0] { assert x in rest[0]; assert x in s[1..]; }
        } else {
          assert r[k] == rest[k];
          assert x in s[1..];
        }
      }
    }
  }

  /** Splitting a join of separator-free pieces gives the pieces back. */
  lemma {:induction false} SplitJoin(pieces: seq<string>, c: char)
    requires |pieces| >= 1
    requires forall k :: 0 <= k < |pieces| ==> c !in pieces[k]
    ensures Split(Join(pieces, c), c) == pieces
    decreases |pieces|, |pieces[0]|, 1
  {
    if pieces[0] == [] {
      SplitJoinEmptyHead(pieces, c);
    } else {
      SplitJoinLongHead(pieces, c);
    }
  }

  lemma {:induction false} SplitJoinEmptyHead(pieces: seq<string>, c: char)
    requires |pieces| >= 1 && pieces[0] == []
    requires forall k :: 0 <= k < |pieces| ==> c !in pieces[k]
    ensures Split(Join(pieces, c), c) == pieces
    decreases |pieces|, |pieces[0]|, 0
  {
    if |pieces| > 1 {
      SplitJoin(pieces[1..], c);
      assert Join(pieces, c) == [c] + Join(pieces[1..], c);
      assert Join(pieces, c)[1..] == Join(pieces[1..], c);
    }
  }

  lemma {:induction false} SplitJoinLongHead(pieces: seq<string>, c: char)
    requires |pieces| >= 1 && pieces[0] != []
    requires forall k :: 0 <= k < |pieces| ==> c !in pieces[k]
    ensures Split(Join(pieces, c), c) == pieces
    decreases |pieces|, |pieces[0]|, 0
  {
    var p := pieces[0];
    var shorter := [p[1..]] + pieces[1..];
    assert forall k :: 1 <= k < |shorter| ==> shorter[k] == pieces[k];
    assert c !in p[1..] by { assert forall k :: 0 <= k < |p| - 1 ==> p[1..][k] == p[k + 1]; }
    SplitJoin(shorter, c);
    assert shorter[1..] == pieces[1..];
    assert Join(pieces, c) == [p[0]] + Join(shorter, c);
    assert Join(pieces, c)[1..] == Join(shorter, c);
    assert p[0] != c by { assert p[0] == pieces[0][0]; }
    assert [p[0]] + p[1..] == p;
  }

  // ---------------------------------------------------------------------------
  // str.title(): a letter is upper-cased when the character before it is not a
  // letter (or it is the first character) and lower-cased otherwise

  function TitleChar(afterLetter: bool, c: char): (r: char)
    ensures IsLetter(r) <==> IsLetter(c)
  {
    if !IsLetter(c) then c else if afterLetter then ToLower(c) else ToUpper(c)
  }

  function TitleFrom(s: string, afterLetter: bool): (r: string)
    ensures |r| == |s|
    ensures forall i :: 0 <= i < |s| ==>
      r[i] == TitleChar(if i == 0 then afterLetter else IsLetter(s[i - 1]), s[i])
  {
    if s == [] then []
    else [TitleChar(afterLetter, s[0])] + TitleFrom(s[1..], IsLetter(s[0]))
  }

  function Title(s: string): string {
    TitleFrom(s, false)
  }

  /** Title-casing changes only the case of letters: the first letter of every run of
      letters is upper case, the rest lower case, everything else is unchanged. */
  lemma {:induction false} TitleAt(s: string)
    ensures |Title(s)| == |s|
    ensures forall i :: 0 <= i < |s| ==> (IsLetter(Title(s)[i]) <==> IsLetter(s[i]))
    ensures forall i :: 0 <= i < |s| && !IsLetter(s[i]) ==> Title(s)[i] == s[i]
    ensures forall i :: 0 <= i < |s| && IsLetter(s[i]) && (i == 0 || !IsLetter(s[i - 1])) ==>
      Title(s)[i] == ToUpper(s[i]) && IsUpper(Title(s)[i])
    ensures forall i :: 0 < i < |s| && IsLetter(s[i]) && IsLetter(s[i - 1]) ==>
      Title(s)[i] == ToLower(s[i])
  {
    var t := TitleFrom(s, false);
    assert Title(s) == t;
    forall i | 0 <= i < |s|
      ensures t[i] == TitleChar(i > 0 && IsLetter(s[i - 1]), s[i])
      ensures !IsLetter(s[i]) ==> t[i] == s[i]
      ensures IsLetter(s[i]) ==> IsLetter(t[i])
    {
    }
  }

  /** From position `i` on, every letter already has the case `title()` gives it. */
  predicate TitleCasedFrom(s: string, i: nat)
    decreases |s| - i
  {
    i >= |s| || (s[i] == TitleChar(i > 0 && IsLetter(s[i - 1]), s[i]) && TitleCasedFrom(s, i + 1))
  }

  lemma {:induction false} TitleCasedAt(s: string, i: nat)
    requires TitleCasedFrom(s, i)
    ensures forall j :: i <= j < |s| ==> s[j] == TitleChar(j > 0 && IsLetter(s[j - 1]), s[j])
    decreases |s| - i
  {
    if i < |s| {
      TitleCasedAt(s, i + 1);
    }
  }

  /** Title-casing a string whose letters already have their title case changes nothing. */
  lemma TitleOfTitleCased(s: string)
    requires TitleCasedFrom(s, 0)
    ensures Title(s) == s
  {
    TitleCasedAt(s, 0);
    assert Title(s) == TitleFrom(s, false);
    forall i | 0 <= i < |s| ensures Title(s)[i] == s[i] {
      var after := i > 0 && IsLetter(s[i - 1]);
      assert TitleFrom(s, false)[i] == TitleChar(after, s[i]);
      assert s[i] == TitleChar(after, s[i]);
    }
  }

  /** Title-casing introduces no character other than letters. */
  lemma {:induction false} TitleNonLetters(s: string)
    ensures forall x :: x in Title(s) && !IsLetter(x) ==> x in s
  {
    TitleAt(s);
    forall x | x in Title(s) && !IsLetter(x) ensures x in s {
      var k :| 0 <= k < |Title(s)| && Title(s)[k] == x;
      assert s[k] == x;
    }
  }

  /** Title-casing a title-cased string changes nothing. */
  lemma {:induction false} TitleIdempotent(s: string)
    ensures Title(Title(s)) == Title(s)
  {
    var t := Title(s);
    TitleAt(s);
    TitleAt(t);
    forall i | 0 <= i < |s| ensures Title(t)[i] == t[i] {
      assert IsLetter(t[i]) <==> IsLetter(s[i]);
      if i > 0 { assert IsLetter(t[i - 1]) <==> IsLetter(s[i - 1]); }
    }
  }

  // ---------------------------------------------------------------------------
  // str(n) for a natural number and its inverse int(s)

  function DigitChar(d: nat): char
    requires d < 10
  {
    ('0' as int + d) as char
  }

  function DigitValue(c: char): nat {
    if IsDigit(c) then c as int - '0' as int else 0
  }

  /** `str(n)`: decimal digits, most significant first, no leading zero. */
  function Decimal(n: nat): (r: string)
    ensures |r| >= 1
    ensures forall k :: 0 <= k < |r| ==> IsDigit(r[k])
    ensures |r| > 1 ==> r[0] != '0'
    decreases n
  {
    if n < 10 then [DigitChar(n)] else Decimal(n / 10) + [DigitChar(n % 10)]
  }

  /** `int(s)` for a string of decimal digits. */
  function ParseDecimal(s: string): nat {
    if s == [] then 0 else 10 * ParseDecimal(s[..|s| - 1]) + DigitValue(s[|s| - 1])
  }

  lemma {:induction false} DecimalRoundTrip(n: nat)
    ensures ParseDecimal(Decimal(n)) == n
    decreases n
  {
    if n >= 10 {
      var s := Decimal(n);
      assert s[..|s| - 1] == Decimal(n / 10);
      DecimalRoundTrip(n / 10);
    }
  }

  /** Different numbers have different decimal forms. */
  lemma {:induction false} DecimalInjective(m: nat, n: nat)
    ensures Decimal(m) == Decimal(n) <==> m == n
  {
    DecimalRoundTrip(m);
    DecimalRoundTrip(n);
  }

  // ---------------------------------------------------------------------------
  // The literal part of a str.format template

  /** The text a `str.format` template fragment stands for when it holds no
      replacement field: `{{` and `}}` stand for one brace each. `None` when the
      fragment has any other brace, which opens or closes a replacement field. */
  function FormatLiteral(s: string): (r: Option<string>)
    ensures r.Some? ==> |r.value| <= |s|
    decreases |s|
  {
    if s == [] then Some([])
    else if IsBrace(s[0]) && (|s| < 2 || s[1] != s[0]) then None
    else
      var n := if IsBrace(s[0]) then 2 else 1;
      match FormatLiteral(s[n..])
      case None => None
      case Some(t) => Some([s[0]] + t)
  }

  predicate IsBrace(c: char) { c == '{' || c == '}' }

  /** A fragment without braces stands for itself. */
  lemma {:induction false} FormatLiteralPlain(s: string)
    requires forall k :: 0 <= k < |s| ==> !IsBrace(s[k])
    ensures FormatLiteral(s) == Some(s)
    decreases |s|
  {
    if s != [] {
      var t := s[1..];
      assert !IsBrace(s[0]);
      assert forall k :: 0 <= k < |t| ==> t[k] == s[k + 1];
      FormatLiteralPlain(t);
      assert s == [s[0]] + t;
    }
  }

  /** A lone brace, after a brace-free start, makes the fragment a malformed or
      non-literal template. */
  lemma {:induction false} FormatLiteralLoneBrace(a: string, b: string)
    requires forall k :: 0 <= k < |a| ==> !IsBrace(a[k])
    requires b != [] && IsBrace(b[0]) && (|b| < 2 || b[1] != b[0])
    ensures FormatLiteral(a + b) == None
    decreases |a|
  {
    if a == [] {
      assert a + b == b;
    } else {
      var t := a[1..];
      assert !IsBrace(a[0]);
      assert forall k :: 0 <= k < |t| ==> t[k] == a[k + 1];
      FormatLiteralLoneBrace(t, b);
      assert (a + b)[1..] == t + b;
    }
  }

  /** A doubled brace, after a brace-free start, stands for one brace. */
  lemma {:induction false} FormatLiteralDoubledBrace(a: string, c: char, b: string)
    requires forall k :: 0 <= k < |a| ==> !IsBrace(a[k])
    requires forall k :: 0 <= k < |b| ==> !IsBrace(b[k])
    requires IsBrace(c)
    ensures FormatLiteral(a + [c, c] + b) == Some(a + [c] + b)
    decreases |a|
  {
    if a == [] {
      var s := [c, c] + b;
      assert a + [c, c] + b == s;
      assert s[2..] == b;
      FormatLiteralPlain(b);
      assert a + [c] + b == [c] + b;
    } else {
      var t := a[1..];
      assert !IsBrace(a[0]);
      assert forall k :: 0 <= k < |t| ==> t[k] == a[k + 1];
      FormatLiteralDoubledBrace(t, c, b);
      assert (a + [c, c] + b)[1..] == t + [c, c] + b;
      assert a + [c] + b == [a[0]] + (t + [c] + b);
    }
  }

  /** The literal scan works piecewise: a well-formed start followed by a fragment
      gives the two texts joined, or fails exactly when the fragment does. */
  lemma {:induction false} FormatLiteralAppend(a: string, b: string)
    requires FormatLiteral(a).Some?
    ensures FormatLiteral(b).None? ==> FormatLiteral(a + b).None?
    ensures FormatLiteral(b).Some? ==>
      FormatLiteral(a + b) == Some(FormatLiteral(a).value + FormatLiteral(b).value)
    decreases |a|
  {
    if a == [] {
      assert a + b == b;
      if FormatLiteral(b).Some? {
        assert [] + FormatLiteral(b).value == FormatLiteral(b).value;
      }
    } else {
      var n := if IsBrace(a[0]) then 2 else 1;
      var rest := a[n..];
      assert IsBrace(a[0]) ==> |a| >= 2 && a[1] == a[0];
      assert FormatLiteral(rest).Some?;
      var t := FormatLiteral(rest).value;
      assert FormatLiteral(a).value == [a[0]] + t;
      assert (a + b)[0] == a[0] && (IsBrace(a[0]) ==> (a + b)[1] == a[1]);
      assert (a + b)[n..] == rest + b;
      FormatLiteralAppend(rest, b);
      if FormatLiteral(b).Some? {
        assert [a[0]] + (t + FormatLiteral(b).value) == [a[0]] + t + FormatLiteral(b).value;
      }
    }
  }
}
