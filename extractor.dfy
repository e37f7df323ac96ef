/**
 * The expiry-date extractor: the callback that the renewal script evaluates
 * in the page after login. It scans the body text with the global pattern
 * `\d{4}[-/]\d{2}[-/]\d{2}`, drops every match that contains today's date
 * (in its dash spelling or its slash spelling) and returns the first match
 * left, the first match at all when none is left, or "Not Found".
 */
module DateExtractor {

  /** The sentinel returned when the body text holds no date-shaped substring. */
  const NotFound: string := "Not Found"

  /** Every match of the pattern is exactly this long. */
  const DateLength: nat := 10

  predicate IsDigit(c: char) { '0' <= c <= '9' }

  predicate IsSeparator(c: char) { c == '-' || c == '/' }

  /** `d` matches `\d{4}[-/]\d{2}[-/]\d{2}`; the two separators are chosen independently. */
  predicate IsDateShaped(d: string) {
    |d| == DateLength &&
    IsDigit(d[0]) && IsDigit(d[1]) && IsDigit(d[2]) && IsDigit(d[3]) &&
    IsSeparator(d[4]) &&
    IsDigit(d[5]) && IsDigit(d[6]) &&
    IsSeparator(d[7]) &&
    IsDigit(d[8]) && IsDigit(d[9])
  }

  /** The pattern matches `text` starting at position `p`. */
  predicate IsDateAt(text: string, p: int) {
    0 <= p && p + DateLength <= |text| && IsDateShaped(text[p..p + DateLength])
  }

  /** No match of the pattern starts in the interval [lo, hi). */
  predicate NoDateIn(text: string, lo: int, hi: int) {
    forall p :: lo <= p < hi ==> !IsDateAt(text, p)
  }

  /**
   * The start positions of the matches that a global regular-expression
   * search finds when it resumes at `from`: the leftmost match at or after
   * the cursor, then the cursor moves to the end of that match.
   */
  function MatchStarts(text: string, from: nat): (ps: seq<nat>)
    ensures forall k :: 0 <= k < |ps| ==> from <= ps[k] && IsDateAt(text, ps[k])
    decreases |text| - from
  {
    if from + DateLength > |text| then []
    else if IsDateAt(text, from) then [from] + MatchStarts(text, from + DateLength)
    else MatchStarts(text, from + 1)
  }

  /** `bodyText.match(dateRegex)`, with `null` read as the empty sequence. */
  function FindDates(text: string): (ds: seq<string>)
    ensures forall k :: 0 <= k < |ds| ==> IsDateShaped(ds[k])
  {
    var ps := MatchStarts(text, 0);
    seq(|ps|, k requires 0 <= k < |ps| => text[ps[k]..ps[k] + DateLength])
  }

  // ---------------------------------------------------------------------------
  // An independent description of the global search: a leftmost,
  // non-overlapping scan.

  /**
   * `ps` lists matches left to right: each one is the leftmost match at or
   * after the end of the previous one (at or after `from` for the first), and
   * no match starts after the end of the last one.
   */
  ghost predicate IsLeftmostScan(text: string, from: nat, ps: seq<nat>)
    decreases ps
  {
    if ps == [] then NoDateIn(text, from, |text|)
    else
      from <= ps[0] && IsDateAt(text, ps[0]) && NoDateIn(text, from, ps[0]) &&
      IsLeftmostScan(text, ps[0] + DateLength, ps[1..])
  }

  /** A match at the cursor followed by a scan from its end is a scan from the cursor. */
  lemma ScanPrepend(text: string, from: nat, rest: seq<nat>)
    requires IsDateAt(text, from) && IsLeftmostScan(text, from + DateLength, rest)
    ensures IsLeftmostScan(text, from, [from] + rest)
  {
    var ps := [from] + rest;
    assert ps[0] == from && ps[1..] == rest;
    assert NoDateIn(text, from, from);
  }

  /** A position where nothing matches may be added in front of a scan. */
  lemma ScanSkip(text: string, from: nat, ps: seq<nat>)
    requires !IsDateAt(text, from) && IsLeftmostScan(text, from + 1, ps)
    ensures IsLeftmostScan(text, from, ps)
  {
    if ps == [] {
      assert NoDateIn(text, from + 1, |text|);
    } else {
      assert NoDateIn(text, from + 1, ps[0]);
    }
  }

  lemma {:induction false} MatchStartsIsLeftmostScan(text: string, from: nat)
    ensures IsLeftmostScan(text, from, MatchStarts(text, from))
    decreases |text| - from
  {
    if from + DateLength > |text| {
      assert MatchStarts(text, from) == [];
      assert NoDateIn(text, from, |text|);
    } else if IsDateAt(text, from) {
      MatchStartsIsLeftmostScan(text, from + DateLength);
      ScanPrepend(text, from, MatchStarts(text, from + DateLength));
    } else {
      MatchStartsIsLeftmostScan(text, from + 1);
      ScanSkip(text, from, MatchStarts(text, from + 1));
    }
  }

  /** Two leftmost scans of the same text from the same cursor agree. */
  lemma {:induction false} LeftmostScanUnique(text: string, from: nat, ps: seq<nat>, qs: seq<nat>)
    requires IsLeftmostScan(text, from, ps) && IsLeftmostScan(text, from, qs)
    ensures ps == qs
    decreases ps
  {
    if ps != [] && qs != [] {
      LeftmostScanUnique(text, ps[0] + DateLength, ps[1..], qs[1..]);
      assert ps == [ps[0]] + ps[1..];
      assert qs == [qs[0]] + qs[1..];
    }
  }

  /** The search finds exactly the leftmost non-overlapping scan of the whole text. */
  lemma MatchStartsCharacterized(text: string, ps: seq<nat>)
    ensures IsLeftmostScan(text, 0, ps) <==> ps == MatchStarts(text, 0)
  {
    MatchStartsIsLeftmostScan(text, 0);
    if IsLeftmostScan(text, 0, ps) {
      LeftmostScanUnique(text, 0, ps, MatchStarts(text, 0));
    }
  }

  // ---------------------------------------------------------------------------
  // Filtering out today's date and picking the result.

  /** `today.replace(/-/g, '/')`: every `-` becomes `/`. */
  function Slashed(s: string): (r: string)
    ensures |r| == |s|
    ensures forall i :: 0 <= i < |s| ==> r[i] == (if s[i] == '-' then '/' else s[i])
  {
    if s == [] then [] else [if s[0] == '-' then '/' else s[0]] + Slashed(s[1..])
  }

  /** `t` occurs in `s` starting at position `i`. */
  predicate OccursAt(s: string, t: string, i: nat) {
    i + |t| <= |s| && s[i..i + |t|] == t
  }

  /** `s.includes(t)`. */
  predicate Contains(s: string, t: string)
    ensures s == t ==> Contains(s, t)
    ensures Contains(s, t) ==> |t| <= |s|
  {
    assert s == t ==> OccursAt(s, t, 0);
    exists i: nat | i <= |s| :: OccursAt(s, t, i)
  }

  /** The filter's test at main.mjs: a match is dropped when it contains today in either spelling. */
  predicate Excluded(d: string, today: string)
    ensures d == today || d == Slashed(today) ==> Excluded(d, today)
    ensures Excluded(d, today) ==> |today| <= |d|
  {
    Contains(d, Slashed(today)) || Contains(d, today)
  }

  /** `matches.filter(d => !Excluded(d, today))`. */
  function Survivors(ms: seq<string>, today: string): (vs: seq<string>)
    ensures |vs| <= |ms|
    ensures forall k :: 0 <= k < |vs| ==> vs[k] in ms && !Excluded(vs[k], today)
  {
    if ms == [] then []
    else if Excluded(ms[0], today) then Survivors(ms[1..], today)
    else [ms[0]] + Survivors(ms[1..], today)
  }

  /** The value the evaluated callback returns for the given body text and today's date. */
  function Extract(text: string, today: string): (r: string)
    ensures r == NotFound <==> FindDates(text) == []
    ensures r != NotFound ==> r in FindDates(text)
  {
    var matches := FindDates(text);
    if |matches| > 0 then
      var valid := Survivors(matches, today);
      if |valid| > 0 then valid[0] else matches[0]
    else NotFound
  }

  // ---------------------------------------------------------------------------
  // Properties of the extractor.

  /** The first element that passes the filter is the head of the filtered sequence. */
  lemma {:induction false} SurvivorsHead(ms: seq<string>, today: string, k: nat)
    requires k < |ms| && !Excluded(ms[k], today)
    requires forall j :: 0 <= j < k ==> Excluded(ms[j], today)
    ensures |Survivors(ms, today)| > 0 && Survivors(ms, today)[0] == ms[k]
  {
    if k > 0 {
      assert Excluded(ms[0], today);
      SurvivorsHead(ms[1..], today, k - 1);
    }
  }

  /** When every element fails the filter, nothing survives. */
  lemma {:induction false} SurvivorsNone(ms: seq<string>, today: string)
    requires forall j :: 0 <= j < |ms| ==> Excluded(ms[j], today)
    ensures Survivors(ms, today) == []
  {
    if ms != [] {
      SurvivorsNone(ms[1..], today);
    }
  }

  /** "Not Found" is returned exactly when no substring of the text matches the pattern. */
  lemma ExtractNotFoundIff(text: string, today: string)
    ensures Extract(text, today) == NotFound <==> forall p :: !IsDateAt(text, p)
  {
    var ps := MatchStarts(text, 0);
    MatchStartsIsLeftmostScan(text, 0);
    if ps == [] {
      assert NoDateIn(text, 0, |text|);
      forall p ensures !IsDateAt(text, p) {
        if 0 <= p < |text| {
          assert !IsDateAt(text, p);
        }
      }
    } else {
      assert IsDateAt(text, ps[0]);
      assert |FindDates(text)| == |ps|;
    }
  }

  /** Anything but "Not Found" is a date-shaped substring of the body text. */
  lemma ExtractIsSubstring(text: string, today: string)
    ensures Extract(text, today) != NotFound ==>
      IsDateShaped(Extract(text, today)) &&
      exists p :: IsDateAt(text, p) && text[p..p + DateLength] == Extract(text, today)
  {
    var r := Extract(text, today);
    if r != NotFound {
      var ds := FindDates(text);
      var ps := MatchStarts(text, 0);
      var k :| 0 <= k < |ds| && ds[k] == r;
      assert IsDateAt(text, ps[k]) && text[ps[k]..ps[k] + DateLength] == r;
    }
  }

  /** With a match that passes the filter, the result is the first such match in text order. */
  lemma ExtractFirstSurvivor(text: string, today: string, k: nat)
    requires k < |FindDates(text)| && !Excluded(FindDates(text)[k], today)
    requires forall j :: 0 <= j < k ==> Excluded(FindDates(text)[j], today)
    ensures Extract(text, today) == FindDates(text)[k]
  {
    SurvivorsHead(FindDates(text), today, k);
  }

  /** When every match is excluded, the result falls back to the first match. */
  lemma ExtractAllExcluded(text: string, today: string)
    requires |FindDates(text)| > 0
    requires forall j :: 0 <= j < |FindDates(text)| ==> Excluded(FindDates(text)[j], today)
    ensures Extract(text, today) == FindDates(text)[0]
  {
    SurvivorsNone(FindDates(text), today);
  }

  /** Between strings of equal length, containment is equality. */
  lemma ContainsSameLength(s: string, t: string)
    requires |s| == |t|
    ensures Contains(s, t) <==> s == t
  {
    if s == t {
      assert OccursAt(s, t, 0);
    }
    if Contains(s, t) {
      var i: nat :| i <= |s| && OccursAt(s, t, i);
      assert i == 0;
      assert s[0..|t|] == s;
    }
  }

  /**
   * For a match and a today of the same length (a ten-character date), the
   * filter drops exactly the pure-dash and the pure-slash spellings of today.
   */
  lemma ExcludedIffToday(d: string, today: string)
    requires |d| == |today|
    ensures Excluded(d, today) <==> d == today || d == Slashed(today)
  {
    ContainsSameLength(d, today);
    ContainsSameLength(d, Slashed(today));
  }

  /**
   * A match whose two separators differ is never dropped when today is the
   * dash date that `toISOString` yields: only the pure spellings are compared.
   */
  lemma MixedSeparatorKept(d: string, today: string)
    requires IsDateShaped(d) && d[4] != d[7]
    requires IsDateShaped(today) && today[4] == '-' && today[7] == '-'
    ensures !Excluded(d, today)
  {
    ExcludedIffToday(d, today);
    assert Slashed(today)[4] == '/' && Slashed(today)[7] == '/';
  }

  /** The two matches in a text holding today's date in pure and in mixed spelling. */
  lemma MixedSeparatorMatches()
    ensures MatchStarts("2025-06-10 2025-06/10", 0) == [0, 11]
  {
    var text := "2025-06-10 2025-06/10";
    assert text[0..10] == "2025-06-10" && IsDateShaped("2025-06-10");
    assert text[10..20] == " 2025-06/1";
    assert text[11..21] == "2025-06/10" && IsDateShaped("2025-06/10");
    assert MatchStarts(text, 21) == [];
    assert MatchStarts(text, 11) == [11];
    assert MatchStarts(text, 10) == [11];
  }

  lemma MixedSeparatorDates()
    ensures FindDates("2025-06-10 2025-06/10") == ["2025-06-10", "2025-06/10"]
  {
    var text := "2025-06-10 2025-06/10";
    MixedSeparatorMatches();
    assert text[0..10] == "2025-06-10" && text[11..21] == "2025-06/10";
    assert FindDates(text) == [text[0..10], text[11..21]];
  }

  /**
   * Today's date followed by a mixed spelling of a date: the mixed spelling
   * is picked, whereas the pure spelling of today is skipped.
   */
  lemma TodayThenMixedSpelling(text: string, today: string, mixed: string)
    requires IsDateShaped(today) && today[4] == '-' && today[7] == '-'
    requires IsDateShaped(mixed) && mixed[4] != mixed[7]
    requires FindDates(text) == [today, mixed]
    ensures Extract(text, today) == mixed
  {
    var ds := FindDates(text);
    assert OccursAt(ds[0], today, 0);
    MixedSeparatorKept(ds[1], today);
    ExtractFirstSurvivor(text, today, 1);
  }

  /** An instance: on the run date 2025-06-10 the spelling 2025-06/10 is extracted, not skipped. */
  lemma MixedSeparatorExample()
    ensures Extract("2025-06-10 2025-06/10", "2025-06-10") == "2025-06/10"
  {
    MixedSeparatorDates();
    TodayThenMixedSpelling("2025-06-10 2025-06/10", "2025-06-10", "2025-06/10");
  }
}
