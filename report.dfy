/**
 * The status report that the renewal script writes in its `finally` block:
 * the run time in `YYYY-MM-DD HH:MM:SS` form, a status glyph, the expiry date
 * captured before renewal and, on success only, a "renewed" marker line.
 */
module RunReport {

  /** The two values that the run status takes. */
  const SuccessStatus: string := "Success"
  const FailedStatus: string := "Failed"

  const SuccessGlyph: string := "✅Success"
  const FailedGlyph: string := "❌Failed"

  // ---------------------------------------------------------------------------
  // The timestamp: `iso.replace(/T/, ' ').replace(/\..+/, '')`.

  /** `s.replace(x, y)` for a pattern of one character without the global flag: only the first `x` changes. */
  function ReplaceFirst(s: string, x: char, y: char): (r: string)
    ensures |r| == |s|
    ensures forall c :: c in r ==> c in s || c == y
  {
    if s == [] then []
    else if s[0] == x then [y] + s[1..]
    else [s[0]] + ReplaceFirst(s[1..], x, y)
  }

  /** The characters that the regular-expression wildcard `.` does not match. */
  predicate IsLineTerminator(c: char) {
    c == '\n' || c == '\r' || c == '\U{2028}' || c == '\U{2029}'
  }

  /** The pattern `\..+` can start matching at `p`: a dot followed by at least one wildcard character. */
  predicate FractionAt(s: string, p: int) {
    0 <= p && p + 1 < |s| && s[p] == '.' && !IsLineTerminator(s[p + 1])
  }

  /** The leftmost position at or after `from` where `\..+` matches, or `|s|` when there is none. */
  function FractionStart(s: string, from: nat): (p: nat)
    requires from <= |s|
    ensures from <= p <= |s|
    ensures p < |s| ==> FractionAt(s, p)
    ensures forall q :: from <= q < p ==> !FractionAt(s, q)
    decreases |s| - from
  {
    if from == |s| then |s|
    else if FractionAt(s, from) then from
    else FractionStart(s, from + 1)
  }

  /** Where the greedy `.+` that starts at `from` stops: the next line terminator or the end. */
  function WildcardEnd(s: string, from: nat): (q: nat)
    requires from <= |s|
    ensures from <= q <= |s|
    ensures q < |s| ==> IsLineTerminator(s[q])
    ensures forall i :: from <= i < q ==> !IsLineTerminator(s[i])
    decreases |s| - from
  {
    if from == |s| || IsLineTerminator(s[from]) then from
    else WildcardEnd(s, from + 1)
  }

  /** `s.replace(/\..+/, '')`: the first match of `\..+` is cut out. */
  function StripFraction(s: string): (r: string)
    ensures forall c :: c in r ==> c in s
  {
    var p := FractionStart(s, 0);
    if p == |s| then s
    else s[..p] + s[WildcardEnd(s, p + 1)..]
  }

  /** The run time as printed in the report, from the (already shifted) ISO timestamp. */
  function FormatTimestamp(iso: string): (r: string)
    ensures forall c :: c in r ==> c in iso || c == ' '
  {
    StripFraction(ReplaceFirst(iso, 'T', ' '))
  }

  // ---------------------------------------------------------------------------
  // The glyph and the report body.

  function Glyph(status: string): (g: string)
    ensures g == SuccessGlyph <==> status == SuccessStatus
    ensures g == SuccessGlyph || g == FailedGlyph
  {
    if status == SuccessStatus then SuccessGlyph else FailedGlyph
  }

  function TimeLine(time: string): string { "**最后运行时间**: `" + time + "`" }

  const ResultHeading: string := "**运行结果**: <br>"

  const ServerLine: string := "🖥️服务器：`🇯🇵Xserver(VPS)`<br>"

  function GlyphLine(glyph: string): string { "📊续期结果：" + glyph + "<br>" }

  function OldExpiryLine(oldExpiry: string): string { "🕛️旧到期时间: `" + oldExpiry + "`<br>" }

  const NewExpiryLine: string := "🕡️新到期时间: `已续期`<br>"

  /** The lines of the Markdown body written to the report file. */
  function ReadmeLines(status: string, oldExpiry: string, iso: string): (ls: seq<string>)
    ensures |ls| == 7
    ensures ls[4] == GlyphLine(if status == SuccessStatus then SuccessGlyph else FailedGlyph)
    ensures ls[5] == OldExpiryLine(oldExpiry)
    ensures ls[6] == NewExpiryLine <==> status == SuccessStatus
    ensures ls[6] == "" <==> status != SuccessStatus
  {
    [TimeLine(FormatTimestamp(iso)), "", ResultHeading, ServerLine,
     GlyphLine(Glyph(status)), OldExpiryLine(oldExpiry),
     if status == SuccessStatus then NewExpiryLine else ""]
  }

  /** The template literal: its lines joined by line breaks. */
  function ReadmeContent(status: string, oldExpiry: string, iso: string): (r: string)
    ensures |TimeLine(FormatTimestamp(iso))| < |r|
    ensures r[..|TimeLine(FormatTimestamp(iso))|] == TimeLine(FormatTimestamp(iso))
    ensures status == SuccessStatus ==>
      |NewExpiryLine| < |r| && r[|r| - |NewExpiryLine|..] == NewExpiryLine
    ensures status != SuccessStatus ==> r[|r| - 1] == '\n'
  {
    JoinLinesEnds(ReadmeLines(status, oldExpiry, iso));
    JoinLines(ReadmeLines(status, oldExpiry, iso))
  }

  /** The lines `ls` written one after another with `\n` between them. */
  function JoinLines(ls: seq<string>): string
    requires |ls| >= 1
  {
    if |ls| == 1 then ls[0] else ls[0] + "\n" + JoinLines(ls[1..])
  }

  /** Joined lines start with the first line and end with the last, each set off by a line break. */
  lemma {:induction false} JoinLinesEnds(ls: seq<string>)
    requires |ls| >= 1
    ensures var r := JoinLines(ls);
      |ls[0]| <= |r| && r[..|ls[0]|] == ls[0] &&
      |Last(ls)| <= |r| && r[|r| - |Last(ls)|..] == Last(ls)
    ensures var r := JoinLines(ls);
      |ls| > 1 ==> (|ls[0]| < |r| && r[|ls[0]|] == '\n' &&
                    |Last(ls)| < |r| && r[|r| - |Last(ls)| - 1] == '\n')
    decreases |ls|
  {
    if |ls| > 1 {
      var rest := JoinLines(ls[1..]);
      JoinLinesEnds(ls[1..]);
      assert Last(ls[1..]) == Last(ls);
      var r := ls[0] + "\n" + rest;
      assert JoinLines(ls) == r;
      assert r[|r| - |rest|..] == rest;
      assert r[|r| - |Last(ls)|..] == rest[|rest| - |Last(ls)|..];
    }
  }

  function Last(ls: seq<string>): string
    requires |ls| >= 1
  {
    ls[|ls| - 1]
  }

  // ---------------------------------------------------------------------------
  // Reading a report back line by line.

  /** The lines of `s`, split at every `\n`; a trailing `\n` leaves an empty last line. */
  function Lines(s: string): (ls: seq<string>)
    ensures |ls| >= 1
    ensures forall k :: 0 <= k < |ls| ==> '\n' !in ls[k]
    decreases |s|
  {
    if s == [] then [""]
    else
      var rest := Lines(s[1..]);
      if s[0] == '\n' then [""] + rest
      else [[s[0]] + rest[0]] + rest[1..]
  }

  lemma {:induction false} LinesOfLine(a: string)
    requires '\n' !in a
    ensures Lines(a) == [a]
    decreases |a|
  {
    if a != [] {
      LinesOfLine(a[1..]);
      assert [a[0]] + a[1..] == a;
    }
  }

  lemma {:induction false} LinesJoin(a: string, b: string)
    requires '\n' !in a
    ensures Lines(a + "\n" + b) == [a] + Lines(b)
    decreases |a|
  {
    var s := a + "\n" + b;
    if a == [] {
      assert s[0] == '\n' && s[1..] == b;
    } else {
      assert s[0] == a[0];
      assert s[1..] == a[1..] + "\n" + b;
      LinesJoin(a[1..], b);
      assert [a[0]] + a[1..] == a;
    }
  }

  /** Splitting at line breaks undoes joining lines that hold none. */
  lemma {:induction false} LinesJoinLines(ls: seq<string>)
    requires |ls| >= 1
    requires forall k :: 0 <= k < |ls| ==> '\n' !in ls[k]
    ensures Lines(JoinLines(ls)) == ls
    decreases |ls|
  {
    if |ls| == 1 {
      assert JoinLines(ls) == ls[0];
      LinesOfLine(ls[0]);
    } else {
      var rest := JoinLines(ls[1..]);
      assert JoinLines(ls) == ls[0] + "\n" + rest;
      LinesJoinLines(ls[1..]);
      LinesJoin(ls[0], rest);
      assert [ls[0]] + ls[1..] == ls;
    }
  }

  /** None of the report's fixed texts holds a line break. */
  lemma FixedTextsOneLine()
    ensures '\n' !in ResultHeading && '\n' !in ServerLine && '\n' !in NewExpiryLine
    ensures '\n' !in SuccessGlyph && '\n' !in FailedGlyph
  {
  }

  /** The report's lines hold no line break when the captured date and the timestamp hold none. */
  lemma ReadmeLinesOneLine(status: string, oldExpiry: string, iso: string)
    requires '\n' !in oldExpiry && '\n' !in iso
    ensures forall k :: 0 <= k < 7 ==> '\n' !in ReadmeLines(status, oldExpiry, iso)[k]
  {
    FixedTextsOneLine();
    var ls := ReadmeLines(status, oldExpiry, iso);
    assert '\n' !in FormatTimestamp(iso);
    assert '\n' !in Glyph(status);
    assert '\n' !in ls[0] && '\n' !in ls[4] && '\n' !in ls[5];
  }

  /**
   * The report read back: seven lines, the time, a blank line, the heading,
   * the server, the glyph, the old expiry date as captured, and the "renewed"
   * marker exactly on success (an empty last line otherwise).
   */
  lemma ReportRoundTrip(status: string, oldExpiry: string, iso: string)
    requires '\n' !in oldExpiry && '\n' !in iso
    ensures Lines(ReadmeContent(status, oldExpiry, iso)) == ReadmeLines(status, oldExpiry, iso)
  {
    ReadmeLinesOneLine(status, oldExpiry, iso);
    LinesJoinLines(ReadmeLines(status, oldExpiry, iso));
  }

  /** The "renewed" marker is one of the report's lines exactly when the status is "Success". */
  lemma NewExpiryLineIffSuccess(status: string, oldExpiry: string, iso: string)
    requires '\n' !in oldExpiry && '\n' !in iso
    ensures NewExpiryLine in Lines(ReadmeContent(status, oldExpiry, iso)) <==> status == SuccessStatus
  {
    ReportRoundTrip(status, oldExpiry, iso);
    assert TimeLine(FormatTimestamp(iso))[0] != NewExpiryLine[0];
    assert GlyphLine(Glyph(status))[0] != NewExpiryLine[0];
    assert OldExpiryLine(oldExpiry)[0] != NewExpiryLine[0];
    assert ResultHeading[0] != NewExpiryLine[0] && ServerLine[0] != NewExpiryLine[0];
  }

  // ---------------------------------------------------------------------------
  // Properties of the timestamp.

  /** The first `x` is replaced, everything else is kept; with no `x` the string is unchanged. */
  lemma {:induction false} ReplaceFirstAt(s: string, x: char, y: char, i: nat)
    requires i < |s| && s[i] == x && x !in s[..i]
    ensures ReplaceFirst(s, x, y) == s[..i] + [y] + s[i + 1..]
  {
    if i > 0 {
      assert s[0] in s[..i];
      assert s[1..][..i - 1] == s[1..i];
      assert x !in s[1..][..i - 1];
      ReplaceFirstAt(s[1..], x, y, i - 1);
      assert s[..i] == [s[0]] + s[1..][..i - 1];
    }
  }

  lemma {:induction false} ReplaceFirstAbsent(s: string, x: char, y: char)
    requires x !in s
    ensures ReplaceFirst(s, x, y) == s
  {
    if s != [] {
      assert s[1..] == s[..][1..];
      ReplaceFirstAbsent(s[1..], x, y);
    }
  }

  /**
   * On a one-line string, cutting the fraction keeps exactly what precedes
   * the first dot that some character follows.
   */
  lemma StripFractionOneLine(s: string, i: nat)
    requires forall k :: 0 <= k < |s| ==> !IsLineTerminator(s[k])
    requires i + 1 < |s| && s[i] == '.' && '.' !in s[..i]
    ensures StripFraction(s) == s[..i]
  {
    var p := FractionStart(s, 0);
    assert FractionAt(s, i);
    assert p == i;
    assert WildcardEnd(s, p + 1) == |s|;
  }

  /** The shape `YYYY-MM-DDTHH:mm:ss.sssZ` that `toISOString` yields for years 0 to 9999. */
  predicate IsIsoInstant(iso: string) {
    |iso| == 24 &&
    (forall k :: k in {0, 1, 2, 3, 5, 6, 8, 9, 11, 12, 14, 15, 17, 18, 20, 21, 22} ==> '0' <= iso[k] <= '9') &&
    iso[4] == '-' && iso[7] == '-' && iso[10] == 'T' && iso[13] == ':' && iso[16] == ':' &&
    iso[19] == '.' && iso[23] == 'Z'
  }

  /** An ISO instant is printed as its date, a space and its time of day to the second. */
  lemma FormatIsoInstant(iso: string)
    requires IsIsoInstant(iso)
    ensures FormatTimestamp(iso) == iso[..10] + " " + iso[11..19]
  {
    assert forall k :: 0 <= k < 10 ==> iso[k] != 'T';
    assert 'T' !in iso[..10];
    ReplaceFirstAt(iso, 'T', ' ', 10);
    var t := ReplaceFirst(iso, 'T', ' ');
    assert t == iso[..10] + " " + iso[11..];
    assert forall k :: 0 <= k < 19 ==> t[k] != '.';
    assert '.' !in t[..19];
    assert forall k :: 0 <= k < |t| ==> !IsLineTerminator(t[k]);
    StripFractionOneLine(t, 19);
    assert t[..19] == iso[..10] + " " + iso[11..19];
  }
}
