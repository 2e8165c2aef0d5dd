/**
 * The changelog summariser: a line-oriented Markdown scan that cuts a
 * changelog into `#`/`##` sections and counts the list items of each, and the
 * rule that turns those sections and the latest release tag into the row shown
 * in the menu ("Unreleased" badge, "Since <tag>" badge, "Up to date" or
 * nothing).  The regular expressions of `isListItemLine` and
 * `versionMatch` are replaced by scanners that agree with them on ASCII
 * digits and word characters.
 */
module ChangelogParser {
  import opened Wrappers
  import opened Strings
  import Decimal

  datatype ChangelogSection = ChangelogSection(title: string, entryCount: nat)

  datatype ChangelogParsed = ChangelogParsed(sections: seq<ChangelogSection>)

  datatype ChangelogRowPresentation =
    ChangelogRowPresentation(title: string, badgeText: Option<string>, detailText: Option<string>)

  /** A section is the unreleased one when its title mentions "unreleased", in any case. */
  predicate IsUnreleased(section: ChangelogSection) {
    ContainsIgnoringCase(section.title, "unreleased")
  }

  /** The unreleased sections are those whose ASCII-lower-cased title has "unreleased" at some position. */
  lemma IsUnreleasedIff(section: ChangelogSection)
    ensures IsUnreleased(section) <==> exists i :: OccursAt(Lower(section.title), "unreleased", i)
  {
    LowerNoUpperCase("unreleased");
    ContainsIff(Lower(section.title), "unreleased");
  }

  // ---------------------------------------------------------------------------
  // Lines

  /** Every CR LF pair becomes a single LF, scanning left to right. */
  function NormalizeLineEndings(s: string): (r: string)
    ensures |r| <= |s|
    decreases |s|
  {
    if |s| < 2 then s
    else if s[0] == '\r' && s[1] == '\n' then "\n" + NormalizeLineEndings(s[2..])
    else [s[0]] + NormalizeLineEndings(s[1..])
  }

  /** The lines of a changelog: CR LF normalised, then split at every newline character, empty lines kept. */
  function Lines(markdown: string): (lines: seq<string>)
    ensures |lines| >= 1
    ensures forall j :: 0 <= j < |lines| ==> NoneOf(lines[j], IsNewline)
  {
    SplitKeepingEmpty(NormalizeLineEndings(markdown), IsNewline)
  }

  lemma {:induction false} NormalizeAfterPlainPrefix(a: string, b: string)
    requires NoneOf(a, IsNewline)
    ensures NormalizeLineEndings(a + b) == a + NormalizeLineEndings(b)
    decreases |a|
  {
    if a != [] {
      var s := a + b;
      assert s[0] == a[0];
      if |s| >= 2 {
        assert s[1..] == a[1..] + b;
        NormalizeAfterPlainPrefix(a[1..], b);
      } else {
        assert b == [] && a == s;
      }
    } else {
      assert a + b == b;
    }
  }

  lemma {:induction false} NormalizeJoin(lines: seq<string>)
    requires forall j :: 0 <= j < |lines| ==> NoneOf(lines[j], IsNewline)
    ensures NormalizeLineEndings(Join(lines, "\r\n")) == Join(lines, "\n")
    decreases |lines|
  {
    if |lines| == 1 {
      NormalizeAfterPlainPrefix(lines[0], []);
      assert lines[0] + [] == lines[0];
    } else if |lines| > 1 {
      var rest := Join(lines[1..], "\r\n");
      assert Join(lines, "\r\n") == lines[0] + ("\r\n" + rest);
      NormalizeAfterPlainPrefix(lines[0], "\r\n" + rest);
      assert ("\r\n" + rest)[2..] == rest;
      NormalizeJoin(lines[1..]);
    }
  }

  lemma {:induction false} NormalizeJoinLf(lines: seq<string>)
    requires forall j :: 0 <= j < |lines| ==> NoneOf(lines[j], IsNewline)
    ensures NormalizeLineEndings(Join(lines, "\n")) == Join(lines, "\n")
    decreases |lines|
  {
    if |lines| == 1 {
      NormalizeAfterPlainPrefix(lines[0], []);
      assert lines[0] + [] == lines[0];
    } else if |lines| > 1 {
      var rest := Join(lines[1..], "\n");
      assert Join(lines, "\n") == lines[0] + ("\n" + rest);
      NormalizeAfterPlainPrefix(lines[0], "\n" + rest);
      assert ("\n" + rest)[1..] == rest;
      NormalizeJoinLf(lines[1..]);
    }
  }

  /** Splitting a text joined with LF gives back its lines. */
  lemma LinesOfLfText(lines: seq<string>)
    requires |lines| >= 1
    requires forall j :: 0 <= j < |lines| ==> NoneOf(lines[j], IsNewline)
    ensures Lines(Join(lines, "\n")) == lines
  {
    NormalizeJoinLf(lines);
    SplitJoin(lines, IsNewline, '\n');
  }

  /** A file with CR LF line ends has the same lines as the same file with LF line ends. */
  lemma LinesOfCrLfText(lines: seq<string>)
    requires |lines| >= 1
    requires forall j :: 0 <= j < |lines| ==> NoneOf(lines[j], IsNewline)
    ensures Lines(Join(lines, "\r\n")) == lines
  {
    NormalizeJoin(lines);
    SplitJoin(lines, IsNewline, '\n');
  }

  // ---------------------------------------------------------------------------
  // Headings and list items

  /** Length of the run of `#` characters that `s` starts with. */
  function HashCount(s: string): (n: nat)
    ensures n <= |s| && forall k :: 0 <= k < n ==> s[k] == '#'
    ensures n < |s| ==> s[n] != '#'
  {
    FirstIndex(s, c => c != '#')
  }

  /**
   * The shape of a heading line (already trimmed): one or more `#`, at most
   * two, then a space; gives the level and the text after the space.
   */
  function HeadingParts(trimmed: string): Option<(nat, string)> {
    if !("#" <= trimmed) then None
    else
      var level := HashCount(trimmed);
      if level == 0 || level > 2 then None
      else
        var remainder := trimmed[level..];
        if remainder == [] || remainder[0] != ' ' then None
        else Some((level, remainder[1..]))
  }

  /** `HeadingParts` accepts exactly the lines `#`/`##` + space + rest. */
  lemma HeadingPartsIff(trimmed: string, level: nat, rest: string)
    ensures HeadingParts(trimmed) == Some((level, rest)) <==>
              (level == 1 || level == 2) && trimmed == Repeat('#', level) + " " + rest
  {
    if HeadingParts(trimmed) == Some((level, rest)) {
      assert trimmed[..level] == Repeat('#', level);
      assert trimmed == trimmed[..level] + " " + trimmed[level + 1..];
    }
    if (level == 1 || level == 2) && trimmed == Repeat('#', level) + " " + rest {
      assert trimmed[0] == '#';
      assert "#" <= trimmed;
      FirstIndexAt(trimmed, c => c != '#', level);
      assert trimmed[level..][1..] == rest;
    }
  }

  /**
   * The title of a section heading: the heading's text, trimmed, when it is
   * not empty; a level-1 title that mentions "changelog" is the document
   * title, not a section.
   */
  function HeadingTitle(line: string): Option<string> {
    match HeadingParts(TrimWhitespace(line))
    case None => None
    case Some((level, rest)) =>
      var title := TrimWhitespace(rest);
      if level == 1 && ContainsIgnoringCase(title, "changelog") then None
      else if title == [] then None
      else Some(title)
  }

  /**
   * A line is a section heading with title `title` exactly when, trimmed, it
   * is one or two `#`, a space and a text that trims to the non-empty
   * `title`, not mentioning "changelog" at level 1.
   */
  lemma HeadingTitleIff(line: string, title: string, level: nat, rest: string)
    requires TrimWhitespace(line) == Repeat('#', level) + " " + rest
    ensures HeadingTitle(line) == Some(title) <==>
              && (level == 1 || level == 2)
              && title == TrimWhitespace(rest) && title != []
              && (level == 1 ==> !ContainsIgnoringCase(title, "changelog"))
  {
    HeadingPartsIff(TrimWhitespace(line), level, rest);
  }

  /** Any other line is not a heading. */
  lemma NotHeadingShape(line: string)
    requires forall level: nat, rest: string :: (level == 1 || level == 2) ==>
               TrimWhitespace(line) != Repeat('#', level) + " " + rest
    ensures HeadingTitle(line) == None
  {
    match HeadingParts(TrimWhitespace(line))
    case None =>
    case Some((level, rest)) =>
      HeadingPartsIff(TrimWhitespace(line), level, rest);
  }

  /** `###` and deeper headings never start a section. */
  lemma DeepHeadingIsNotSection(line: string)
    requires "###" <= TrimWhitespace(line)
    ensures HeadingTitle(line) == None
  {
    DeepHeadingParts(TrimWhitespace(line));
  }

  lemma DeepHeadingParts(trimmed: string)
    requires "###" <= trimmed
    ensures HeadingParts(trimmed) == None
  {
    assert trimmed[0] == '#' && trimmed[1] == '#' && trimmed[2] == '#';
    assert HashCount(trimmed) >= 3;
  }

  /** Length of the run of decimal digits that `s` starts with. */
  function LeadingDigits(s: string): (n: nat)
    ensures n <= |s| && forall k :: 0 <= k < n ==> IsDigit(s[k])
    ensures n < |s| ==> !IsDigit(s[n])
  {
    FirstIndex(s, c => !IsDigit(c))
  }

  /** `^\d+\.\s`: digits, a full stop, then a white-space character. */
  predicate IsNumberedItem(s: string) {
    var d := LeadingDigits(s);
    0 < d && d + 1 < |s| && s[d] == '.' && IsWhitespaceOrNewline(s[d + 1])
  }

  /** A list item: `- `, `* `, `+ ` or a numbered item. */
  predicate IsListItemLine(trimmed: string) {
    "- " <= trimmed || "* " <= trimmed || "+ " <= trimmed || IsNumberedItem(trimmed)
  }

  /** Numbered items are recognised for every number and every white-space separator. */
  lemma NumberedItemIsListItem(n: nat, w: char, rest: string)
    requires IsWhitespaceOrNewline(w)
    ensures IsListItemLine(Decimal.Show(n) + "." + [w] + rest)
  {
    var digits := Decimal.Show(n);
    var s := digits + "." + [w] + rest;
    assert forall k :: 0 <= k < |digits| ==> s[k] == digits[k];
    FirstIndexAt(s, c => !IsDigit(c), |digits|);
  }

  // ---------------------------------------------------------------------------
  // Version matching: the first match of `(?i)\bv?\d+(?:\.\d+){1,3}\b`.
  //
  // Backtracking can never shorten a digit run (the character after a shorter
  // run is a digit, where neither `.` nor `\b` can match), so every run is
  // maximal.  The greedy `{1,3}` tries the most groups first and gives them
  // back one at a time until the end lies on a word boundary.

  /** End of the maximal digit run starting at `i`. */
  function DigitRunEnd(s: string, i: nat): (e: nat)
    requires i <= |s|
    ensures i <= e <= |s|
    decreases |s| - i
  {
    if i < |s| && IsDigit(s[i]) then DigitRunEnd(s, i + 1) else i
  }

  /** `\b` at position `i`. */
  predicate IsWordBoundary(s: string, i: nat)
    requires i <= |s|
  {
    (0 < i && IsWordChar(s[i - 1])) != (i < |s| && IsWordChar(s[i]))
  }

  /**
   * `(?:\.\d+){1,n}\b` at `e`: the end of the longest run of one to `n`
   * `.digits` groups from `e` that ends on a word boundary, if any.
   */
  function GroupsEnd(s: string, e: nat, n: nat): (r: Option<nat>)
    requires e <= |s|
    ensures r.Some? ==> e < r.value <= |s|
    decreases n
  {
    if n > 0 && e + 1 < |s| && s[e] == '.' && IsDigit(s[e + 1]) then
      var g := DigitRunEnd(s, e + 1);
      match GroupsEnd(s, g, n - 1)
      case Some(longer) => Some(longer)
      case None => if IsWordBoundary(s, g) then Some(g) else None
    else None
  }

  /** Where the digits of a match at `p` start: after the `v` or `V` there, if there is one. */
  function AfterV(s: string, p: nat): (q: nat)
    requires p <= |s|
    ensures p <= q <= |s|
  {
    if p < |s| && (s[p] == 'v' || s[p] == 'V') then p + 1 else p
  }

  /** End of the version match that starts at `p`, if one does. */
  function MatchEnd(s: string, p: nat): (r: Option<nat>)
    requires p <= |s|
    ensures r.Some? ==> p < r.value <= |s|
  {
    if !IsWordBoundary(s, p) then None
    else
      var q := AfterV(s, p);
      var e := DigitRunEnd(s, q);
      if e == q then None else GroupsEnd(s, e, 3)
  }

  /** The leftmost match at or after `p`. */
  function VersionMatchFrom(s: string, p: nat): (r: Option<string>)
    requires p <= |s|
    decreases |s| - p
  {
    match MatchEnd(s, p)
    case Some(e) => Some(s[p..e])
    case None => if p == |s| then None else VersionMatchFrom(s, p + 1)
  }

  /** The leftmost version number in `text`, as written there. */
  function VersionMatch(text: string): (m: Option<string>)
  {
    VersionMatchFrom(text, 0)
  }

  /** A matched version without its leading `v`/`V`. */
  function StripV(m: string): string {
    if |m| > 0 && (m[0] == 'v' || m[0] == 'V') then m[1..] else m
  }

  function NormalizedVersion(text: string): Option<string> {
    match VersionMatch(text)
    case None => None
    case Some(m) => Some(StripV(m))
  }

  predicate SectionMatchesVersion(section: ChangelogSection, releaseVersion: string) {
    match VersionMatch(section.title)
    case None => false
    case Some(m) => StripV(m) == releaseVersion
  }

  /** The `(?:\.\d+)` groups of a version: each digit run after a `.`. */
  function Dots(groups: seq<string>): string {
    if groups == [] then [] else "." + groups[0] + Dots(groups[1..])
  }

  /** A non-empty run of decimal digits. */
  predicate IsDigitRun(r: string) {
    r != [] && forall k :: 0 <= k < |r| ==> IsDigit(r[k])
  }

  predicate AllDigitRuns(groups: seq<string>) {
    forall j :: 0 <= j < |groups| ==> IsDigitRun(groups[j])
  }

  /** A digit run that is followed by a non-digit (or the end) is maximal. */
  lemma DigitRunEndIs(s: string, i: nat, e: nat)
    requires i <= e <= |s|
    requires forall k :: i <= k < e ==> IsDigit(s[k])
    requires e < |s| ==> !IsDigit(s[e])
    ensures DigitRunEnd(s, i) == e
    decreases e - i
  {
    if i < e {
      DigitRunEndIs(s, i + 1, e);
    }
  }

  /** A run that starts with a digit is not empty and ends with a digit. */
  lemma {:induction false} DigitRunLast(s: string, i: nat)
    requires i < |s| && IsDigit(s[i])
    ensures i < DigitRunEnd(s, i) && IsDigit(s[DigitRunEnd(s, i) - 1])
    decreases |s| - i
  {
    if i + 1 < |s| && IsDigit(s[i + 1]) {
      DigitRunLast(s, i + 1);
    }
  }

  /** The groups matched end with a digit, on a word boundary. */
  lemma {:induction false} GroupsEndSound(s: string, e: nat, n: nat)
    requires e <= |s|
    ensures GroupsEnd(s, e, n).Some? ==>
              IsDigit(s[GroupsEnd(s, e, n).value - 1]) && IsWordBoundary(s, GroupsEnd(s, e, n).value)
    decreases n
  {
    if n > 0 && e + 1 < |s| && s[e] == '.' && IsDigit(s[e + 1]) {
      DigitRunLast(s, e + 1);
      GroupsEndSound(s, DigitRunEnd(s, e + 1), n - 1);
    }
  }

  /** A match ends with a digit, on a word boundary. */
  lemma MatchEndSound(s: string, p: nat)
    requires p <= |s|
    ensures MatchEnd(s, p).Some? ==>
              IsDigit(s[MatchEnd(s, p).value - 1]) && IsWordBoundary(s, MatchEnd(s, p).value)
  {
    if IsWordBoundary(s, p) {
      var q := if p < |s| && (s[p] == 'v' || s[p] == 'V') then p + 1 else p;
      GroupsEndSound(s, DigitRunEnd(s, q), 3);
    }
  }

  /** The end of `k` `.digits` groups from `e`, each digit run maximal, if that many follow. */
  function GroupsFrom(s: string, e: nat, k: nat): (r: Option<nat>)
    requires e <= |s|
    ensures r.Some? ==> e <= r.value <= |s|
    decreases k
  {
    if k == 0 then Some(e)
    else if e + 1 < |s| && s[e] == '.' && IsDigit(s[e + 1]) then GroupsFrom(s, DigitRunEnd(s, e + 1), k - 1)
    else None
  }

  /** `k` groups follow `e` and end on a word boundary. */
  predicate GroupsMatch(s: string, e: nat, k: nat)
    requires e <= |s|
  {
    GroupsFrom(s, e, k).Some? && IsWordBoundary(s, GroupsFrom(s, e, k).value)
  }

  /**
   * `GroupsEnd` is the greedy `(?:\.\d+){1,n}\b`: nothing exactly when no
   * count of groups from one to `n` ends on a word boundary, and otherwise
   * the end of the largest such count.
   */
  lemma {:induction false} GroupsEndIsGreedy(s: string, e: nat, n: nat)
    requires e <= |s|
    ensures GroupsEnd(s, e, n).None? ==> forall k :: 1 <= k <= n ==> !GroupsMatch(s, e, k)
    ensures GroupsEnd(s, e, n).Some? ==>
              exists k :: && 1 <= k <= n && GroupsMatch(s, e, k) && GroupsFrom(s, e, k) == GroupsEnd(s, e, n)
                          && forall k' :: k < k' <= n ==> !GroupsMatch(s, e, k')
    decreases n
  {
    if n > 0 && e + 1 < |s| && s[e] == '.' && IsDigit(s[e + 1]) {
      var g := DigitRunEnd(s, e + 1);
      GroupsEndIsGreedy(s, g, n - 1);
      assert forall k :: 1 <= k ==> GroupsFrom(s, e, k) == GroupsFrom(s, g, k - 1);
      if GroupsEnd(s, g, n - 1).Some? {
        var k0: nat :| && 1 <= k0 <= n - 1 && GroupsMatch(s, g, k0) && GroupsFrom(s, g, k0) == GroupsEnd(s, g, n - 1)
                  && forall k' :: k0 < k' <= n - 1 ==> !GroupsMatch(s, g, k');
        assert GroupsMatch(s, e, k0 + 1);
        assert forall k' :: k0 + 1 < k' <= n ==> !GroupsMatch(s, e, k') by {
          forall k' | k0 + 1 < k' <= n ensures !GroupsMatch(s, e, k') {
            assert !GroupsMatch(s, g, k' - 1);
          }
        }
      } else {
        assert GroupsFrom(s, e, 1) == Some(g);
        forall k' | 1 < k' <= n ensures !GroupsMatch(s, e, k') {
          assert !GroupsMatch(s, g, k' - 1);
        }
      }
    } else {
      forall k | 1 <= k <= n ensures GroupsFrom(s, e, k).None? {
      }
    }
  }

  /**
   * The pattern matches from `p` to `last` with `k` groups: `\b` at `p`, an
   * optional `v` or `V`, a non-empty maximal digit run, then `k` groups (one
   * to three) that end on `\b`, and no larger count up to three that would.
   */
  predicate VersionAt(s: string, p: nat, k: nat, last: nat)
    requires p <= |s|
  {
    var q := AfterV(s, p);
    var e := DigitRunEnd(s, q);
    && IsWordBoundary(s, p) && q < e && 1 <= k <= 3
    && GroupsFrom(s, e, k) == Some(last) && IsWordBoundary(s, last)
    && forall k' :: k < k' <= 3 ==> !GroupsMatch(s, e, k')
  }

  /** A match starts at `p` exactly when the pattern's shape is there, and it ends where that shape ends. */
  lemma MatchEndIs(s: string, p: nat)
    requires p <= |s|
    ensures MatchEnd(s, p).Some? ==> exists k: nat :: VersionAt(s, p, k, MatchEnd(s, p).value)
    ensures forall k: nat, last: nat :: VersionAt(s, p, k, last) ==> MatchEnd(s, p) == Some(last)
  {
    var q := AfterV(s, p);
    var e := DigitRunEnd(s, q);
    if IsWordBoundary(s, p) && q < e {
      GroupsEndIsGreedy(s, e, 3);
      if GroupsEnd(s, e, 3).Some? {
        var k0: nat :| && 1 <= k0 <= 3 && GroupsMatch(s, e, k0) && GroupsFrom(s, e, k0) == GroupsEnd(s, e, 3)
                       && forall k' :: k0 < k' <= 3 ==> !GroupsMatch(s, e, k');
        assert VersionAt(s, p, k0, MatchEnd(s, p).value);
      }
      forall k: nat, last: nat | VersionAt(s, p, k, last) ensures MatchEnd(s, p) == Some(last) {
        assert GroupsMatch(s, e, k);
        var k0: nat :| && 1 <= k0 <= 3 && GroupsMatch(s, e, k0) && GroupsFrom(s, e, k0) == GroupsEnd(s, e, 3)
                  && forall k' :: k0 < k' <= 3 ==> !GroupsMatch(s, e, k');
        assert k0 == k;
      }
    }
  }

  /** A match from `i` to `last`, and none at any position from `p` before `i`. */
  predicate LeftmostMatch(s: string, p: nat, i: nat, last: nat) {
    && p <= i <= |s| && MatchEnd(s, i) == Some(last)
    && forall j :: p <= j < i ==> MatchEnd(s, j).None?
  }

  /**
   * The search from `p` finds nothing exactly when no position from `p` on
   * starts a match, and otherwise the match at some position from `p` on
   * with none before it.
   */
  lemma {:induction false} VersionMatchFromIs(s: string, p: nat)
    requires p <= |s|
    ensures VersionMatchFrom(s, p).None? <==> forall j :: p <= j <= |s| ==> MatchEnd(s, j).None?
    ensures VersionMatchFrom(s, p).Some? ==>
              exists i: nat, last: nat :: LeftmostMatch(s, p, i, last) && VersionMatchFrom(s, p) == Some(s[i..last])
    decreases |s| - p
  {
    if MatchEnd(s, p).Some? {
      assert LeftmostMatch(s, p, p, MatchEnd(s, p).value);
    } else if p < |s| {
      VersionMatchFromIs(s, p + 1);
      if VersionMatchFrom(s, p).Some? {
        var i: nat, last: nat :| LeftmostMatch(s, p + 1, i, last) && VersionMatchFrom(s, p + 1) == Some(s[i..last]);
        assert LeftmostMatch(s, p, i, last);
      }
    }
  }

  /** The first position from `p` on where a match starts is the one found. */
  lemma {:induction false} VersionMatchFromAt(s: string, p: nat, i: nat, last: nat)
    requires p <= |s| && LeftmostMatch(s, p, i, last)
    ensures VersionMatchFrom(s, p) == Some(s[i..last])
    decreases i - p
  {
    if p < i {
      assert MatchEnd(s, p).None?;
      assert LeftmostMatch(s, p + 1, i, last);
      VersionMatchFromAt(s, p + 1, i, last);
    }
  }

  /**
   * What the search from `p` finds is the text between the first position
   * at or after `p` where the pattern's shape starts and the end of that
   * shape, which is a digit.
   */
  lemma VersionMatchFromSound(s: string, p: nat)
    requires p <= |s|
    ensures VersionMatchFrom(s, p).Some? ==>
              exists i: nat, k: nat, last: nat :: && LeftmostMatch(s, p, i, last) && VersionAt(s, i, k, last)
                                   && VersionMatchFrom(s, p) == Some(s[i..last]) && IsDigit(s[last - 1])
  {
    if VersionMatchFrom(s, p).Some? {
      assert exists i: nat, last: nat :: LeftmostMatch(s, p, i, last) && VersionMatchFrom(s, p) == Some(s[i..last]) by {
        VersionMatchFromIs(s, p);
      }
      var i: nat, last: nat :| LeftmostMatch(s, p, i, last) && VersionMatchFrom(s, p) == Some(s[i..last]);
      var k := MatchShape(s, i, last);
    }
  }

  /** A match has the pattern's shape, with some number of groups, and ends with a digit. */
  lemma MatchShape(s: string, i: nat, last: nat) returns (k: nat)
    requires i <= |s| && MatchEnd(s, i) == Some(last)
    ensures VersionAt(s, i, k, last) && 0 < last && IsDigit(s[last - 1])
  {
    MatchEndIs(s, i);
    MatchEndSound(s, i);
    k :| VersionAt(s, i, k, last);
  }

  /**
   * The version found in a text: nothing when no position starts the
   * pattern's shape, and otherwise the leftmost such shape, which ends with a
   * digit.
   */
  lemma VersionMatchSound(text: string)
    ensures VersionMatch(text).None? <==> forall j :: 0 <= j <= |text| ==> MatchEnd(text, j).None?
    ensures VersionMatch(text).Some? ==>
              exists i: nat, k: nat, last: nat :: && LeftmostMatch(text, 0, i, last) && VersionAt(text, i, k, last)
                                   && VersionMatch(text) == Some(text[i..last]) && IsDigit(text[last - 1])
  {
    VersionMatchFromIs(text, 0);
    VersionMatchFromSound(text, 0);
  }

  /** A heading that starts with a bracketed version names that version, whatever follows (usually a date). */
  lemma BracketedVersion(rest: string)
    ensures VersionMatch("[1.2.0]" + rest) == Some("1.2.0")
  {
    var s := "[1.2.0]" + rest;
    assert s[0] == '[' && s[1] == '1' && s[2] == '.' && s[3] == '2' && s[4] == '.' && s[5] == '0' && s[6] == ']';
    DigitRunEndIs(s, 1, 2);
    DigitRunEndIs(s, 3, 4);
    DigitRunEndIs(s, 5, 6);
    assert MatchEnd(s, 0).None?;
    assert GroupsEnd(s, 6, 1).None?;
    assert MatchEnd(s, 1) == Some(6);
    VersionMatchFromAt(s, 0, 1, 6);
    assert s[1..6] == "1.2.0";
  }

  /** A `.` after the last group, or a fourth group, is left out of the match. */
  lemma TrailingGroupsDropped()
    ensures VersionMatch("1.0.") == Some("1.0")
    ensures VersionMatch("v1.2.3.4.5") == Some("v1.2.3.4")
  {
    var s := "1.0.";
    DigitRunEndIs(s, 0, 1);
    DigitRunEndIs(s, 2, 3);
    assert GroupsEnd(s, 3, 2).None?;
    assert MatchEnd(s, 0) == Some(3);
    VersionMatchAtStart(s, 3);
    assert s[..3] == "1.0";
    var t := "v1.2.3.4.5";
    DigitRunEndIs(t, 1, 2);
    DigitRunEndIs(t, 3, 4);
    DigitRunEndIs(t, 5, 6);
    DigitRunEndIs(t, 7, 8);
    assert GroupsEnd(t, 8, 0).None?;
    assert MatchEnd(t, 0) == Some(8);
    VersionMatchAtStart(t, 8);
    assert t[..8] == "v1.2.3.4";
  }

  /** The last group of a version ends with a digit. */
  lemma {:induction false} DotsEndWithDigit(groups: seq<string>)
    requires groups != [] && AllDigitRuns(groups)
    ensures Dots(groups) != [] && IsDigit(Dots(groups)[|Dots(groups)| - 1])
    decreases |groups|
  {
    if |groups| > 1 {
      DotsEndWithDigit(groups[1..]);
      assert AllDigitRuns(groups[1..]) by {
        forall j | 0 <= j < |groups[1..]| ensures IsDigitRun(groups[1..][j]) {
          assert groups[1..][j] == groups[j + 1];
        }
      }
      var d := Dots(groups);
      assert d == "." + groups[0] + Dots(groups[1..]);
    } else {
      assert Dots(groups) == "." + groups[0];
      assert IsDigitRun(groups[0]);
    }
  }

  /**
   * From position `e` on, `s` holds a `.` and a maximal digit run as long as
   * each of the groups in turn, and then no further group.
   */
  predicate GroupsAt(s: string, e: nat, groups: seq<string>)
    decreases |groups|
  {
    if groups == [] then e <= |s| && (e < |s| ==> s[e] != '.' && !IsDigit(s[e]))
    else
      var g := e + 1 + |groups[0]|;
      && e + 1 < |s| && s[e] == '.' && IsDigit(s[e + 1])
      && DigitRunEnd(s, e + 1) == g
      && GroupsAt(s, g, groups[1..])
  }

  /**
   * Where the groups are laid out and the last one ends on a word boundary,
   * all of them are matched, as long as there are at most `n`.
   */
  lemma {:induction false} GroupsEndOfGroups(s: string, e: nat, groups: seq<string>, n: nat)
    requires GroupsAt(s, e, groups) && 1 <= |groups| <= n
    requires e + |Dots(groups)| <= |s| && IsWordBoundary(s, e + |Dots(groups)|)
    ensures GroupsEnd(s, e, n) == Some(e + |Dots(groups)|)
    decreases |groups|
  {
    var g := e + 1 + |groups[0]|;
    DotsLength(groups);
    if groups[1..] == [] {
      assert GroupsEnd(s, g, n - 1) == None;
    } else {
      GroupsEndOfGroups(s, g, groups[1..], n - 1);
    }
  }

  lemma DotsLength(groups: seq<string>)
    requires groups != []
    ensures |Dots(groups)| == 1 + |groups[0]| + |Dots(groups[1..])|
    ensures groups[1..] == [] ==> |Dots(groups)| == 1 + |groups[0]|
  {
  }

  /** Text after the groups that neither starts with `.` nor with a digit ends the scan. */
  predicate EndsGroups(rest: string) {
    rest == [] || (rest[0] != '.' && !IsDigit(rest[0]))
  }

  /**
   * The groups `Dots` writes, followed by text that ends them, are laid out
   * as the matcher scans them.
   */
  lemma {:induction false} GroupsAtConcat(pre: string, groups: seq<string>, rest: string)
    requires AllDigitRuns(groups) && EndsGroups(rest)
    ensures GroupsAt(pre + Dots(groups) + rest, |pre|, groups)
    decreases |groups|
  {
    var s := pre + Dots(groups) + rest;
    if groups == [] {
      if |pre| < |s| {
        assert s[|pre|] == rest[0];
      }
    } else {
      var next := pre + ("." + groups[0]);
      Regroup(pre, "." + groups[0], Dots(groups[1..]), rest);
      assert AllDigitRuns(groups[1..]) by {
        assert forall j :: 0 <= j < |groups[1..]| ==> groups[1..][j] == groups[j + 1];
      }
      GroupsAtConcat(next, groups[1..], rest);
      GroupAtConcat(pre, groups[0], Dots(groups[1..]) + rest);
    }
  }

  lemma Regroup(pre: string, group: string, tail: string, rest: string)
    ensures pre + (group + tail) + rest == pre + group + tail + rest
    ensures pre + (group + tail) + rest == pre + group + (tail + rest)
  {
  }

  /** One group written after `pre`: a `.` and a maximal digit run. */
  lemma GroupAtConcat(pre: string, group: string, tail: string)
    requires IsDigitRun(group) && (tail == [] || !IsDigit(tail[0]))
    ensures |pre| + 1 < |pre + ("." + group) + tail|
    ensures (pre + ("." + group) + tail)[|pre|] == '.' && IsDigit((pre + ("." + group) + tail)[|pre| + 1])
    ensures DigitRunEnd(pre + ("." + group) + tail, |pre| + 1) == |pre| + 1 + |group|
  {
    var s := pre + ("." + group) + tail;
    var g := |pre| + 1 + |group|;
    assert s[|pre| + 1] == group[0];
    forall k | |pre| + 1 <= k < g ensures IsDigit(s[k]) {
      assert s[k] == group[k - |pre| - 1];
    }
    if g < |s| {
      assert s[g] == tail[0];
    }
    DigitRunEndIs(s, |pre| + 1, g);
  }

  /**
   * Where a version is laid out at the start of a text, it is what the
   * pattern matches, and the normalised version is the same piece without
   * the `v`.  `LayoutOfVersion` says which texts are laid out so.
   */
  lemma VersionMatchOfLayout(text: string, q: nat, e: nat, groups: seq<string>, last: nat)
    requires VersionLaidOut(text, q, e, groups, last)
    ensures VersionMatch(text) == Some(text[..last])
    ensures NormalizedVersion(text) == Some(text[q..last])
  {
    MatchEndOfLayout(text, q, e, groups, last);
    VersionMatchAtStart(text, last);
    StripLeadingV(text, q, last);
  }

  /** A match at the very start is the one found. */
  lemma VersionMatchAtStart(s: string, e: nat)
    requires e <= |s| && MatchEnd(s, 0) == Some(e)
    ensures VersionMatch(s) == Some(s[..e])
  {
  }

  /** Dropping the `v` or `V` that the text may start with. */
  lemma StripLeadingV(s: string, q: nat, last: nat)
    requires 0 < |s| && q < last <= |s|
    requires q == (if s[0] == 'v' || s[0] == 'V' then 1 else 0)
    ensures StripV(s[..last]) == s[q..last]
  {
  }

  /**
   * `s` starts on a word boundary with an optional `v`, a maximal digit run
   * from `q` to `e`, then the `.digits` groups up to `last`, which is on a
   * word boundary.
   */
  predicate VersionLaidOut(s: string, q: nat, e: nat, groups: seq<string>, last: nat) {
    && 0 < |s| && q < e <= |s| && IsWordBoundary(s, 0)
    && q == (if s[0] == 'v' || s[0] == 'V' then 1 else 0) && DigitRunEnd(s, q) == e
    && GroupsAt(s, e, groups) && 1 <= |groups| <= 3
    && last == e + |Dots(groups)| && last <= |s| && IsWordBoundary(s, last)
  }

  /** A version written out, followed by a text that ends it, is laid out as the matcher scans it. */
  lemma LayoutOfVersion(text: string, v: string, first: string, groups: seq<string>, rest: string)
    requires text == v + first + Dots(groups) + rest
    requires IsVPrefix(v)
    requires IsDigitRun(first) && 1 <= |groups| <= 3 && AllDigitRuns(groups)
    requires rest == [] || (!IsWordChar(rest[0]) && rest[0] != '.')
    ensures VersionLaidOut(text, |v|, |v| + |first|, groups, |text| - |rest|)
  {
    assert Dots(groups)[0] == '.';
    LeadingRun(v, first, Dots(groups) + rest);
    Assoc(v + first, Dots(groups), rest);
    GroupsAtConcat(v + first, groups, rest);
    LastGroupOnBoundary(v, first, groups, rest);
  }

  /** Where the groups of a version are laid out after its first run, the match ends with them. */
  lemma MatchEndOfLayout(s: string, q: nat, e: nat, groups: seq<string>, last: nat)
    requires VersionLaidOut(s, q, e, groups, last)
    ensures MatchEnd(s, 0) == Some(last)
  {
    GroupsEndOfGroups(s, e, groups, 3);
  }

  /** An optional `v` or `V`. */
  predicate IsVPrefix(v: string) {
    |v| <= 1 && (v != [] ==> v[0] == 'v' || v[0] == 'V')
  }

  /** The version starts on a word boundary, and its first digit run ends at its first `.`. */
  lemma LeadingRun(v: string, first: string, tail: string)
    requires IsVPrefix(v)
    requires IsDigitRun(first) && tail != [] && tail[0] == '.'
    ensures IsWordBoundary(v + first + tail, 0) && DigitRunEnd(v + first + tail, |v|) == |v| + |first|
    ensures |v| == (if (v + first + tail)[0] == 'v' || (v + first + tail)[0] == 'V' then 1 else 0)
  {
    WordStart(v, first, tail);
    RunInside(v, first, tail);
    DigitRunEndIs(v + first + tail, |v|, |v| + |first|);
  }

  /** A version starts with a word character, and with `v` or `V` exactly when it has the prefix. */
  lemma WordStart(v: string, first: string, tail: string)
    requires IsVPrefix(v) && IsDigitRun(first)
    ensures IsWordBoundary(v + first + tail, 0)
    ensures |v| == (if (v + first + tail)[0] == 'v' || (v + first + tail)[0] == 'V' then 1 else 0)
  {
    var s := v + first + tail;
    if v == [] {
      assert s[0] == first[0];
    } else {
      assert s[0] == v[0];
    }
  }

  lemma Assoc(x: string, y: string, z: string)
    ensures x + y + z == x + (y + z)
  {
  }

  /** The digit run `first` written after `v` and before a non-digit is a maximal run. */
  lemma RunInside(v: string, first: string, tail: string)
    requires IsDigitRun(first) && tail != [] && !IsDigit(tail[0])
    ensures forall k :: |v| <= k < |v| + |first| ==> IsDigit((v + first + tail)[k])
    ensures !IsDigit((v + first + tail)[|v| + |first|])
  {
    var s := v + first + tail;
    forall k | |v| <= k < |v| + |first| ensures IsDigit(s[k]) {
      assert s[k] == first[k - |v|];
    }
    assert s[|v| + |first|] == tail[0];
  }

  /** The last group of the version ends on a word boundary. */
  lemma LastGroupOnBoundary(v: string, first: string, groups: seq<string>, rest: string)
    requires groups != [] && AllDigitRuns(groups)
    requires rest == [] || !IsWordChar(rest[0])
    ensures IsWordBoundary(v + first + Dots(groups) + rest, |v| + |first| + |Dots(groups)|)
  {
    var s := v + first + Dots(groups) + rest;
    var e := |v| + |first|;
    var last := e + |Dots(groups)|;
    var m := v + first + Dots(groups);
    DotsEndWithDigit(groups);
    assert s[last - 1] == m[last - 1] == Dots(groups)[|Dots(groups)| - 1];
    if last < |s| {
      assert s[last] == rest[0];
    }
  }

  // ---------------------------------------------------------------------------
  // Sections: the specification of the scan

  /** What one line of a changelog is to the scan; a heading wins over a list item. */
  datatype LineKind = HeadingLine(title: string) | ListItem | OtherLine

  function Classify(line: string): LineKind {
    var trimmed := TrimWhitespace(line);
    match HeadingTitle(trimmed)
    case Some(title) => HeadingLine(title)
    case None => if IsListItemLine(trimmed) then ListItem else OtherLine
  }

  /** The classification of the first `n` lines, in order. */
  function ClassifyPrefix(lines: seq<string>, n: nat): (kinds: seq<LineKind>)
    requires n <= |lines|
    ensures |kinds| == n
  {
    if n == 0 then [] else ClassifyPrefix(lines, n - 1) + [Classify(lines[n - 1])]
  }

  /** The classification of every line, in order. */
  function Kinds(lines: seq<string>): (kinds: seq<LineKind>)
    ensures |kinds| == |lines|
  {
    ClassifyPrefix(lines, |lines|)
  }

  /** Index of the last heading before position `n`, or -1 when there is none. */
  function LastHeadingBefore(kinds: seq<LineKind>, n: nat): (h: int)
    requires n <= |kinds|
    ensures -1 <= h < n
  {
    if n == 0 then -1
    else if kinds[n - 1].HeadingLine? then n - 1
    else LastHeadingBefore(kinds, n - 1)
  }

  /** The scan back from `n` passes no heading and stops at one, if any. */
  lemma {:induction false} LastHeadingBeforeSpec(kinds: seq<LineKind>, n: nat)
    requires n <= |kinds|
    ensures LastHeadingBefore(kinds, n) >= 0 ==> kinds[LastHeadingBefore(kinds, n)].HeadingLine?
    ensures forall k :: LastHeadingBefore(kinds, n) < k < n ==> !kinds[k].HeadingLine?
  {
    if n > 0 && !kinds[n - 1].HeadingLine? {
      LastHeadingBeforeSpec(kinds, n - 1);
    }
  }

  /** Index of the last heading, or -1 when there is none. */
  function LastHeading(kinds: seq<LineKind>): (h: int)
    ensures -1 <= h < |kinds|
    ensures h >= 0 ==> kinds[h].HeadingLine?
  {
    LastHeadingBeforeSpec(kinds, |kinds|);
    LastHeadingBefore(kinds, |kinds|)
  }

  /** No line after the last heading is a heading. */
  lemma AfterLastHeading(kinds: seq<LineKind>)
    ensures forall k :: LastHeading(kinds) < k < |kinds| ==> !kinds[k].HeadingLine?
  {
    LastHeadingBeforeSpec(kinds, |kinds|);
  }

  /** The properties of `LastHeading` determine it. */
  lemma LastHeadingIs(kinds: seq<LineKind>, h: int)
    requires -1 <= h < |kinds|
    requires h >= 0 ==> kinds[h].HeadingLine?
    requires forall k :: h < k < |kinds| ==> !kinds[k].HeadingLine?
    ensures LastHeading(kinds) == h
  {
    LastHeadingBeforeIs(kinds, |kinds|, h);
  }

  lemma {:induction false} LastHeadingBeforeIs(kinds: seq<LineKind>, n: nat, h: int)
    requires -1 <= h < n <= |kinds|
    requires h >= 0 ==> kinds[h].HeadingLine?
    requires forall k :: h < k < n ==> !kinds[k].HeadingLine?
    ensures LastHeadingBefore(kinds, n) == h
  {
    if h < n - 1 {
      LastHeadingBeforeIs(kinds, n - 1, h);
    }
  }

  /** Number of list items. */
  function CountItems(kinds: seq<LineKind>): nat {
    if kinds == [] then 0
    else CountItems(kinds[..|kinds| - 1]) + (if kinds[|kinds| - 1].ListItem? then 1 else 0)
  }

  lemma {:induction false} CountItemsAppend(a: seq<LineKind>, b: seq<LineKind>)
    ensures CountItems(a + b) == CountItems(a) + CountItems(b)
    decreases |b|
  {
    if b == [] {
      assert a + b == a;
    } else {
      assert (a + b)[..|a + b| - 1] == a + b[..|b| - 1];
      CountItemsAppend(a, b[..|b| - 1]);
    }
  }

  /**
   * The sections of a changelog, block by block: one per heading, titled by
   * it and counting the list items between it and the next heading (or the
   * end).
   */
  function Sections(kinds: seq<LineKind>): seq<ChangelogSection>
    decreases |kinds|
  {
    var h := LastHeading(kinds);
    if h < 0 then []
    else Sections(kinds[..h]) + [ChangelogSection(kinds[h].title, CountItems(kinds[h + 1..]))]
  }

  /**
   * What the scan knows after the lines classified as `kinds`: the open
   * section (title and entries so far) is the one of the last heading, and
   * `sections` holds the sections of every earlier heading.
   */
  ghost predicate Scanned(kinds: seq<LineKind>, sections: seq<ChangelogSection>,
                          currentTitle: Option<string>, currentEntries: nat)
  {
    var h := LastHeading(kinds);
    if h < 0 then currentTitle.None? && sections == []
    else
      && currentTitle == Some(kinds[h].title)
      && sections == Sections(kinds[..h])
      && currentEntries == CountItems(kinds[h + 1..])
  }

  /** What the scan produces when the lines run out. */
  function Closed(sections: seq<ChangelogSection>, currentTitle: Option<string>, currentEntries: nat): seq<ChangelogSection> {
    match currentTitle
    case None => sections
    case Some(title) => sections + [ChangelogSection(title, currentEntries)]
  }

  /** A heading closes the open section and opens its own. */
  lemma ScanHeading(kinds: seq<LineKind>, sections: seq<ChangelogSection>,
                    currentTitle: Option<string>, currentEntries: nat, title: string)
    requires Scanned(kinds, sections, currentTitle, currentEntries)
    ensures Scanned(kinds + [HeadingLine(title)], Closed(sections, currentTitle, currentEntries), Some(title), 0)
  {
    var all := kinds + [HeadingLine(title)];
    assert all[|kinds|] == HeadingLine(title);
    LastHeadingIs(all, |kinds|);
    assert all[..|kinds|] == kinds;
    assert all[|kinds| + 1..] == [];
  }

  /** Any other line keeps the open section, one entry longer when it is a list item. */
  lemma ScanPlain(kinds: seq<LineKind>, sections: seq<ChangelogSection>,
                  currentTitle: Option<string>, currentEntries: nat, kind: LineKind)
    requires !kind.HeadingLine?
    requires Scanned(kinds, sections, currentTitle, currentEntries)
    ensures Scanned(kinds + [kind], sections, currentTitle,
                    if currentTitle.Some? && kind.ListItem? then currentEntries + 1 else currentEntries)
  {
    var all := kinds + [kind];
    var h := LastHeading(kinds);
    AfterLastHeading(kinds);
    forall k | h < k < |all| ensures !all[k].HeadingLine? {
      if k < |kinds| {
        assert all[k] == kinds[k];
      }
    }
    if h >= 0 {
      assert all[h] == kinds[h];
    }
    LastHeadingIs(all, h);
    if h >= 0 {
      assert all[..h] == kinds[..h];
      var run := all[h + 1..];
      assert run[..|run| - 1] == kinds[h + 1..];
      assert run[|run| - 1] == kind;
    }
  }

  /** At the end, closing the open section gives the sections of the whole changelog. */
  lemma ScanDone(kinds: seq<LineKind>, sections: seq<ChangelogSection>,
                 currentTitle: Option<string>, currentEntries: nat)
    requires Scanned(kinds, sections, currentTitle, currentEntries)
    ensures Closed(sections, currentTitle, currentEntries) == Sections(kinds)
  {
  }

  /** Classifying one more line extends the classification by that line's kind, as the scan sees it. */
  lemma ClassifyLine(lines: seq<string>, i: nat)
    requires i < |lines|
    ensures ClassifyPrefix(lines, i + 1) == ClassifyPrefix(lines, i) + [Classify(lines[i])]
    ensures var heading := HeadingTitle(TrimWhitespace(lines[i]));
            && (heading.Some? ==> Classify(lines[i]) == HeadingLine(heading.value))
            && (heading.None? ==> !Classify(lines[i]).HeadingLine?
                                  && (Classify(lines[i]).ListItem? <==> IsListItemLine(TrimWhitespace(lines[i]))))
  {
  }

  /**
   * `parse(markdown:)`: the scan keeps the title and entry count of the section
   * being read, closes it at the next heading and at the end; list items
   * before the first heading are skipped.
   */
  method Parse(markdown: string) returns (parsed: ChangelogParsed)
    ensures parsed.sections == Sections(Kinds(Lines(markdown)))
  {
    var lines := Lines(markdown);
    var sections: seq<ChangelogSection> := [];
    var currentTitle: Option<string> := None;
    var currentEntries: nat := 0;
    for i := 0 to |lines|
      invariant Scanned(ClassifyPrefix(lines, i), sections, currentTitle, currentEntries)
    {
      var trimmed := TrimWhitespace(lines[i]);
      ClassifyLine(lines, i);
      var heading := HeadingTitle(trimmed);
      if heading.Some? {
        ScanHeading(ClassifyPrefix(lines, i), sections, currentTitle, currentEntries, heading.value);
        if currentTitle.Some? {
          sections := sections + [ChangelogSection(currentTitle.value, currentEntries)];
        }
        currentTitle := heading;
        currentEntries := 0;
        continue;
      }
      ScanPlain(ClassifyPrefix(lines, i), sections, currentTitle, currentEntries, Classify(lines[i]));
      if currentTitle.None? {
        continue;
      }
      if IsListItemLine(trimmed) {
        currentEntries := currentEntries + 1;
      }
    }
    ScanDone(ClassifyPrefix(lines, |lines|), sections, currentTitle, currentEntries);
    if currentTitle.Some? {
      sections := sections + [ChangelogSection(currentTitle.value, currentEntries)];
    }
    parsed := ChangelogParsed(sections);
  }

  // ---------------------------------------------------------------------------
  // What the sections are

  /** The titles of the headings, in document order. */
  function HeadingTitles(kinds: seq<LineKind>): seq<string> {
    if kinds == [] then []
    else
      var last := kinds[|kinds| - 1];
      HeadingTitles(kinds[..|kinds| - 1]) + (if last.HeadingLine? then [last.title] else [])
  }

  function Titles(sections: seq<ChangelogSection>): seq<string> {
    seq(|sections|, j requires 0 <= j < |sections| => sections[j].title)
  }

  /** Lines after the last heading contribute no heading titles. */
  lemma {:induction false} HeadingTitlesPlain(kinds: seq<LineKind>, h: int)
    requires -1 <= h < |kinds|
    requires forall k :: h < k < |kinds| ==> !kinds[k].HeadingLine?
    ensures HeadingTitles(kinds) == HeadingTitles(kinds[..h + 1])
    decreases |kinds|
  {
    if |kinds| > h + 1 {
      assert kinds[..|kinds| - 1][..h + 1] == kinds[..h + 1];
      HeadingTitlesPlain(kinds[..|kinds| - 1], h);
    } else {
      assert kinds[..h + 1] == kinds;
    }
  }

  /** Sections come out in document order, exactly one per heading. */
  lemma {:induction false} SectionTitlesAreHeadings(kinds: seq<LineKind>)
    ensures Titles(Sections(kinds)) == HeadingTitles(kinds)
    decreases |kinds|
  {
    var h := LastHeading(kinds);
    AfterLastHeading(kinds);
    HeadingTitlesPlain(kinds, h);
    if h >= 0 {
      SectionTitlesAreHeadings(kinds[..h]);
      SectionsOfLast(kinds, h);
      var last := ChangelogSection(kinds[h].title, CountItems(kinds[h + 1..]));
      TitlesAppend(Sections(kinds[..h]), last);
      HeadingTitlesAt(kinds, h);
    } else {
      assert kinds[..0] == [];
    }
  }

  lemma TitlesAppend(sections: seq<ChangelogSection>, last: ChangelogSection)
    ensures Titles(sections + [last]) == Titles(sections) + [last.title]
  {
  }

  /** The titles up to and including a heading are those before it and its own. */
  lemma HeadingTitlesAt(kinds: seq<LineKind>, h: nat)
    requires h < |kinds| && kinds[h].HeadingLine?
    ensures HeadingTitles(kinds[..h + 1]) == HeadingTitles(kinds[..h]) + [kinds[h].title]
  {
    assert kinds[..h + 1][..h] == kinds[..h];
  }

  predicate NoHeading(kinds: seq<LineKind>) {
    forall k :: 0 <= k < |kinds| ==> !kinds[k].HeadingLine?
  }

  /** List items before the first heading belong to no section. */
  lemma {:induction false} PreambleIgnored(preamble: seq<LineKind>, rest: seq<LineKind>)
    requires NoHeading(preamble)
    ensures Sections(preamble + rest) == Sections(rest)
    decreases |rest|
  {
    var h := LastHeading(rest);
    if h >= 0 {
      PreambleIgnored(preamble, rest[..h]);
      PreambleIgnoredStep(preamble, rest, h);
    } else {
      PreambleLastHeading(preamble, rest);
    }
  }

  /** The induction step of `PreambleIgnored`: the sections before the last heading agree, so all do. */
  lemma PreambleIgnoredStep(preamble: seq<LineKind>, rest: seq<LineKind>, h: nat)
    requires NoHeading(preamble)
    requires h == LastHeading(rest)
    requires Sections(preamble + rest[..h]) == Sections(rest[..h])
    ensures Sections(preamble + rest) == Sections(rest)
  {
    var all := preamble + rest;
    var at := |preamble| + h;
    assert at == LastHeading(all) by {
      PreambleLastHeading(preamble, rest);
    }
    assert all[..at] == preamble + rest[..h] && all[at] == rest[h] && all[at + 1..] == rest[h + 1..] by {
      SplitAfterPreamble(preamble, rest, h);
    }
    SectionsOfLast(all, at);
    SectionsOfLast(rest, h);
    SectionsAgree(Sections(all), Sections(all[..at]), Sections(rest), Sections(rest[..h]),
                  ChangelogSection(all[at].title, CountItems(all[at + 1..])),
                  ChangelogSection(rest[h].title, CountItems(rest[h + 1..])));
  }

  lemma SectionsAgree(a: seq<ChangelogSection>, aInit: seq<ChangelogSection>,
                      b: seq<ChangelogSection>, bInit: seq<ChangelogSection>,
                      aLast: ChangelogSection, bLast: ChangelogSection)
    requires a == aInit + [aLast] && b == bInit + [bLast]
    requires aInit == bInit && aLast == bLast
    ensures a == b
  {
  }

  /** The sections of the lines before the last heading, then the last heading's. */
  lemma SectionsOfLast(kinds: seq<LineKind>, h: nat)
    requires h == LastHeading(kinds)
    ensures Sections(kinds) == Sections(kinds[..h]) + [ChangelogSection(kinds[h].title, CountItems(kinds[h + 1..]))]
  {
  }

  /** Behind a preamble without headings, the last heading is the one of the rest, shifted. */
  lemma PreambleLastHeading(preamble: seq<LineKind>, rest: seq<LineKind>)
    requires NoHeading(preamble)
    ensures LastHeading(preamble + rest) ==
              if LastHeading(rest) >= 0 then |preamble| + LastHeading(rest) else -1
  {
    var all := preamble + rest;
    var h := LastHeading(rest);
    AfterLastHeading(rest);
    if h >= 0 {
      var at := |preamble| + h;
      assert all[at] == rest[h];
      forall k | at < k < |all| ensures !all[k].HeadingLine? {
        assert all[k] == rest[k - |preamble|];
      }
      LastHeadingIs(all, at);
    } else {
      forall k | 0 <= k < |all| ensures !all[k].HeadingLine? {
        if k < |preamble| {
          assert all[k] == preamble[k];
        } else {
          assert all[k] == rest[k - |preamble|];
        }
      }
      LastHeadingIs(all, -1);
    }
  }

  /** Cutting the whole text at a heading of the rest cuts the rest there. */
  lemma SplitAfterPreamble(preamble: seq<LineKind>, rest: seq<LineKind>, h: nat)
    requires h < |rest|
    ensures (preamble + rest)[..|preamble| + h] == preamble + rest[..h]
    ensures (preamble + rest)[|preamble| + h + 1..] == rest[h + 1..]
    ensures (preamble + rest)[|preamble| + h] == rest[h]
  {
  }

  function SumEntries(sections: seq<ChangelogSection>): nat {
    if sections == [] then 0
    else SumEntries(sections[..|sections| - 1]) + sections[|sections| - 1].entryCount
  }

  /** The last section's entries are the list items after the last heading. */
  lemma {:induction false} SumLastSection(kinds: seq<LineKind>)
    requires LastHeading(kinds) >= 0
    ensures var h := LastHeading(kinds);
            SumEntries(Sections(kinds)) == SumEntries(Sections(kinds[..h])) + CountItems(kinds[h + 1..])
  {
    var h := LastHeading(kinds);
    SectionsOfLast(kinds, h);
    SumEntriesAppend(Sections(kinds[..h]), ChangelogSection(kinds[h].title, CountItems(kinds[h + 1..])));
  }

  lemma SumEntriesAppend(sections: seq<ChangelogSection>, last: ChangelogSection)
    ensures SumEntries(sections + [last]) == SumEntries(sections) + last.entryCount
  {
    assert (sections + [last])[..|sections|] == sections;
  }

  /** When a changelog starts with a heading, every list item is counted in exactly one section. */
  lemma {:induction false} SumFromHeading(kinds: seq<LineKind>)
    requires kinds != [] ==> kinds[0].HeadingLine?
    ensures SumEntries(Sections(kinds)) == CountItems(kinds)
    decreases |kinds|
  {
    var h := LastHeading(kinds);
    if h >= 0 {
      assert kinds[..h] != [] ==> kinds[..h][0] == kinds[0];
      SumFromHeading(kinds[..h]);
      SumLastSection(kinds);
      CountAroundHeading(kinds, h);
    } else {
      AfterLastHeading(kinds);
      assert kinds == [];
    }
  }

  /** The list items are those before a heading and those after it. */
  lemma CountAroundHeading(kinds: seq<LineKind>, h: nat)
    requires h < |kinds| && kinds[h].HeadingLine?
    ensures CountItems(kinds) == CountItems(kinds[..h]) + CountItems(kinds[h + 1..])
  {
    assert kinds == kinds[..h] + [kinds[h]] + kinds[h + 1..];
    CountItemsAppend(kinds[..h] + [kinds[h]], kinds[h + 1..]);
    CountItemsAppend(kinds[..h], [kinds[h]]);
    assert CountItems([kinds[h]]) == 0 by {
      assert [kinds[h]][..0] == [];
    }
  }

  /**
   * Every list item from the first heading on is counted in exactly one
   * section: the entry counts add up to the number of list items there.
   */
  lemma EntriesAddUp(preamble: seq<LineKind>, rest: seq<LineKind>)
    requires NoHeading(preamble)
    requires rest != [] ==> rest[0].HeadingLine?
    ensures SumEntries(Sections(preamble + rest)) == CountItems(rest)
  {
    PreambleIgnored(preamble, rest);
    SumFromHeading(rest);
  }

  // ---------------------------------------------------------------------------
  // Presentation

  const UpToDate := ChangelogRowPresentation("Changelog", None, Some("Up to date"))

  /** Index of the first unreleased section, `|sections|` when there is none. */
  function FirstUnreleased(sections: seq<ChangelogSection>): (i: nat)
    ensures i <= |sections|
    ensures forall j :: 0 <= j < i ==> !IsUnreleased(sections[j])
    ensures i < |sections| ==> IsUnreleased(sections[i])
  {
    if sections == [] then 0
    else if IsUnreleased(sections[0]) then 0
    else 1 + FirstUnreleased(sections[1..])
  }

  /** Index of the first section whose version is `version`, `|sections|` when there is none. */
  function FirstMatching(sections: seq<ChangelogSection>, version: string): (i: nat)
    ensures i <= |sections|
    ensures forall j :: 0 <= j < i ==> !SectionMatchesVersion(sections[j], version)
    ensures i < |sections| ==> SectionMatchesVersion(sections[i], version)
  {
    if sections == [] then 0
    else if SectionMatchesVersion(sections[0], version) then 0
    else 1 + FirstMatching(sections[1..], version)
  }

  /**
   * `presentation(parsed:releaseTag:)`.  Nothing without sections.  The first
   * unreleased section, if any, decides: its entry count as a badge, or "Up to
   * date" when it has none.  Otherwise the entries of all sections before the
   * first one for the tag's version make the "Since" badge ("Up to date" when
   * there are none); without a tag, a version in it or a matching section,
   * nothing.
   */
  function Presentation(parsed: ChangelogParsed, releaseTag: Option<string>): (r: Option<ChangelogRowPresentation>)
    ensures parsed.sections == [] ==> r == None
    ensures r.Some? ==> (r.value.badgeText.Some? <==> r.value.detailText.None?)
  {
    var sections := parsed.sections;
    if sections == [] then None
    else
      var u := FirstUnreleased(sections);
      if u < |sections| then
        if sections[u].entryCount > 0 then
          Some(ChangelogRowPresentation("Changelog • Unreleased", Some(Decimal.Show(sections[u].entryCount)), None))
        else Some(UpToDate)
      else if releaseTag.None? then None
      else
        match NormalizedVersion(releaseTag.value)
        case None => None
        case Some(releaseVersion) =>
          var matchIndex := FirstMatching(sections, releaseVersion);
          if matchIndex == |sections| then None
          else
            var count := SumEntries(sections[..matchIndex]);
            if count > 0 then
              Some(ChangelogRowPresentation("Changelog • Since " + TrimWhitespaceAndNewlines(releaseTag.value),
                                            Some(Decimal.Show(count)), None))
            else Some(UpToDate)
  }

  /** The first unreleased section decides, whatever the release tag. */
  lemma PresentationUnreleased(parsed: ChangelogParsed, releaseTag: Option<string>, i: nat)
    requires i < |parsed.sections| && IsUnreleased(parsed.sections[i])
    requires forall j | 0 <= j < i :: !IsUnreleased(parsed.sections[j])
    ensures Presentation(parsed, releaseTag) ==
              if parsed.sections[i].entryCount > 0
              then Some(ChangelogRowPresentation("Changelog • Unreleased",
                                                 Some(Decimal.Show(parsed.sections[i].entryCount)), None))
              else Some(UpToDate)
  {
    assert FirstUnreleased(parsed.sections) == i;
  }

  /**
   * Without an unreleased section the row is the "Since" row for the first
   * section of the tag's version, counting the entries of the sections above it.
   */
  lemma PresentationSince(parsed: ChangelogParsed, tag: string, version: string, m: nat)
    requires forall i | 0 <= i < |parsed.sections| :: !IsUnreleased(parsed.sections[i])
    requires NormalizedVersion(tag) == Some(version)
    requires m < |parsed.sections| && SectionMatchesVersion(parsed.sections[m], version)
    requires forall j | 0 <= j < m :: !SectionMatchesVersion(parsed.sections[j], version)
    ensures Presentation(parsed, Some(tag)) ==
              if SumEntries(parsed.sections[..m]) > 0
              then Some(ChangelogRowPresentation("Changelog • Since " + TrimWhitespaceAndNewlines(tag),
                                                 Some(Decimal.Show(SumEntries(parsed.sections[..m]))), None))
              else Some(UpToDate)
  {
    assert FirstUnreleased(parsed.sections) == |parsed.sections|;
    assert FirstMatching(parsed.sections, version) == m;
  }

  /**
   * Without an unreleased section there is a row exactly when there is a tag,
   * the tag holds a version and some section is for that version.
   */
  lemma PresentationWithoutUnreleased(parsed: ChangelogParsed, releaseTag: Option<string>)
    requires forall i | 0 <= i < |parsed.sections| :: !IsUnreleased(parsed.sections[i])
    ensures Presentation(parsed, releaseTag).Some? <==>
              && releaseTag.Some? && NormalizedVersion(releaseTag.value).Some?
              && exists i | 0 <= i < |parsed.sections| ::
                   SectionMatchesVersion(parsed.sections[i], NormalizedVersion(releaseTag.value).value)
  {
    var sections := parsed.sections;
    assert FirstUnreleased(sections) == |sections|;
    if releaseTag.Some? && NormalizedVersion(releaseTag.value).Some? && sections != [] {
      var version := NormalizedVersion(releaseTag.value).value;
      var m := FirstMatching(sections, version);
      if m < |sections| {
        PresentationSince(parsed, releaseTag.value, version, m);
        assert SectionMatchesVersion(sections[m], version);
      } else {
        assert Presentation(parsed, releaseTag) == None;
      }
    }
  }
}
