/**
 * Character classes and string operations of Swift/Foundation that the modelled
 * code relies on: `CharacterSet.whitespaces`, `.whitespacesAndNewlines`,
 * `Character.isNewline`, `trimmingCharacters(in:)`, ASCII `lowercased()`,
 * case-insensitive `contains`, and the `split` variants with and without
 * empty subsequences and with `maxSplits: 1`.  Strings are sequences of
 * Unicode scalars.
 */
module Strings {

  /** `CharacterSet.whitespaces`: Unicode general category Zs and CHARACTER TABULATION. */
  predicate IsWhitespace(c: char) {
    c == ' ' || c == '\t' || c == '\U{A0}' || c == '\U{1680}' || ('\U{2000}' <= c <= '\U{200A}')
    || c == '\U{202F}' || c == '\U{205F}' || c == '\U{3000}'
  }

  /** `Character.isNewline`: LF, VT, FF, CR, NEL, LINE SEPARATOR, PARAGRAPH SEPARATOR. */
  predicate IsNewline(c: char) {
    ('\n' <= c <= '\r') || c == '\U{85}' || c == '\U{2028}' || c == '\U{2029}'
  }

  /** `CharacterSet.whitespacesAndNewlines`. */
  predicate IsWhitespaceOrNewline(c: char) {
    IsWhitespace(c) || IsNewline(c)
  }

  predicate IsDigit(c: char) {
    '0' <= c <= '9'
  }

  predicate IsAsciiLetter(c: char) {
    ('a' <= c <= 'z') || ('A' <= c <= 'Z')
  }

  /** A character that counts as a word character for a regex `\b`. */
  predicate IsWordChar(c: char) {
    IsDigit(c) || IsAsciiLetter(c) || c == '_'
  }

  // ---------------------------------------------------------------------------
  // Trimming

  /** The first index at or after `i` whose character `drop` does not hold for, or `|s|`. */
  function SkipForward(s: string, drop: char -> bool, i: nat): (j: nat)
    requires i <= |s|
    ensures i <= j <= |s|
    decreases |s| - i
  {
    if i < |s| && drop(s[i]) then SkipForward(s, drop, i + 1) else i
  }

  /**
   * Going back from `j`, but not below `lo`, the index just after the last
   * character that `drop` does not hold for.
   */
  function SkipBackward(s: string, drop: char -> bool, lo: nat, j: nat): (i: nat)
    requires lo <= j <= |s|
    ensures lo <= i <= j
    decreases j
  {
    if lo < j && drop(s[j - 1]) then SkipBackward(s, drop, lo, j - 1) else j
  }

  /** Where the trimmed text starts. */
  function TrimStartIndex(s: string, drop: char -> bool): (i: nat)
    ensures i <= |s|
  {
    SkipForward(s, drop, 0)
  }

  /** Where the trimmed text ends. */
  function TrimEndIndex(s: string, drop: char -> bool): (j: nat)
    ensures TrimStartIndex(s, drop) <= j <= |s|
  {
    SkipBackward(s, drop, TrimStartIndex(s, drop), |s|)
  }

  /**
   * `trimmingCharacters(in:)`: the longest infix of `s` that neither starts nor
   * ends with a character of the set; everything cut off belongs to the set
   * (`TrimSpec`).
   */
  function Trim(s: string, drop: char -> bool): (r: string)
    ensures |r| <= |s|
    ensures r == [] || (!drop(r[0]) && !drop(r[|r| - 1]))
  {
    var i, j := TrimStartIndex(s, drop), TrimEndIndex(s, drop);
    SkipForwardSpec(s, drop, 0);
    SkipBackwardSpec(s, drop, i, |s|);
    TrimEnds(s, i, j, drop);
    s[i..j]
  }

  /** Every character skipped going forward is dropped, and the scan stops at one that is not. */
  lemma {:induction false} SkipForwardSpec(s: string, drop: char -> bool, i: nat)
    requires i <= |s|
    ensures forall k :: i <= k < SkipForward(s, drop, i) ==> drop(s[k])
    ensures SkipForward(s, drop, i) < |s| ==> !drop(s[SkipForward(s, drop, i)])
    decreases |s| - i
  {
    if i < |s| && drop(s[i]) {
      SkipForwardSpec(s, drop, i + 1);
    }
  }

  /** Every character skipped going back is dropped, and the scan stops after one that is not. */
  lemma {:induction false} SkipBackwardSpec(s: string, drop: char -> bool, lo: nat, j: nat)
    requires lo <= j <= |s|
    ensures forall k :: SkipBackward(s, drop, lo, j) <= k < j ==> drop(s[k])
    ensures lo < SkipBackward(s, drop, lo, j) ==> !drop(s[SkipBackward(s, drop, lo, j) - 1])
    decreases j
  {
    if lo < j && drop(s[j - 1]) {
      SkipBackwardSpec(s, drop, lo, j - 1);
    }
  }

  /** A forward scan over dropped characters up to one that is not stops there. */
  lemma SkipForwardIs(s: string, drop: char -> bool, i: nat, j: nat)
    requires i <= j <= |s|
    requires forall k :: i <= k < j ==> drop(s[k])
    requires j < |s| ==> !drop(s[j])
    ensures SkipForward(s, drop, i) == j
    decreases j - i
  {
    if i < j {
      SkipForwardIs(s, drop, i + 1, j);
    }
  }

  /** A backward scan over dropped characters down to one that is not stops after it. */
  lemma SkipBackwardIs(s: string, drop: char -> bool, lo: nat, i: nat, j: nat)
    requires lo <= i <= j <= |s|
    requires forall k :: i <= k < j ==> drop(s[k])
    requires lo < i ==> !drop(s[i - 1])
    ensures SkipBackward(s, drop, lo, j) == i
    decreases j - i
  {
    if i < j {
      SkipBackwardIs(s, drop, lo, i, j - 1);
    }
  }

  /**
   * The trimmed text is the infix between the two indices; everything before
   * and after it is dropped, and it neither starts nor ends with a dropped
   * character.
   */
  lemma TrimSpec(s: string, drop: char -> bool)
    ensures Trim(s, drop) == s[TrimStartIndex(s, drop)..TrimEndIndex(s, drop)]
    ensures forall k :: 0 <= k < TrimStartIndex(s, drop) ==> drop(s[k])
    ensures forall k :: TrimEndIndex(s, drop) <= k < |s| ==> drop(s[k])
    ensures Trim(s, drop) == [] || (!drop(Trim(s, drop)[0]) && !drop(Trim(s, drop)[|Trim(s, drop)| - 1]))
  {
    SkipForwardSpec(s, drop, 0);
    SkipBackwardSpec(s, drop, TrimStartIndex(s, drop), |s|);
    TrimEnds(s, TrimStartIndex(s, drop), TrimEndIndex(s, drop), drop);
  }

  lemma TrimEnds(s: string, i: nat, j: nat, drop: char -> bool)
    requires i <= j <= |s|
    requires i < |s| ==> !drop(s[i])
    requires i < j ==> !drop(s[j - 1])
    ensures s[i..j] == [] || (!drop(s[i..j][0]) && !drop(s[i..j][|s[i..j]| - 1]))
  {
  }

  /** Trimming leaves nothing exactly when every character is one of those trimmed. */
  lemma TrimEmpty(s: string, drop: char -> bool)
    ensures Trim(s, drop) == [] <==> forall k :: 0 <= k < |s| ==> drop(s[k])
  {
    TrimSpec(s, drop);
    SkipForwardSpec(s, drop, 0);
    var i := TrimStartIndex(s, drop);
    if i == |s| {
      assert forall k :: 0 <= k < |s| ==> drop(s[k]);
    } else {
      assert s[i..TrimEndIndex(s, drop)] != [];
    }
  }

  /** Trimming adds no character. */
  lemma TrimAvoids(s: string, drop: char -> bool, c: char)
    requires c !in s
    ensures c !in Trim(s, drop)
  {
    var i, j := TrimStartIndex(s, drop), TrimEndIndex(s, drop);
    forall k | 0 <= k < j - i ensures s[i..j][k] != c {
      assert s[i..j][k] == s[i + k];
    }
  }

  /** Trimming a string that neither starts nor ends with a dropped character changes nothing. */
  lemma TrimUnchanged(s: string, drop: char -> bool)
    requires s == [] || (!drop(s[0]) && !drop(s[|s| - 1]))
    ensures Trim(s, drop) == s
  {
    if s != [] {
      SkipForwardIs(s, drop, 0, 0);
      SkipBackwardIs(s, drop, 0, |s|, |s|);
    }
  }

  /** Trimming twice removes nothing more. */
  lemma TrimIdempotent(s: string, drop: char -> bool)
    ensures Trim(Trim(s, drop), drop) == Trim(s, drop)
  {
    TrimSpec(s, drop);
    TrimUnchanged(Trim(s, drop), drop);
  }

  /** Trimming removes any run of dropped characters around a string that neither starts nor ends with one. */
  lemma TrimSurrounded(s: string, drop: char -> bool, c: char, n: nat, m: nat)
    requires drop(c)
    requires s != [] && !drop(s[0]) && !drop(s[|s| - 1])
    ensures Trim(Repeat(c, n) + s + Repeat(c, m), drop) == s
  {
    var x := Repeat(c, n) + s + Repeat(c, m);
    SurroundedChars(s, c, n, m);
    SkipForwardIs(x, drop, 0, n);
    SkipBackwardIs(x, drop, n, n + |s|, |x|);
    assert x[n..n + |s|] == s;
  }

  /** The characters of `s` with `n` copies of `c` before and `m` after. */
  lemma SurroundedChars(s: string, c: char, n: nat, m: nat)
    ensures |Repeat(c, n) + s + Repeat(c, m)| == n + |s| + m
    ensures forall k :: 0 <= k < n ==> (Repeat(c, n) + s + Repeat(c, m))[k] == c
    ensures forall k :: 0 <= k < |s| ==> (Repeat(c, n) + s + Repeat(c, m))[n + k] == s[k]
    ensures forall k :: n + |s| <= k < n + |s| + m ==> (Repeat(c, n) + s + Repeat(c, m))[k] == c
  {
    var a, b := Repeat(c, n), Repeat(c, m);
    var x := a + s + b;
    forall k | 0 <= k < n ensures x[k] == c {
      assert x[k] == (a + s)[k] == a[k];
    }
    forall k | 0 <= k < |s| ensures x[n + k] == s[k] {
      assert x[n + k] == (a + s)[n + k];
    }
    forall k | n + |s| <= k < n + |s| + m ensures x[k] == c {
      assert x[k] == b[k - n - |s|];
    }
  }

  function TrimWhitespace(s: string): string {
    Trim(s, IsWhitespace)
  }

  function TrimWhitespaceAndNewlines(s: string): string {
    Trim(s, IsWhitespaceOrNewline)
  }

  // ---------------------------------------------------------------------------
  // Case folding and searching

  /** ASCII lower-casing of one character; every other character is unchanged. */
  function LowerChar(c: char): (r: char)
    ensures IsAsciiLetter(c) ==> 'a' <= r <= 'z'
    ensures !IsAsciiLetter(c) ==> r == c
  {
    if 'A' <= c <= 'Z' then (c as int - 'A' as int + 'a' as int) as char else c
  }

  /** `lowercased()`, restricted to ASCII letters. */
  function Lower(s: string): (r: string)
    ensures |r| == |s|
    ensures forall i :: 0 <= i < |s| ==> r[i] == LowerChar(s[i])
  {
    seq(|s|, i requires 0 <= i < |s| => LowerChar(s[i]))
  }

  predicate NoUpperCase(s: string) {
    forall k :: 0 <= k < |s| ==> !('A' <= s[k] <= 'Z')
  }

  /** Lower-casing gives a string without upper-case letters, and changes nothing in one. */
  lemma LowerNoUpperCase(s: string)
    ensures NoUpperCase(Lower(s))
    ensures NoUpperCase(s) ==> Lower(s) == s
  {
  }

  /** Lower-casing brings in no character other than lower-case letters. */
  lemma LowerAvoids(s: string, c: char)
    requires c !in s && !('a' <= c <= 'z')
    ensures c !in Lower(s)
  {
    forall k | 0 <= k < |s| ensures Lower(s)[k] != c {
      assert s[k] != c;
    }
  }

  /** Lower-casing keeps a string's first and last characters out of the white-space set. */
  lemma LowerKeepsEnds(s: string)
    requires s != [] && !IsWhitespaceOrNewline(s[0]) && !IsWhitespaceOrNewline(s[|s| - 1])
    ensures !IsWhitespaceOrNewline(Lower(s)[0]) && !IsWhitespaceOrNewline(Lower(s)[|s| - 1])
  {
  }

  /** `t` occurs in `s` as a contiguous piece starting at `i` or later. */
  predicate ContainsFrom(s: string, t: string, i: nat)
    decreases |s| - i
  {
    i + |t| <= |s| && (s[i..i + |t|] == t || ContainsFrom(s, t, i + 1))
  }

  /** `t` occurs in `s` as a contiguous piece. */
  predicate Contains(s: string, t: string) {
    ContainsFrom(s, t, 0)
  }

  /** `t` is the piece of `s` that starts at position `i`. */
  predicate OccursAt(s: string, t: string, i: int) {
    0 <= i <= |s| - |t| && s[i..i + |t|] == t
  }

  /** The search from `i` finds `t` exactly when it is the piece at some position from `i` on. */
  lemma {:induction false} ContainsFromIff(s: string, t: string, i: nat)
    ensures ContainsFrom(s, t, i) <==> exists j :: i <= j && OccursAt(s, t, j)
    decreases |s| - i
  {
    if i + |t| <= |s| {
      if s[i..i + |t|] == t {
        assert OccursAt(s, t, i);
      } else {
        ContainsFromIff(s, t, i + 1);
        if exists j :: i <= j && OccursAt(s, t, j) {
          var j :| i <= j && OccursAt(s, t, j);
          assert i + 1 <= j && OccursAt(s, t, j);
        }
      }
    }
  }

  /** `Contains` means what it says: `t` is the piece of `s` at some position. */
  lemma ContainsIff(s: string, t: string)
    ensures Contains(s, t) <==> exists i :: OccursAt(s, t, i)
  {
    ContainsFromIff(s, t, 0);
  }

  /** Case-insensitive substring test, folding ASCII letters only. */
  predicate ContainsIgnoringCase(s: string, t: string) {
    Contains(Lower(s), Lower(t))
  }

  // ---------------------------------------------------------------------------
  // Splitting and joining

  /** Index of the first character at or after `i` satisfying `isSep`, or `|s|` when there is none. */
  function FirstIndexFrom(s: string, isSep: char -> bool, i: nat): (j: nat)
    requires i <= |s|
    ensures i <= j <= |s|
    decreases |s| - i
  {
    if i < |s| && !isSep(s[i]) then FirstIndexFrom(s, isSep, i + 1) else i
  }

  /** Index of the first character satisfying `isSep`, or `|s|` when there is none. */
  function FirstIndex(s: string, isSep: char -> bool): (i: nat)
    ensures i <= |s|
    ensures forall k :: 0 <= k < i ==> !isSep(s[k])
    ensures i < |s| ==> isSep(s[i])
  {
    FirstIndexFromSpec(s, isSep, 0);
    FirstIndexFrom(s, isSep, 0)
  }

  /** The scan from `i` passes only non-separators and stops at a separator or the end. */
  lemma {:induction false} FirstIndexFromSpec(s: string, isSep: char -> bool, i: nat)
    requires i <= |s|
    ensures forall k :: i <= k < FirstIndexFrom(s, isSep, i) ==> !isSep(s[k])
    ensures FirstIndexFrom(s, isSep, i) < |s| ==> isSep(s[FirstIndexFrom(s, isSep, i)])
    decreases |s| - i
  {
    if i < |s| && !isSep(s[i]) {
      FirstIndexFromSpec(s, isSep, i + 1);
    }
  }

  predicate NoneOf(s: string, isSep: char -> bool) {
    forall k :: 0 <= k < |s| ==> !isSep(s[k])
  }

  /**
   * `split(omittingEmptySubsequences: false, whereSeparator:)`: the pieces between
   * separators, empty ones included; there is always at least one piece.
   */
  function SplitKeepingEmpty(s: string, isSep: char -> bool): (r: seq<string>)
    ensures |r| >= 1
    ensures forall j :: 0 <= j < |r| ==> NoneOf(r[j], isSep)
    decreases |s|
  {
    var i := FirstIndex(s, isSep);
    if i == |s| then [s] else [s[..i]] + SplitKeepingEmpty(s[i + 1..], isSep)
  }

  /** The pieces joined back with `sep` between consecutive ones. */
  function Join(parts: seq<string>, sep: string): string
    decreases |parts|
  {
    if parts == [] then [] else if |parts| == 1 then parts[0] else parts[0] + sep + Join(parts[1..], sep)
  }

  /**
   * Splitting loses nothing: when every separator in `s` is the character
   * `sep`, joining the pieces with `sep` gives `s` back.
   */
  lemma {:induction false} JoinSplit(s: string, isSep: char -> bool, sep: char)
    requires isSep(sep)
    requires forall k :: 0 <= k < |s| && isSep(s[k]) ==> s[k] == sep
    ensures Join(SplitKeepingEmpty(s, isSep), [sep]) == s
    decreases |s|
  {
    var i := FirstIndex(s, isSep);
    if i < |s| {
      var rest := s[i + 1..];
      SeparatorsOfSuffix(s, isSep, sep, i + 1);
      JoinSplit(rest, isSep, sep);
      SplitAt(s, isSep);
      CutAround(s, i);
      JoinAgrees(SplitKeepingEmpty(s, isSep), s[..i], SplitKeepingEmpty(rest, isSep), rest, s, [sep]);
    }
  }

  /** What holds of the separators of `s` holds of those of any suffix. */
  lemma SeparatorsOfSuffix(s: string, isSep: char -> bool, sep: char, i: nat)
    requires i <= |s|
    requires forall k :: 0 <= k < |s| && isSep(s[k]) ==> s[k] == sep
    ensures forall k :: 0 <= k < |s[i..]| && isSep(s[i..][k]) ==> s[i..][k] == sep
  {
    forall k | 0 <= k < |s[i..]| && isSep(s[i..][k]) ensures s[i..][k] == sep {
      assert s[i..][k] == s[i + k];
    }
  }

  /** One step of splitting: the piece before the first separator, then the pieces after it. */
  lemma SplitAt(s: string, isSep: char -> bool)
    requires FirstIndex(s, isSep) < |s|
    ensures SplitKeepingEmpty(s, isSep) ==
              [s[..FirstIndex(s, isSep)]] + SplitKeepingEmpty(s[FirstIndex(s, isSep) + 1..], isSep)
  {
  }

  lemma CutAround(s: string, i: nat)
    requires i < |s|
    ensures s == s[..i] + [s[i]] + s[i + 1..]
  {
  }

  /** Joining `p` and pieces that join to `rest` gives `p`, the separator and `rest`. */
  lemma JoinAgrees(parts: seq<string>, p: string, tail: seq<string>, rest: string, s: string, sep: string)
    requires parts == [p] + tail && tail != []
    requires Join(tail, sep) == rest && s == p + sep + rest
    ensures Join(parts, sep) == s
  {
    JoinCons(p, tail, sep);
  }

  /** Joining a piece in front of at least one more puts a separator after it. */
  lemma JoinCons(p: string, parts: seq<string>, sep: string)
    requires parts != []
    ensures Join([p] + parts, sep) == p + sep + Join(parts, sep)
  {
    assert ([p] + parts)[1..] == parts;
  }

  /** And splitting undoes joining: separator-free pieces come back unchanged. */
  lemma {:induction false} SplitJoin(parts: seq<string>, isSep: char -> bool, sep: char)
    requires isSep(sep) && |parts| >= 1
    requires forall j :: 0 <= j < |parts| ==> NoneOf(parts[j], isSep)
    ensures SplitKeepingEmpty(Join(parts, [sep]), isSep) == parts
    decreases |parts|
  {
    var s := Join(parts, [sep]);
    if |parts| > 1 {
      SplitJoin(parts[1..], isSep, sep);
      var p := parts[0];
      var rest := Join(parts[1..], [sep]);
      assert s == p + [sep] + rest;
      assert s[..|p|] == p;
      FirstIndexAt(s, isSep, |p|);
      assert s[|p| + 1..] == rest;
    } else {
      FirstIndexAt(s, isSep, |s|);
    }
  }

  /** Pins down `FirstIndex` from a separator-free prefix followed by a separator (or the end). */
  lemma FirstIndexAt(s: string, isSep: char -> bool, i: nat)
    requires i <= |s|
    requires forall k :: 0 <= k < i ==> !isSep(s[k])
    requires i < |s| ==> isSep(s[i])
    ensures FirstIndex(s, isSep) == i
  {
    FirstIndexFromAt(s, isSep, 0, i);
  }

  lemma {:induction false} FirstIndexFromAt(s: string, isSep: char -> bool, j: nat, i: nat)
    requires j <= i <= |s|
    requires forall k :: j <= k < i ==> !isSep(s[k])
    requires i < |s| ==> isSep(s[i])
    ensures FirstIndexFrom(s, isSep, j) == i
    decreases i - j
  {
    if j < i {
      FirstIndexFromAt(s, isSep, j + 1, i);
    }
  }

  /** The non-empty elements of `parts`, in order. */
  function NonEmpty(parts: seq<string>): (r: seq<string>)
    ensures |r| <= |parts|
    ensures forall j :: 0 <= j < |r| ==> r[j] != [] && r[j] in parts
    ensures forall p :: p in parts && p != [] ==> p in r
    decreases |parts|
  {
    if parts == [] then []
    else if parts[0] == [] then NonEmpty(parts[1..])
    else [parts[0]] + NonEmpty(parts[1..])
  }

  lemma {:induction false} NonEmptyAppend(a: seq<string>, b: seq<string>)
    ensures NonEmpty(a + b) == NonEmpty(a) + NonEmpty(b)
    decreases |a|
  {
    if a == [] {
      assert a + b == b;
    } else {
      assert (a + b)[0] == a[0];
      assert (a + b)[1..] == a[1..] + b;
      NonEmptyAppend(a[1..], b);
    }
  }

  /**
   * `split(separator:)` with Swift's default `omittingEmptySubsequences: true`:
   * the non-empty pieces between separators.
   */
  function Split(s: string, sep: char): (r: seq<string>)
    ensures forall j :: 0 <= j < |r| ==> r[j] != [] && sep !in r[j]
  {
    var pieces := SplitKeepingEmpty(s, c => c == sep);
    var r := NonEmpty(pieces);
    assert forall j :: 0 <= j < |r| ==> sep !in r[j] by {
      forall j | 0 <= j < |r| ensures sep !in r[j] {
        assert r[j] in pieces;
        var m :| 0 <= m < |pieces| && pieces[m] == r[j];
        assert NoneOf(pieces[m], c => c == sep);
      }
    }
    r
  }

  /** Index of the first character at or after `i` that is not `sep`, or `|s|`. */
  function SkipSeparators(s: string, sep: char, i: nat): (j: nat)
    requires i <= |s|
    ensures i <= j <= |s|
    decreases |s| - i
  {
    if i < |s| && s[i] == sep then SkipSeparators(s, sep, i + 1) else i
  }

  /** The scan passes only separators and stops at something else or the end. */
  lemma {:induction false} SkipSeparatorsSpec(s: string, sep: char, i: nat)
    requires i <= |s|
    ensures forall k :: i <= k < SkipSeparators(s, sep, i) ==> s[k] == sep
    ensures SkipSeparators(s, sep, i) < |s| ==> s[SkipSeparators(s, sep, i)] != sep
    decreases |s| - i
  {
    if i < |s| && s[i] == sep {
      SkipSeparatorsSpec(s, sep, i + 1);
    }
  }

  /** A scan over separators up to something else stops there. */
  lemma {:induction false} SkipSeparatorsIs(s: string, sep: char, i: nat, j: nat)
    requires i <= j <= |s|
    requires forall k :: i <= k < j ==> s[k] == sep
    requires j < |s| ==> s[j] != sep
    ensures SkipSeparators(s, sep, i) == j
    decreases j - i
  {
    if i < j {
      SkipSeparatorsIs(s, sep, i + 1, j);
    }
  }

  /**
   * The pieces of a string that does not start with the separator, splitting
   * at most once: up to the first separator, and all that follows it if that
   * is not empty.
   */
  function CutOnce(t: string, sep: char): (r: seq<string>)
    requires t != [] && t[0] != sep
    ensures 1 <= |r| <= 2
    ensures forall j :: 0 <= j < |r| ==> r[j] != []
    ensures sep !in r[0]
  {
    var i := FirstIndex(t, c => c == sep);
    assert sep !in t[..i] by {
      forall k | 0 <= k < i ensures t[..i][k] != sep {
        assert t[..i][k] == t[k];
      }
    }
    if i == |t| then [t]
    else if i + 1 == |t| then [t[..i]]
    else [t[..i], t[i + 1..]]
  }

  /**
   * `split(separator:, maxSplits: 1)` omitting empty pieces: leading separators
   * produce only empty pieces and are skipped; the first non-empty piece ends at
   * the next separator, and everything after that separator, if anything, is the
   * second piece (it may itself start with a separator).
   */
  function SplitOnce(s: string, sep: char): (r: seq<string>)
    ensures |r| <= 2
    ensures forall j :: 0 <= j < |r| ==> r[j] != []
    ensures |r| >= 1 ==> sep !in r[0]
  {
    var start := SkipSeparators(s, sep, 0);
    if start == |s| then []
    else
      SkipSeparatorsSpec(s, sep, 0);
      CutOnce(s[start..], sep)
  }

  /** `SplitOnce` finds nothing exactly when the string is separators only. */
  lemma SplitOnceEmpty(s: string, sep: char)
    ensures SplitOnce(s, sep) == [] <==> forall k :: 0 <= k < |s| ==> s[k] == sep
  {
    SkipSeparatorsSpec(s, sep, 0);
  }

  /** The first piece of `SplitOnce` holds no character the string does not. */
  lemma SplitOnceAvoids(s: string, sep: char, c: char)
    requires c !in s && |SplitOnce(s, sep)| >= 1
    ensures c !in SplitOnce(s, sep)[0]
  {
    var start := SkipSeparators(s, sep, 0);
    SkipSeparatorsSpec(s, sep, 0);
    var t := s[start..];
    var i := FirstIndex(t, x => x == sep);
    forall k | 0 <= k < |t| ensures t[k] != c {
      assert t[k] == s[start + k];
    }
    forall k | 0 <= k < i ensures t[..i][k] != c {
      assert t[..i][k] == t[k];
    }
  }

  /** A string without the separator is one piece. */
  lemma SplitOnceNoSeparator(s: string, sep: char)
    requires s != [] && sep !in s
    ensures SplitOnce(s, sep) == [s]
  {
    assert s[0..] == s;
    FirstIndexAt(s, c => c == sep, |s|);
  }

  /** A run of `n` copies of `c`. */
  function Repeat(c: char, n: nat): (r: string)
    ensures |r| == n && forall k :: 0 <= k < n ==> r[k] == c
  {
    if n == 0 then [] else [c] + Repeat(c, n - 1)
  }

  /** Two pieces from `SplitOnce` are what follows the leading separators, cut at the next separator. */
  lemma SplitOnceTwoPieces(s: string, sep: char)
    requires |SplitOnce(s, sep)| == 2
    ensures var r := SplitOnce(s, sep);
            exists n: nat :: s == Repeat(sep, n) + r[0] + [sep] + r[1]
  {
    var r := SplitOnce(s, sep);
    var start := SkipSeparators(s, sep, 0);
    SkipSeparatorsSpec(s, sep, 0);
    var t := s[start..];
    var i := FirstIndex(t, c => c == sep);
    assert r == [t[..i], t[i + 1..]];
    SeparatorsThenCut(s, sep, start, i);
  }

  /** Separators up to `start`, then a piece cut at the separator at `start + i`. */
  lemma SeparatorsThenCut(s: string, sep: char, start: nat, i: nat)
    requires start + i < |s| && s[start + i] == sep
    requires forall k :: 0 <= k < start ==> s[k] == sep
    ensures s == Repeat(sep, start) + s[start..][..i] + [sep] + s[start..][i + 1..]
  {
    var t := s[start..];
    SeparatorRun(s, sep, start);
    assert t[i] == sep;
    CutAround(t, i);
    assert s == s[..start] + t;
    Reassociate(s[..start], t[..i], [sep], t[i + 1..]);
  }

  lemma SeparatorRun(s: string, sep: char, n: nat)
    requires n <= |s|
    requires forall k :: 0 <= k < n ==> s[k] == sep
    ensures s[..n] == Repeat(sep, n)
  {
  }

  lemma Reassociate(p: string, a: string, b: string, c: string)
    ensures p + (a + b + c) == p + a + b + c
  {
  }

  /** Conversely, leading separators, a separator-free `a`, a separator and a non-empty `b` split into `[a, b]`. */
  lemma SplitOnceOfShape(n: nat, a: string, b: string, sep: char)
    requires a != [] && sep !in a && b != []
    ensures SplitOnce(Repeat(sep, n) + a + [sep] + b, sep) == [a, b]
  {
    var s := Repeat(sep, n) + a + [sep] + b;
    var t := a + [sep] + b;
    assert s == Repeat(sep, n) + t;
    assert s[n..] == t;
    assert s[n] == a[0];
    SkipSeparatorsIs(s, sep, 0, n);
    CutOnceOfPair(a, b, sep);
  }

  /** Cutting `a/b` with `a` free of separators and both parts non-empty gives exactly `[a, b]`. */
  lemma CutOnceOfPair(a: string, b: string, sep: char)
    requires a != [] && sep !in a && b != []
    ensures (a + [sep] + b)[0] != sep
    ensures CutOnce(a + [sep] + b, sep) == [a, b]
  {
    var s := a + [sep] + b;
    assert s[0] == a[0];
    assert forall k :: 0 <= k < |a| ==> s[k] == a[k];
    FirstIndexAt(s, c => c == sep, |a|);
    assert s[..|a|] == a;
    assert s[|a| + 1..] == b;
  }

  /** Splitting `a/b` with `a` free of separators and both parts non-empty gives exactly `[a, b]`. */
  lemma SplitOnceOfPair(a: string, b: string, sep: char)
    requires a != [] && sep !in a && b != []
    ensures SplitOnce(a + [sep] + b, sep) == [a, b]
  {
    SplitOnceOfShape(0, a, b, sep);
    assert Repeat(sep, 0) + a + [sep] + b == a + [sep] + b;
  }
}
