/**
 * The row shown for a local branch or worktree in the status-bar menu: how
 * its title is truncated, the ahead/behind label and the last-commit line.
 */
module MenuRowViewModels {
  import opened Wrappers
  import opened Strings
  import opened Decimal

  datatype Kind = Branch | Worktree

  /**
   * `LocalRefMenuRowViewModel`; the date of the last commit is kept as a
   * number of seconds, since only its presence matters here.
   */
  datatype LocalRefMenuRow = LocalRefMenuRow(
    kind: Kind,
    title: string,
    detail: Option<string>,
    isCurrent: bool,
    isDetached: bool,
    upstream: Option<string>,
    aheadCount: Option<int>,
    behindCount: Option<int>,
    lastCommitDate: Option<int>,
    lastCommitAuthor: Option<string>,
    dirtySummary: Option<string>)

  /** `usesMiddleTruncation`: worktree paths are cut in the middle. */
  predicate UsesMiddleTruncation(row: LocalRefMenuRow) {
    row.kind == Worktree
  }

  /**
   * The truncation depends on the kind alone: rows of the same kind are cut
   * alike, whatever their titles, and branch names are never cut in the
   * middle.
   */
  lemma TruncationByKind(row: LocalRefMenuRow, other: LocalRefMenuRow)
    requires row.kind == other.kind
    ensures UsesMiddleTruncation(row) == UsesMiddleTruncation(other)
    ensures row.kind == Branch ==> !UsesMiddleTruncation(row)
  {
  }

  /** `count ?? 0`. */
  function CountOrZero(count: Option<int>): int {
    match count
    case None => 0
    case Some(n) => n
  }

  /**
   * `syncLabel`: "↑ahead" when ahead, "↓behind" when behind, both joined by
   * a space, and the empty string when the ref is neither ahead nor behind.
   */
  function SyncLabel(row: LocalRefMenuRow): string {
    var ahead := CountOrZero(row.aheadCount);
    var behind := CountOrZero(row.behindCount);
    if !(ahead > 0 || behind > 0) then ""
    else
      var parts := (if ahead > 0 then ["↑" + Show(ahead)] else []) +
                   (if behind > 0 then ["↓" + Show(behind)] else []);
      Join(parts, " ")
  }

  /** The pieces of a sync label: one arrow and its count each, the up part first. */
  lemma SyncLabelParts(row: LocalRefMenuRow)
    ensures var ahead := CountOrZero(row.aheadCount);
            var behind := CountOrZero(row.behindCount);
            && (SyncLabel(row) == [] <==> ahead <= 0 && behind <= 0)
            && (ahead > 0 && behind > 0 ==> SyncLabel(row) == ("↑" + Show(ahead)) + " " + ("↓" + Show(behind)))
            && (ahead > 0 && behind <= 0 ==> SyncLabel(row) == "↑" + Show(ahead))
            && (ahead <= 0 && behind > 0 ==> SyncLabel(row) == "↓" + Show(behind))
  {
    var ahead := CountOrZero(row.aheadCount);
    var behind := CountOrZero(row.behindCount);
    if ahead > 0 && behind > 0 {
      var parts := ["↑" + Show(ahead), "↓" + Show(behind)];
      assert parts[1..] == ["↓" + Show(behind)];
      assert Join(parts, " ") == parts[0] + " " + parts[1];
    }
  }

  /** A rendered count holds no arrow and no space. */
  lemma ShowHasNoMarks(n: nat)
    ensures '↑' !in Show(n) && '↓' !in Show(n) && ' ' !in Show(n)
  {
    var r := Show(n);
    assert forall k :: 0 <= k < |r| ==> IsDigit(r[k]);
  }

  /** The label shows an up arrow exactly when ahead and a down arrow exactly when behind. */
  lemma SyncLabelArrows(row: LocalRefMenuRow)
    ensures '↑' in SyncLabel(row) <==> CountOrZero(row.aheadCount) > 0
    ensures '↓' in SyncLabel(row) <==> CountOrZero(row.behindCount) > 0
  {
    var ahead := CountOrZero(row.aheadCount);
    var behind := CountOrZero(row.behindCount);
    SyncLabelParts(row);
    var text := SyncLabel(row);
    if ahead > 0 {
      ShowHasNoMarks(ahead);
      assert text[0] == '↑';
    }
    if behind > 0 {
      ShowHasNoMarks(behind);
      if ahead > 0 {
        assert text[|Show(ahead)| + 2] == '↓';
      } else {
        assert text[0] == '↓';
      }
    }
  }

  /** Two strings cut at the first occurrence of a character agree piece by piece. */
  lemma {:induction false} CutAtFirst(a1: string, b1: string, a2: string, b2: string, c: char)
    requires c !in a1 && c !in a2
    requires a1 + [c] + b1 == a2 + [c] + b2
    ensures a1 == a2 && b1 == b2
  {
    var s := a1 + [c] + b1;
    assert s == a2 + [c] + b2;
    FirstIndexAt(s, x => x == c, |a1|);
    FirstIndexAt(s, x => x == c, |a2|);
    assert a1 == s[..|a1|] == a2;
    assert b1 == s[|a1| + 1..] == b2;
  }

  /** The label determines the counts it shows: equal labels, equal positive counts. */
  lemma SyncLabelInjective(row1: LocalRefMenuRow, row2: LocalRefMenuRow)
    requires SyncLabel(row1) == SyncLabel(row2)
    ensures var a1 := CountOrZero(row1.aheadCount);
            var a2 := CountOrZero(row2.aheadCount);
            (a1 > 0 || a2 > 0) ==> a1 == a2
    ensures var b1 := CountOrZero(row1.behindCount);
            var b2 := CountOrZero(row2.behindCount);
            (b1 > 0 || b2 > 0) ==> b1 == b2
  {
    var a1, b1 := CountOrZero(row1.aheadCount), CountOrZero(row1.behindCount);
    var a2, b2 := CountOrZero(row2.aheadCount), CountOrZero(row2.behindCount);
    assert (a1 > 0 <==> a2 > 0) && (b1 > 0 <==> b2 > 0) by {
      SyncLabelArrows(row1);
      SyncLabelArrows(row2);
    }
    if a1 > 0 && b1 > 0 {
      assert ("↑" + Show(a1)) + " " + ("↓" + Show(b1)) == ("↑" + Show(a2)) + " " + ("↓" + Show(b2)) by {
        SyncLabelParts(row1);
        SyncLabelParts(row2);
      }
      BothCounts(a1, b1, a2, b2);
    } else if a1 > 0 {
      assert "↑" + Show(a1) == "↑" + Show(a2) by {
        SyncLabelParts(row1);
        SyncLabelParts(row2);
      }
      OneCount('↑', a1, a2);
    } else if b1 > 0 {
      assert "↓" + Show(b1) == "↓" + Show(b2) by {
        SyncLabelParts(row1);
        SyncLabelParts(row2);
      }
      OneCount('↓', b1, b2);
    }
  }

  /** An arrow and a count determine the count. */
  lemma OneCount(mark: char, n1: nat, n2: nat)
    requires [mark] + Show(n1) == [mark] + Show(n2)
    ensures n1 == n2
  {
    assert Show(n1) == ([mark] + Show(n1))[1..];
    assert Show(n2) == ([mark] + Show(n2))[1..];
    ShowInjective(n1, n2);
  }

  /** Both arrows and counts determine both counts. */
  lemma BothCounts(a1: nat, b1: nat, a2: nat, b2: nat)
    requires ("↑" + Show(a1)) + " " + ("↓" + Show(b1)) == ("↑" + Show(a2)) + " " + ("↓" + Show(b2))
    ensures a1 == a2 && b1 == b2
  {
    var up1, down1, up2, down2 := "↑" + Show(a1), "↓" + Show(b1), "↑" + Show(a2), "↓" + Show(b2);
    assert ' ' !in up1 by {
      ShowHasNoMarks(a1);
    }
    assert ' ' !in up2 by {
      ShowHasNoMarks(a2);
    }
    CutAtFirst(up1, down1, up2, down2, ' ');
    OneCount('↑', a1, a2);
    OneCount('↓', b1, b2);
  }

  /**
   * `commitLine`: "author · when" when both the date and the author of the
   * last commit are known, nothing otherwise; `when` is the date as the
   * relative formatter renders it.
   */
  function CommitLine(row: LocalRefMenuRow, when: string): (line: Option<string>)
    ensures line.None? <==> row.lastCommitDate.None? || row.lastCommitAuthor.None?
    ensures line.Some? ==>
              && |row.lastCommitAuthor.value| + 3 + |when| == |line.value|
              && line.value[..|row.lastCommitAuthor.value|] == row.lastCommitAuthor.value
              && line.value[|row.lastCommitAuthor.value|..|row.lastCommitAuthor.value| + 3] == " · "
              && line.value[|line.value| - |when|..] == when
  {
    if row.lastCommitDate.None? || row.lastCommitAuthor.None? then None
    else Some(row.lastCommitAuthor.value + " · " + when)
  }
}
