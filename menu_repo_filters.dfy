/**
 * The repository scope picked in the status-bar menu: all repositories, the
 * pinned ones, or those with open work, each with its label and the
 * open-work requirement it implies.
 */
module MenuRepoFilters {
  import opened RepoCore

  /** `MenuRepoSelection`. */
  datatype MenuRepoSelection = All | Pinned | Work

  /** `label`: the title shown in the menu. */
  function Label(selection: MenuRepoSelection): (r: string)
    ensures r != []
  {
    match selection
    case All => "All"
    case Pinned => "Pinned"
    case Work => "Work"
  }

  /** `onlyWith`: the open-work requirement of the scope. */
  function OnlyWith(selection: MenuRepoSelection): RepositoryOnlyWith {
    match selection
    case All => OnlyWithNone
    case Work => RepositoryOnlyWith(true, true)
    case Pinned => OnlyWithNone
  }

  /** `isPinnedScope`. */
  predicate IsPinnedScope(selection: MenuRepoSelection) {
    selection == Pinned
  }

  /** Different scopes have different labels, so a label names its scope. */
  lemma LabelsDistinct(a: MenuRepoSelection, b: MenuRepoSelection)
    ensures Label(a) == Label(b) <==> a == b
  {
    if a != b {
      assert Label(a)[0] != Label(b)[0];
    }
  }

  /**
   * Only the work scope asks for open work, and it asks for both issues and
   * pull requests; the other scopes ask for nothing.
   */
  lemma OnlyWithWork(selection: MenuRepoSelection)
    ensures OnlyWith(selection) != OnlyWithNone <==> selection == Work
    ensures OnlyWith(selection).requireIssues <==> selection == Work
    ensures OnlyWith(selection).requirePRs <==> selection == Work
  {
  }

  /** The pinned scope narrows by pinning alone, never by open work. */
  lemma PinnedScopeHasNoRequirement(selection: MenuRepoSelection)
    ensures IsPinnedScope(selection) <==> selection == Pinned
    ensures IsPinnedScope(selection) ==> OnlyWith(selection) == OnlyWithNone
  {
  }
}
