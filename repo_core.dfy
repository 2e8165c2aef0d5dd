/**
 * The two records of the core library that the filters work on.  Only the
 * fields the filters read are kept: a repository's owner and name, and the
 * pair of "must have open issues / pull requests" flags.
 */
module RepoCore {

  /** A GitHub repository, reduced to the fields the filters read. */
  datatype Repository = Repository(owner: string, name: string)

  /** Which kinds of open work a repository must have to be listed. */
  datatype RepositoryOnlyWith = RepositoryOnlyWith(requireIssues: bool, requirePRs: bool)

  /** `RepositoryOnlyWith.none`: no requirement. */
  const OnlyWithNone := RepositoryOnlyWith(false, false)
}
