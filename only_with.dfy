/**
 * The `--only-with` argument of the command-line tool: a comma-separated
 * list of work kinds ("work", "issues", "prs", ...) read into the pair of
 * "must have open issues / pull requests" flags, or rejected.
 */
module OnlyWithSelection {
  import opened Wrappers
  import opened Strings
  import opened RepoCore

  /** The non-empty comma-separated pieces of the argument, trimmed and lower-cased. */
  function Tokens(argument: string): (tokens: seq<string>)
    ensures |tokens| == |Split(argument, ',')|
  {
    var pieces := Split(argument, ',');
    seq(|pieces|, j requires 0 <= j < |pieces| => Lower(TrimWhitespaceAndNewlines(pieces[j])))
  }

  /** The tokens that ask for open issues. */
  predicate AsksForIssues(token: string) {
    token == "work" || token == "issues" || token == "issue"
  }

  /** The tokens that ask for open pull requests. */
  predicate AsksForPulls(token: string) {
    token == "work" || token == "prs" || token == "pr" || token == "pulls" || token == "pull"
  }

  /** The tokens the parser knows; any other token rejects the whole argument. */
  predicate IsKnown(token: string) {
    AsksForIssues(token) || AsksForPulls(token)
  }

  /**
   * What a list of tokens selects, stated without a loop: nothing when one
   * token is unknown or when no flag is asked for, otherwise each flag is set
   * exactly when some token asks for it.
   */
  function Selection(tokens: seq<string>): Option<RepositoryOnlyWith> {
    if exists t :: t in tokens && !IsKnown(t) then None
    else
      var issues := exists t :: t in tokens && AsksForIssues(t);
      var pulls := exists t :: t in tokens && AsksForPulls(t);
      if issues || pulls then Some(RepositoryOnlyWith(issues, pulls)) else None
  }

  /** `OnlyWithSelection.init?(argument:)`: split the argument, then read its tokens. */
  method ParseOnlyWith(argument: string) returns (selection: Option<RepositoryOnlyWith>)
    ensures selection == Selection(Tokens(argument))
  {
    selection := ReadTokens(Tokens(argument));
  }

  /**
   * The loop of `OnlyWithSelection.init?(argument:)`: one pass over the
   * tokens, raising the flags and giving up at the first unknown token.
   */
  method ReadTokens(tokens: seq<string>) returns (selection: Option<RepositoryOnlyWith>)
    ensures selection == Selection(tokens)
  {
    var requireIssues := false;
    var requirePRs := false;
    for i := 0 to |tokens|
      invariant forall k :: 0 <= k < i ==> IsKnown(tokens[k])
      invariant requireIssues <==> exists k :: 0 <= k < i && AsksForIssues(tokens[k])
      invariant requirePRs <==> exists k :: 0 <= k < i && AsksForPulls(tokens[k])
    {
      var token := tokens[i];
      TokenKinds(token);
      if token == "work" {
        requireIssues := true;
        requirePRs := true;
      } else if token == "issues" || token == "issue" {
        requireIssues := true;
      } else if token == "prs" || token == "pr" || token == "pulls" || token == "pull" {
        requirePRs := true;
      } else {
        assert token in tokens && !IsKnown(token);
        return None;
      }
    }
    if !(requireIssues || requirePRs) {
      return None;
    }
    selection := Some(RepositoryOnlyWith(requireIssues, requirePRs));
  }

  /** What each branch of the token switch asks for. */
  lemma TokenKinds(token: string)
    ensures token == "work" ==> AsksForIssues(token) && AsksForPulls(token)
    ensures token == "issues" || token == "issue" ==> AsksForIssues(token) && !AsksForPulls(token)
    ensures token == "prs" || token == "pr" || token == "pulls" || token == "pull" ==>
              !AsksForIssues(token) && AsksForPulls(token)
    ensures !IsKnown(token) <==>
              !(token == "work" || token == "issues" || token == "issue" ||
                token == "prs" || token == "pr" || token == "pulls" || token == "pull")
  {
  }

  /**
   * A selection comes out exactly when there is at least one token and every
   * token is known (each known token raises a flag).
   */
  lemma SelectionSome(tokens: seq<string>)
    ensures Selection(tokens).Some? <==> tokens != [] && forall t :: t in tokens ==> IsKnown(t)
  {
    if tokens != [] && forall t :: t in tokens ==> IsKnown(t) {
      var t := tokens[0];
      assert t in tokens && IsKnown(t);
      assert AsksForIssues(t) || AsksForPulls(t);
    }
  }

  /** A selection always asks for at least one kind of work. */
  lemma SelectionAsksForSomething(tokens: seq<string>)
    requires Selection(tokens).Some?
    ensures Selection(tokens).value.requireIssues || Selection(tokens).value.requirePRs
    ensures Selection(tokens).value != OnlyWithNone
  {
  }

  /** "work" anywhere in an accepted list asks for both issues and pull requests. */
  lemma WorkAsksForBoth(tokens: seq<string>)
    requires "work" in tokens
    ensures Selection(tokens).Some? ==> Selection(tokens).value == RepositoryOnlyWith(true, true)
  {
    assert AsksForIssues("work") && AsksForPulls("work");
  }

  /** A single token selects what it names: both flags, one of them, or nothing. */
  lemma SelectionOfOneToken(token: string)
    ensures Selection([token]) ==
      if token == "work" then Some(RepositoryOnlyWith(true, true))
      else if token == "issues" || token == "issue" then Some(RepositoryOnlyWith(true, false))
      else if token == "prs" || token == "pr" || token == "pulls" || token == "pull" then Some(RepositoryOnlyWith(false, true))
      else None
  {
    TokenKinds(token);
    assert token in [token];
  }

  /** Neither the order of the tokens nor their repetition matters. */
  lemma SelectionIgnoresOrder(a: seq<string>, b: seq<string>)
    requires forall t :: t in a <==> t in b
    ensures Selection(a) == Selection(b)
  {
  }

  /** Listing the tokens twice, or in the other order, selects the same. */
  lemma SelectionOfConcatenation(a: seq<string>, b: seq<string>)
    ensures Selection(a + b) == Selection(b + a)
    ensures Selection(a + a) == Selection(a)
  {
    assert forall t :: t in a + b <==> t in b + a;
    assert forall t :: t in a + a <==> t in a;
    SelectionIgnoresOrder(a + b, b + a);
    SelectionIgnoresOrder(a + a, a);
  }

  /** An empty argument selects nothing. */
  lemma EmptyArgumentRejected()
    ensures Selection(Tokens("")) == None
  {
    assert Tokens("") == [];
  }

  /** A piece between commas that is only white space becomes an empty, unknown token. */
  lemma BlankTokenRejected(argument: string, j: nat)
    requires j < |Split(argument, ',')|
    requires TrimWhitespaceAndNewlines(Split(argument, ',')[j]) == []
    ensures Selection(Tokens(argument)) == None
  {
    var tokens := Tokens(argument);
    assert tokens[j] == [];
    assert tokens[j] in tokens && !IsKnown(tokens[j]);
  }
}
