/**
 * The `--owner` filter of the command-line tool: a set of normalised owner
 * logins parsed from comma-separated arguments, applied to a repository list
 * and extended one owner at a time.
 */
module RepoOwnerFilter {
  import opened Wrappers
  import opened Strings
  import opened RepoCore

  datatype OwnerFilter = OwnerFilter(owners: set<string>)

  /**
   * The shape of a normalised owner: non-empty, without upper-case letters,
   * neither starting nor ending with white space, and without `/` unless it
   * is made of nothing but `/` (a token of slashes only has no first piece,
   * and the code then keeps the token itself).
   */
  predicate IsNormalOwner(o: string) {
    && o != []
    && NoUpperCase(o)
    && !IsWhitespaceOrNewline(o[0]) && !IsWhitespaceOrNewline(o[|o| - 1])
    && ('/' in o ==> forall k :: 0 <= k < |o| ==> o[k] == '/')
  }

  /** What precedes the first `/` of a trimmed token, or the whole token when it is slashes only. */
  function OwnerPart(trimmed: string): (owner: string)
    ensures trimmed != [] ==> owner != []
  {
    var pieces := SplitOnce(trimmed, '/');
    if pieces == [] then trimmed else pieces[0]
  }

  /**
   * `normalizeOwner`: trim, keep what precedes the first `/` of an
   * `owner/repo` token, trim again and lower-case; nothing when that leaves
   * an empty string.
   */
  function NormalizeOwner(raw: string): (r: Option<string>)
    ensures r.Some? ==> IsNormalOwner(r.value)
    ensures TrimWhitespaceAndNewlines(raw) == [] ==> r.None?
  {
    var trimmed := TrimWhitespaceAndNewlines(raw);
    if trimmed == [] then None
    else
      var normalized := Lower(TrimWhitespaceAndNewlines(OwnerPart(trimmed)));
      NormalizedShape(trimmed);
      if normalized == [] then None else Some(normalized)
  }

  /** The owner part of a trimmed token, trimmed and lower-cased, has the normal shape when not empty. */
  lemma NormalizedShape(trimmed: string)
    requires trimmed != []
    ensures var normalized := Lower(TrimWhitespaceAndNewlines(OwnerPart(trimmed)));
            normalized != [] ==> IsNormalOwner(normalized)
  {
    var owner := OwnerPart(trimmed);
    var t := TrimWhitespaceAndNewlines(owner);
    var normalized := Lower(t);
    LowerNoUpperCase(t);
    if t != [] {
      LowerKeepsEnds(t);
    }
    if SplitOnce(trimmed, '/') == [] {
      SplitOnceEmpty(trimmed, '/');
      assert owner[0] == '/' && owner[|owner| - 1] == '/';
      TrimUnchanged(owner, IsWhitespaceOrNewline);
    } else {
      TrimAvoids(owner, IsWhitespaceOrNewline, '/');
      LowerAvoids(t, '/');
    }
  }

  /** Normalising brings in no character other than lower-case letters. */
  lemma NormalizeOwnerAvoids(raw: string, c: char)
    requires c !in raw && !('a' <= c <= 'z')
    ensures NormalizeOwner(raw).Some? ==> c !in NormalizeOwner(raw).value
  {
    var trimmed := TrimWhitespaceAndNewlines(raw);
    if trimmed != [] {
      TrimAvoids(raw, IsWhitespaceOrNewline, c);
      if SplitOnce(trimmed, '/') != [] {
        SplitOnceAvoids(trimmed, '/', c);
      }
      var owner := OwnerPart(trimmed);
      TrimAvoids(owner, IsWhitespaceOrNewline, c);
      LowerAvoids(TrimWhitespaceAndNewlines(owner), c);
    }
  }

  /** Normalised owners are left alone by normalising again. */
  lemma NormalizeOwnerFixedPoint(raw: string)
    requires NormalizeOwner(raw).Some?
    ensures NormalizeOwner(NormalizeOwner(raw).value) == NormalizeOwner(raw)
  {
    NormalizeOwnerOfNormal(NormalizeOwner(raw).value);
  }

  /** A string of normal shape normalises to itself. */
  lemma NormalizeOwnerOfNormal(v: string)
    requires IsNormalOwner(v)
    ensures NormalizeOwner(v) == Some(v)
  {
    TrimUnchanged(v, IsWhitespaceOrNewline);
    OwnerPartOfNormal(v);
    LowerNoUpperCase(v);
  }

  /** The owner part of a normal owner is the owner itself. */
  lemma OwnerPartOfNormal(v: string)
    requires IsNormalOwner(v)
    ensures OwnerPart(v) == v
  {
    if '/' in v {
      SplitOnceEmpty(v, '/');
    } else {
      SplitOnceNoSeparator(v, '/');
    }
  }

  /** White space around a token is ignored. */
  lemma NormalizeOwnerIgnoresPadding(raw: string)
    ensures NormalizeOwner(TrimWhitespaceAndNewlines(raw)) == NormalizeOwner(raw)
  {
    TrimIdempotent(raw, IsWhitespaceOrNewline);
    NormalizeOwnerOfTrimmed(TrimWhitespaceAndNewlines(raw), raw);
  }

  /** Normalising depends only on the trimmed token. */
  lemma NormalizeOwnerOfTrimmed(raw: string, other: string)
    requires TrimWhitespaceAndNewlines(raw) == TrimWhitespaceAndNewlines(other)
    ensures NormalizeOwner(raw) == NormalizeOwner(other)
  {
  }

  /** A plain login is lower-cased. */
  lemma NormalizeOwnerOfLogin(login: string)
    requires login != [] && '/' !in login
    requires !IsWhitespaceOrNewline(login[0]) && !IsWhitespaceOrNewline(login[|login| - 1])
    ensures NormalizeOwner(login) == Some(Lower(login))
  {
    TrimUnchanged(login, IsWhitespaceOrNewline);
    SplitOnceNoSeparator(login, '/');
  }

  /** An `owner/repo` token contributes its owner only. */
  lemma NormalizeOwnerOfPath(login: string, repo: string)
    requires login != [] && '/' !in login
    requires !IsWhitespaceOrNewline(login[0]) && !IsWhitespaceOrNewline(login[|login| - 1])
    requires repo != [] && !IsWhitespaceOrNewline(repo[|repo| - 1])
    ensures NormalizeOwner(login + "/" + repo) == Some(Lower(login))
  {
    var s := login + "/" + repo;
    assert s[0] == login[0] && s[|s| - 1] == repo[|repo| - 1];
    TrimUnchanged(s, IsWhitespaceOrNewline);
    SplitOnceOfPair(login, repo, '/');
    TrimUnchanged(login, IsWhitespaceOrNewline);
  }

  // ---------------------------------------------------------------------------
  // parse

  /** `values.flatMap { $0.split(separator: ",") }`: the non-empty comma-separated tokens, in order. */
  function Tokens(values: seq<string>): (tokens: seq<string>)
    ensures forall j :: 0 <= j < |tokens| ==> tokens[j] != [] && ',' !in tokens[j]
  {
    if values == [] then [] else Split(values[0], ',') + Tokens(values[1..])
  }

  /** `compactMap(normalizeOwner)`: the owners of the tokens that normalise, in order. */
  function NormalizedOwners(tokens: seq<string>): (owners: seq<string>)
    ensures forall o :: o in owners <==> exists t :: t in tokens && NormalizeOwner(t) == Some(o)
  {
    if tokens == [] then []
    else
      var rest := NormalizedOwners(tokens[1..]);
      match NormalizeOwner(tokens[0])
      case None => rest
      case Some(o) => [o] + rest
  }

  /** `Set(s)`: the elements of a sequence. */
  function Elements<T(!new)>(s: seq<T>): (r: set<T>)
    ensures forall x :: x in r <==> x in s
    ensures r == {} <==> s == []
  {
    if s == [] then {} else {s[0]} + Elements(s[1..])
  }

  /**
   * `parse`: the set of owners the tokens normalise to; nothing when that set
   * is empty.
   */
  function Parse(values: seq<string>): Option<OwnerFilter> {
    var owners := Elements(NormalizedOwners(Tokens(values)));
    if owners == {} then None else Some(OwnerFilter(owners))
  }

  /** There is no filter exactly when no token normalises to an owner. */
  lemma ParseNone(values: seq<string>)
    ensures Parse(values).None? <==> forall t :: t in Tokens(values) ==> NormalizeOwner(t).None?
  {
    var tokens := Tokens(values);
    NoNormalizedOwners(tokens);
  }

  /** No owners come out exactly when no token normalises. */
  lemma {:induction false} NoNormalizedOwners(tokens: seq<string>)
    ensures NormalizedOwners(tokens) == [] <==> forall t :: t in tokens ==> NormalizeOwner(t).None?
  {
    if tokens != [] {
      NoNormalizedOwners(tokens[1..]);
      assert forall t :: t in tokens <==> t == tokens[0] || t in tokens[1..];
    }
  }

  /**
   * The owners of a filter are exactly those the tokens normalise to, each of
   * normal shape and free of commas.
   */
  lemma ParseOwners(values: seq<string>)
    requires Parse(values).Some?
    ensures forall o :: o in Parse(values).value.owners <==>
                        exists t :: t in Tokens(values) && NormalizeOwner(t) == Some(o)
    ensures forall o :: o in Parse(values).value.owners ==> IsNormalOwner(o) && ',' !in o
  {
    var tokens := Tokens(values);
    forall o | o in Parse(values).value.owners ensures ',' !in o {
      var t :| t in tokens && NormalizeOwner(t) == Some(o);
      NormalizeOwnerAvoids(t, ',');
    }
  }

  // ---------------------------------------------------------------------------
  // applying, inserting

  /** `applying(to:)`: the repositories whose lower-cased owner is in the set, in their order. */
  function Applying(filter: OwnerFilter, repos: seq<Repository>): (r: seq<Repository>)
    ensures |r| <= |repos|
    ensures forall x :: x in r <==> x in repos && Lower(x.owner) in filter.owners
  {
    if repos == [] then []
    else
      var rest := Applying(filter, repos[1..]);
      if Lower(repos[0].owner) in filter.owners then [repos[0]] + rest else rest
  }

  /** Filtering keeps the order: filtering a concatenation filters each part. */
  lemma {:induction false} ApplyingAppend(filter: OwnerFilter, a: seq<Repository>, b: seq<Repository>)
    ensures Applying(filter, a + b) == Applying(filter, a) + Applying(filter, b)
    decreases |a|
  {
    if a == [] {
      assert a + b == b;
    } else {
      assert (a + b)[0] == a[0];
      assert (a + b)[1..] == a[1..] + b;
      ApplyingAppend(filter, a[1..], b);
    }
  }

  /** Filtering twice is filtering once. */
  lemma {:induction false} ApplyingIdempotent(filter: OwnerFilter, repos: seq<Repository>)
    ensures Applying(filter, Applying(filter, repos)) == Applying(filter, repos)
    decreases |repos|
  {
    if repos != [] {
      ApplyingIdempotent(filter, repos[1..]);
      var rest := Applying(filter, repos[1..]);
      if Lower(repos[0].owner) in filter.owners {
        assert ([repos[0]] + rest)[1..] == rest;
      }
    }
  }

  /** The owner `inserting` adds: the normalised one, or the raw one lower-cased when that fails. */
  function InsertedOwner(owner: string): string {
    match NormalizeOwner(owner)
    case Some(normalized) => normalized
    case None => Lower(owner)
  }

  /** `inserting(owner:)`: the same owners plus one. */
  function Inserting(filter: OwnerFilter, owner: string): (r: OwnerFilter)
    ensures filter.owners <= r.owners
    ensures r.owners - filter.owners <= {InsertedOwner(owner)}
    ensures InsertedOwner(owner) in r.owners
  {
    OwnerFilter(filter.owners + {InsertedOwner(owner)})
  }

  /**
   * After inserting an owner, every repository kept before is still kept,
   * and so is every repository of the inserted owner.
   */
  lemma InsertingWidens(filter: OwnerFilter, owner: string, repos: seq<Repository>)
    ensures forall x :: x in Applying(filter, repos) ==> x in Applying(Inserting(filter, owner), repos)
    ensures forall x :: x in repos && Lower(x.owner) == InsertedOwner(owner) ==>
                        x in Applying(Inserting(filter, owner), repos)
  {
  }
}
