/**
 * The concrete scope strings of the provider's permission tests, and two
 * event lists, run through the validators' specifications. Multi-word
 * scope strings are written as their words joined by single spaces, which
 * is how the tests spell them.
 */
module Scenarios {
  import opened Collections
  import opened GoStrings
  import opened Events
  import opened Scopes

  /** The scopes of the passing permission test. */
  const FullWords: seq<string> := ["pullrequest", "account:write", "webhook", "repository:write", "project:write"]

  /** The four base permissions and nothing else. */
  const BaseWords: seq<string> := ["account:write", "webhook", "repository:write", "project:write"]

  lemma AllGranted(granted: seq<string>)
    requires granted == FullWords
    ensures AbsentPermissions(granted) == []
  {
    AbsentPermissionsInDeclaredOrder(granted);
    assert granted[1] == "account:write" && granted[2] == "webhook";
    assert granted[3] == "repository:write" && granted[4] == "project:write";
  }

  lemma FullWordsAreWords(words: seq<string>)
    requires words == FullWords
    ensures forall i :: 0 <= i < |words| ==> words[i] != [] && NoSpace(words[i])
  {
    forall i | 0 <= i < |words|
      ensures words[i] != [] && NoSpace(words[i])
    {
      assert ' ' !in words[i];
    }
  }

  /** The token scopes of the passing permission test are accepted. */
  lemma FullScopesPass()
    ensures Fields(Join(FullWords, " ")) == FullWords
    ensures AbsentPermissions(Fields(Join(FullWords, " "))) == []
  {
    FullWordsAreWords(FullWords);
    FieldsOfJoin(FullWords);
    AllGranted(Fields(Join(FullWords, " ")));
  }

  /** A token granting only `pullrequest` misses all four permissions, in declared order. */
  lemma PullRequestOnlyFails(scopes: string)
    requires scopes == "pullrequest"
    ensures AbsentPermissions(Fields(scopes)) == RequiredPermissions
  {
    FieldsOfWord(scopes);
    AbsentPermissionsInDeclaredOrder([scopes]);
  }

  lemma OnlyAccountWrite(granted: seq<string>)
    requires granted == ["account:write"]
    ensures AbsentPermissions(granted) == ["webhook", "repository:write", "project:write"]
  {
    AbsentPermissionsInDeclaredOrder(granted);
    assert "account:write" in granted;
    assert "project:write"[0] != "account:write"[0];
  }

  /** A token granting only `account:write` misses the other three, in declared order. */
  lemma AccountWriteOnlyFails(scopes: string)
    requires scopes == "account:write"
    ensures AbsentPermissions(Fields(scopes)) == ["webhook", "repository:write", "project:write"]
  {
    FieldsOfWord(scopes);
    OnlyAccountWrite(Fields(scopes));
  }

  /**
   * Without a repository scope, two `repo` events and a `pullrequest` event
   * yield the repository entry once, then the pull-request entry.
   */
  lemma RepeatedRepoEventsReportedOnce(events: seq<HookEvent>, granted: seq<string>)
    requires events == [HookEvent("repo", "repo:push"), HookEvent("repo", "repo:fork"),
                        HookEvent("pullrequest", "pullrequest:created")]
    requires granted == ["account:write"]
    ensures AbsentEventScopes(events, granted) == [RepoRequirement, "pullrequest:write"]
  {
    var t := Triggers(events, granted);
    assert |t| == 3;
    assert t[0] == Some(RepoRequirement) && t[1] == Some(RepoRequirement);
    assert t[2] == Some("pullrequest:write");
    assert t[..2][..1][..0] == [];
    assert Distinct(t[..2][..1]) == [RepoRequirement];
    assert Distinct(t[..2]) == [RepoRequirement];
  }

  /** With the four base scopes granted, a `repo:push` event needs nothing more. */
  lemma RepoPushWithBaseScopesPasses(events: seq<HookEvent>, granted: seq<string>)
    requires events == [HookEvent("repo", "repo:push")]
    requires granted == BaseWords
    ensures AbsentEventScopes(events, granted) == []
  {
    var t := Triggers(events, granted);
    assert granted[2] == "repository:write";
    assert |t| == 1 && t[0] == None;
    assert t[..0] == [];
    assert Distinct(t) == Distinct(t[..0]);
  }
}
