/**
 * The two authorization checks run before any webhook is created:
 * the fixed base permissions (CheckPermissions) and the scopes implied by
 * the categories of the requested events (CheckScopes). This module holds
 * what each check computes as a function of the granted scopes; the
 * provider's methods compute the same lists with loops.
 */
module Scopes {
  import opened Collections
  import opened GoStrings
  import opened Events

  /** The permissions every token must carry, in the order they are reported. */
  const RequiredPermissions: seq<string> := ["account:write", "webhook", "repository:write", "project:write"]

  /** The single entry reported for a `repo` event when neither repository scope is granted. */
  const RepoRequirement: string := "repository:write or repository:admin"

  /** The required entries that are not granted, in required order (no de-duplication). */
  function Unmet(required: seq<string>, granted: seq<string>): seq<string>
    decreases |required|
  {
    if required == [] then []
    else
      var prefix := Unmet(required[..|required| - 1], granted);
      var x := required[|required| - 1];
      if x in granted then prefix else prefix + [x]
  }

  function AbsentPermissions(granted: seq<string>): seq<string> {
    Unmet(RequiredPermissions, granted)
  }

  lemma {:induction false} UnmetMembership(required: seq<string>, granted: seq<string>)
    ensures forall x :: x in Unmet(required, granted) <==> x in required && x !in granted
    decreases |required|
  {
    if required != [] {
      var init := required[..|required| - 1];
      UnmetMembership(init, granted);
      assert required == init + [required[|required| - 1]];
    }
  }

  /**
   * The base-permission check reports the required permissions absent from
   * the token in declared order: each one is listed iff it is not granted.
   */
  lemma AbsentPermissionsInDeclaredOrder(granted: seq<string>)
    ensures AbsentPermissions(granted) ==
      (if "account:write" in granted then [] else ["account:write"]) +
      (if "webhook" in granted then [] else ["webhook"]) +
      (if "repository:write" in granted then [] else ["repository:write"]) +
      (if "project:write" in granted then [] else ["project:write"])
  {
    assert RequiredPermissions == ["account:write", "webhook", "repository:write"] + ["project:write"];
    assert ["account:write", "webhook", "repository:write"] == ["account:write", "webhook"] + ["repository:write"];
    assert ["account:write", "webhook"] == ["account:write"] + ["webhook"];
    assert ["account:write"] == [] + ["account:write"];
    UnmetSnoc([], "account:write", granted);
    UnmetSnoc(["account:write"], "webhook", granted);
    UnmetSnoc(["account:write", "webhook"], "repository:write", granted);
    UnmetSnoc(["account:write", "webhook", "repository:write"], "project:write", granted);
  }

  /**
   * The reported list is exactly the required permissions not granted,
   * each once, so at most four; it is empty exactly when all four are
   * among the granted scopes.
   */
  lemma AbsentPermissionsExactly(granted: seq<string>)
    ensures forall x :: x in AbsentPermissions(granted) <==> x in RequiredPermissions && x !in granted
    ensures NoDuplicates(AbsentPermissions(granted)) && |AbsentPermissions(granted)| <= 4
    ensures AbsentPermissions(granted) == [] <==> forall p :: p in RequiredPermissions ==> p in granted
  {
    var r := AbsentPermissions(granted);
    RequiredPermissionsDistinct();
    UnmetMembership(RequiredPermissions, granted);
    UnmetNoDuplicates(RequiredPermissions, granted);
    NoDuplicatesBound(r, set p | p in RequiredPermissions);
    if r != [] {
      assert r[0] in r;
    }
  }

  /** The four required permissions are distinct. */
  lemma RequiredPermissionsDistinct()
    ensures NoDuplicates(RequiredPermissions)
    ensures |set p | p in RequiredPermissions| == 4
  {
    assert (set p | p in RequiredPermissions) == {"account:write", "webhook", "repository:write", "project:write"};
  }

  lemma {:induction false} UnmetNoDuplicates(required: seq<string>, granted: seq<string>)
    requires NoDuplicates(required)
    ensures NoDuplicates(Unmet(required, granted))
    decreases |required|
  {
    if required != [] {
      var init := required[..|required| - 1];
      UnmetNoDuplicates(init, granted);
      UnmetMembership(init, granted);
    }
  }

  lemma UnmetSnoc(required: seq<string>, x: string, granted: seq<string>)
    ensures Unmet(required + [x], granted) == Unmet(required, granted) + (if x in granted then [] else [x])
  {
    assert (required + [x])[..|required|] == required;
  }

  /** What one event of the given category demands of the granted scopes, if it is not met. */
  function Requirement(category: string, granted: seq<string>): Option<string> {
    if category == "repo" && "repository:write" !in granted && "repository:admin" !in granted then
      Some(RepoRequirement)
    else if category == "issue" && "issues:write" !in granted then
      Some("issues:write")
    else if category == "pullrequest" && "pullrequest:write" !in granted then
      Some("pullrequest:write")
    else
      None
  }

  /** The unmet requirement of each event, event by event. */
  function Triggers(events: seq<HookEvent>, granted: seq<string>): seq<Option<string>> {
    seq(|events|, i requires 0 <= i < |events| => Requirement(events[i].Scope, granted))
  }

  /** The missing event scopes: each unmet requirement once, in order of first trigger. */
  function AbsentEventScopes(events: seq<HookEvent>, granted: seq<string>): seq<string> {
    Distinct(Triggers(events, granted))
  }

  /** An entry is reported iff some event's requirement is that entry and is unmet. */
  lemma EventScopeMembership(events: seq<HookEvent>, granted: seq<string>)
    ensures forall x :: x in AbsentEventScopes(events, granted) <==>
      exists i :: 0 <= i < |events| && Requirement(events[i].Scope, granted) == Some(x)
  {
    var t := Triggers(events, granted);
    DistinctMembership(t);
    forall x | Some(x) in t
      ensures exists i :: 0 <= i < |events| && Requirement(events[i].Scope, granted) == Some(x)
    {
      var i :| 0 <= i < |t| && t[i] == Some(x);
      assert Requirement(events[i].Scope, granted) == Some(x);
    }
    forall x | exists i :: 0 <= i < |events| && Requirement(events[i].Scope, granted) == Some(x)
      ensures Some(x) in t
    {
      var i :| 0 <= i < |events| && Requirement(events[i].Scope, granted) == Some(x);
      assert t[i] == Some(x);
    }
  }

  /**
   * A `repo` event is reported iff neither repository scope is granted;
   * `issue` and `pullrequest` events iff their one scope is missing.
   */
  lemma EventScopeRules(events: seq<HookEvent>, granted: seq<string>)
    ensures RepoRequirement in AbsentEventScopes(events, granted) <==>
      (exists i :: 0 <= i < |events| && events[i].Scope == "repo") &&
      "repository:write" !in granted && "repository:admin" !in granted
    ensures "issues:write" in AbsentEventScopes(events, granted) <==>
      (exists i :: 0 <= i < |events| && events[i].Scope == "issue") && "issues:write" !in granted
    ensures "pullrequest:write" in AbsentEventScopes(events, granted) <==>
      (exists i :: 0 <= i < |events| && events[i].Scope == "pullrequest") && "pullrequest:write" !in granted
  {
    EventScopeMembership(events, granted);
  }

  /**
   * No other entry is ever reported, and each entry appears once, so the
   * list has at most three entries however many events share a category.
   */
  lemma EventScopeBound(events: seq<HookEvent>, granted: seq<string>)
    ensures forall x :: x in AbsentEventScopes(events, granted) ==>
      x == RepoRequirement || x == "issues:write" || x == "pullrequest:write"
    ensures NoDuplicates(AbsentEventScopes(events, granted))
    ensures |AbsentEventScopes(events, granted)| <= 3
  {
    var r := AbsentEventScopes(events, granted);
    EventScopeMembership(events, granted);
    DistinctNoDuplicates(Triggers(events, granted));
    var labels := {RepoRequirement, "issues:write", "pullrequest:write"};
    NoDuplicatesBound(r, labels);
  }

  /** Index of the first event whose requirement is the unmet `x` (|events| if none). */
  function FirstTrigger(events: seq<HookEvent>, granted: seq<string>, x: string): nat {
    FirstIndex(Triggers(events, granted), Some(x))
  }

  /**
   * Every reported entry was triggered by some event, and the entries
   * appear in the order of the first event that triggered each of them.
   */
  lemma EventScopeOrder(events: seq<HookEvent>, granted: seq<string>)
    ensures forall x :: x in AbsentEventScopes(events, granted) ==>
      FirstTrigger(events, granted, x) < |events| &&
      Requirement(events[FirstTrigger(events, granted, x)].Scope, granted) == Some(x)
    ensures forall j, k :: 0 <= j < k < |AbsentEventScopes(events, granted)| ==>
      FirstTrigger(events, granted, AbsentEventScopes(events, granted)[j]) <
      FirstTrigger(events, granted, AbsentEventScopes(events, granted)[k])
  {
    DistinctMembership(Triggers(events, granted));
    DistinctFirstOccurrenceOrder(Triggers(events, granted));
  }

  /** Appending events whose category is not checked changes nothing. */
  lemma {:induction false} OtherCategoriesIgnored(events: seq<HookEvent>, extra: seq<HookEvent>, granted: seq<string>)
    requires forall i :: 0 <= i < |extra| ==>
      extra[i].Scope != "repo" && extra[i].Scope != "issue" && extra[i].Scope != "pullrequest"
    ensures AbsentEventScopes(events + extra, granted) == AbsentEventScopes(events, granted)
    decreases |extra|
  {
    if extra == [] {
      assert events + extra == events;
    } else {
      var init := extra[..|extra| - 1];
      OtherCategoriesIgnored(events, init, granted);
      var t := Triggers(events + extra, granted);
      assert t[..|t| - 1] == Triggers(events + init, granted);
      assert t[|t| - 1] == None;
    }
  }

  /**
   * The base-permission check passes on a scope string made of tokens
   * separated by any white space (with any white space at the ends) iff
   * each of the four required permissions is one of those tokens.
   */
  lemma PermissionsOfTokens(gaps: seq<string>, tokens: seq<string>)
    requires |gaps| == |tokens| + 1
    requires forall i :: 0 <= i < |tokens| ==> tokens[i] != [] && NoSpace(tokens[i])
    requires forall i :: 0 <= i < |gaps| ==> AllSpace(gaps[i])
    requires forall i :: 0 < i < |tokens| ==> gaps[i] != []
    ensures AbsentPermissions(Fields(Interleave(gaps, tokens))) == [] <==>
      forall p :: p in RequiredPermissions ==> p in tokens
  {
    FieldsOfInterleave(gaps, tokens);
    AbsentPermissionsExactly(tokens);
  }

  /**
   * CheckPermissions splits the scope string with strings.Fields, CheckScopes
   * with strings.Split on a single space; for non-empty white-space-free
   * scopes joined by single spaces, both see the same list.
   */
  lemma ScopeParsersAgree(scopes: seq<string>)
    requires |scopes| >= 1
    requires forall i :: 0 <= i < |scopes| ==> scopes[i] != [] && NoSpace(scopes[i])
    ensures Fields(Join(scopes, " ")) == scopes
    ensures Split(Join(scopes, " "), ' ') == scopes
  {
    FieldsOfJoin(scopes);
    SplitOfJoin(scopes, ' ');
  }
}
