/**
 * The Bitbucket provider object. Its constructor parses the configured
 * event list; its two checks validate the token's scopes; its
 * GetRepositories appends every fetched page to the Repositories field.
 * The token is filled by authentication, which is not part of this model.
 */
module Provider {
  import opened Collections
  import opened GoStrings
  import opened Events
  import opened Scopes
  import opened Pagination

  datatype Token = Token(AccessToken: string, Scopes: string, ExpiresIn: int, RefreshToken: string, TokenType: string)

  /** The zero value a new provider holds until authentication fills it. */
  const EmptyToken: Token := Token("", "", 0, "", "")

  /** The errors the two checks return, carrying the list their message joins. */
  datatype ScopeError =
    | PermissionsNotFound(missing: seq<string>)
    | EventScopesNotGranted(missing: seq<string>)

  class Bitbucket {
    var Token: Token
    var Events: seq<HookEvent>
    var Username: string
    var Repositories: seq<Repository>

    /**
     * NewBitbucket, with the account name and the WEBHOOK_EVENTS list
     * passed in: one HookEvent per comma-separated entry, in order.
     */
    constructor (username: string, webhookEvents: string)
      ensures Username == username
      ensures Events == HookEvents(webhookEvents)
      ensures Repositories == []
      ensures Token == EmptyToken
    {
      Username := username;
      Token := EmptyToken;
      Repositories := [];
      Events := [];
      new;
      var eventList := Split(webhookEvents, ',');
      for i := 0 to |eventList|
        invariant |Events| == i
        invariant forall k :: 0 <= k < i ==> Events[k] == HookEvent(Category(eventList[k]), eventList[k])
        invariant Username == username && Repositories == [] && Token == EmptyToken
      {
        Events := Events + [HookEvent(Category(eventList[i]), eventList[i])];
      }
    }

    /**
     * The base-permission check over the white-space separated token
     * scopes: it fails, listing every required permission not granted in
     * declared order, iff that list is non-empty.
     */
    method CheckPermissions() returns (err: Option<ScopeError>)
      ensures err == None <==> AbsentPermissions(Fields(Token.Scopes)) == []
      ensures err != None ==> err == Some(PermissionsNotFound(AbsentPermissions(Fields(Token.Scopes))))
    {
      var scopes := Fields(Token.Scopes);
      var required := RequiredPermissions;
      var missing: seq<string> := [];
      for i := 0 to |required|
        invariant missing == Unmet(required[..i], scopes)
      {
        assert required[..i + 1][..i] == required[..i];
        if required[i] !in scopes {
          missing := missing + [required[i]];
        }
      }
      assert required[..|required|] == required;
      if |missing| > 0 {
        return Some(PermissionsNotFound(missing));
      }
      return None;
    }

    /**
     * The event-scope check over the single-space separated token scopes:
     * it fails, listing each unmet requirement once in order of the first
     * event that needs it, iff some requested event's requirement is unmet.
     */
    method CheckScopes() returns (err: Option<ScopeError>)
      ensures err == None <==> AbsentEventScopes(Events, Split(Token.Scopes, ' ')) == []
      ensures err != None ==> err == Some(EventScopesNotGranted(AbsentEventScopes(Events, Split(Token.Scopes, ' '))))
    {
      var scopeArray := Split(Token.Scopes, ' ');
      var missing: seq<string> := [];
      for i := 0 to |Events|
        invariant missing == Distinct(Triggers(Events[..i], scopeArray))
      {
        var val := Events[i];
        assert Triggers(Events[..i + 1], scopeArray)
          == Triggers(Events[..i], scopeArray) + [Requirement(val.Scope, scopeArray)];
        if val.Scope == "repo" && "repository:write" !in scopeArray && "repository:admin" !in scopeArray {
          if RepoRequirement !in missing {
            missing := missing + [RepoRequirement];
          }
        } else if val.Scope == "issue" && "issues:write" !in scopeArray {
          if "issues:write" !in missing {
            missing := missing + ["issues:write"];
          }
        } else if val.Scope == "pullrequest" && "pullrequest:write" !in scopeArray {
          if "pullrequest:write" !in missing {
            missing := missing + ["pullrequest:write"];
          }
        }
      }
      assert Events[..|Events|] == Events;
      if |missing| > 0 {
        return Some(EventScopesNotGranted(missing));
      }
      return None;
    }

    /**
     * GetRepositories as written: page 1 is fetched, its `size` gives the
     * page count n, and the loop `i := 2; i <= n` fetches again, always
     * asking for page 1. The field only grows: page 1's values are appended
     * once per fetch. `requested` lists the page number of each fetch.
     */
    method GetRepositories(fetch: int -> RepositoryPage) returns (ghost requested: seq<int>)
      modifies this`Repositories
      ensures |requested| == FetchCount(fetch(1).Size)
      ensures forall k :: 0 <= k < |requested| ==> requested[k] == 1
      ensures old(Repositories) <= Repositories
      ensures Repositories == old(Repositories) + Repeat(fetch(1).Values, |requested|)
    {
      var repos := fetch(1);
      requested := [1];
      var n := PageCount(repos.Size);
      Repositories := Repositories + repos.Values;
      var i := 2;
      while i <= n
        invariant 2 <= i <= FetchCount(fetch(1).Size) + 1
        invariant |requested| == i - 1
        invariant forall k :: 0 <= k < |requested| ==> requested[k] == 1
        invariant Repositories == old(Repositories) + Repeat(fetch(1).Values, i - 1)
      {
        repos := fetch(1);
        requested := requested + [1];
        Repositories := Repositories + repos.Values;
        i := i + 1;
      }
    }

    /**
     * GetRepositories with the loop requesting page i, as the enumeration
     * is meant to: the field gains pages 1 to size/100 + 1 in order, which
     * for an endpoint serving a listing is the whole listing
     * (PagedEnumerationComplete).
     */
    method GetAllRepositories(fetch: int -> RepositoryPage) returns (ghost requested: seq<int>)
      modifies this`Repositories
      ensures |requested| == FetchCount(fetch(1).Size)
      ensures forall k :: 0 <= k < |requested| ==> requested[k] == k + 1
      ensures old(Repositories) <= Repositories
      ensures Repositories == old(Repositories) + PagesUpTo(fetch, |requested|)
    {
      var repos := fetch(1);
      requested := [1];
      var n := PageCount(repos.Size);
      Repositories := Repositories + repos.Values;
      assert PagesUpTo(fetch, 1) == [] + fetch(1).Values;
      assert FetchCount(repos.Size) == if n >= 1 then n else 1;
      var i := 2;
      while i <= n
        invariant 2 <= i <= FetchCount(fetch(1).Size) + 1
        invariant |requested| == i - 1
        invariant forall k :: 0 <= k < |requested| ==> requested[k] == k + 1
        invariant Repositories == old(Repositories) + PagesUpTo(fetch, i - 1)
      {
        repos := fetch(i);
        requested := requested + [i];
        assert PagesUpTo(fetch, i) == PagesUpTo(fetch, i - 1) + fetch(i).Values;
        Repositories := Repositories + repos.Values;
        i := i + 1;
      }
    }
  }
}
