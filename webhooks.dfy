/**
 * What the provider builds for one repository before it talks to the
 * webhook endpoint: the webhook collection URL, the creation payload
 * (description template with the repository name substituted), and the
 * decision whether the target URL is already registered.
 */
module Webhooks {
  import opened GoStrings
  import opened Events
  import opened Pagination

  /** The `WebHookEndPoint` the provider is constructed with. */
  const WebHookEndPoint: string := "https://api.bitbucket.org/2.0/repositories/"

  /** The placeholder substituted by the repository name in the description. */
  const Placeholder: string := "{REPO_NAME}"

  datatype WebhookPayload = WebhookPayload(Description: string, URL: string, Active: bool, Events: seq<string>)

  /** The repository's webhook collection: endpoint, full name, then "/hooks". */
  function GetWebHookUrl(r: Repository): string {
    WebHookEndPoint + r.Fullname + "/" + "hooks"
  }

  /**
   * The URL has the endpoint as prefix and "/hooks" as suffix, and the
   * full name between them, so different full names never share a webhook
   * collection.
   */
  lemma WebHookUrlDeterminesFullname(a: Repository, b: Repository)
    ensures WebHookEndPoint <= GetWebHookUrl(a)
    ensures GetWebHookUrl(a)[|WebHookEndPoint|..|GetWebHookUrl(a)| - 6] == a.Fullname
    ensures GetWebHookUrl(a)[|GetWebHookUrl(a)| - 6..] == "/hooks"
    ensures GetWebHookUrl(a) == GetWebHookUrl(b) <==> a.Fullname == b.Fullname
  {
    var u := GetWebHookUrl(a);
    assert u == WebHookEndPoint + (a.Fullname + "/hooks");
    assert u[|WebHookEndPoint|..] == a.Fullname + "/hooks";
    assert u[|WebHookEndPoint|..][..|a.Fullname|] == a.Fullname;
    var v := GetWebHookUrl(b);
    assert v == WebHookEndPoint + (b.Fullname + "/hooks");
    assert v[|WebHookEndPoint|..][..|b.Fullname|] == b.Fullname;
  }

  /**
   * The creation payload for `r`. The description template, target URL,
   * active flag and raw event list are the configured values.
   */
  function GetEventPayload(r: Repository, description: string, url: string, active: bool, events: string): WebhookPayload {
    WebhookPayload(Replace(description, Placeholder, r.Name), url, active, Split(events, ','))
  }

  lemma PlaceholderDoesNotOverlapItself()
    ensures Placeholder != [] && Placeholder[0] !in Placeholder[1..]
  {
    assert Placeholder[1..] == "REPO_NAME}";
  }

  /**
   * With the template written as pieces around its placeholders, the
   * description is those pieces joined by the repository name: every
   * placeholder is replaced once, left to right, and a name that itself
   * contains the placeholder is not substituted again.
   */
  lemma DescriptionSubstitution(r: Repository, pieces: seq<string>, url: string, active: bool, events: string)
    requires |pieces| >= 1
    requires forall q :: q in pieces ==> !Contains(q, Placeholder)
    ensures GetEventPayload(r, Join(pieces, Placeholder), url, active, events).Description == Join(pieces, r.Name)
  {
    PlaceholderDoesNotOverlapItself();
    ReplaceOfJoin(pieces, Placeholder, r.Name);
  }

  /** A template without the placeholder is used as the description unchanged. */
  lemma DescriptionWithoutPlaceholder(r: Repository, description: string, url: string, active: bool, events: string)
    requires !Contains(description, Placeholder)
    ensures GetEventPayload(r, description, url, active, events).Description == description
  {
    ReplaceAbsent(description, Placeholder, r.Name);
  }

  /**
   * The payload lists the same events, in the same order, as the HookEvent
   * records built from the same configured list.
   */
  lemma PayloadEventsMatchHookEvents(r: Repository, description: string, url: string, active: bool, events: string)
    ensures GetEventPayload(r, description, url, active, events).Events == EventNames(HookEvents(events))
    ensures Join(GetEventPayload(r, description, url, active, events).Events, ",") == events
  {
    HookEventsShape(events);
  }

  /**
   * The membership loop of the existence check: true iff `target` is one
   * of the registered URLs. The loop stops at the first match; `examined`
   * counts the URLs it compared.
   */
  method WebHookExists(urls: seq<string>, target: string) returns (found: bool, ghost examined: nat)
    ensures found <==> target in urls
    ensures examined <= |urls|
    ensures found ==> examined >= 1 && urls[examined - 1] == target && target !in urls[..examined - 1]
    ensures !found ==> examined == |urls|
  {
    found := false;
    examined := 0;
    var i := 0;
    while i < |urls|
      invariant 0 <= i <= |urls|
      invariant examined == i
      invariant target !in urls[..i]
    {
      examined := examined + 1;
      if urls[i] == target {
        found := true;
        break;
      }
      assert urls[..i + 1] == urls[..i] + [urls[i]];
      i := i + 1;
    }
    assert !found ==> urls[..i] == urls;
  }
}
