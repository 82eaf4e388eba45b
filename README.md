# bitbucket-bulk-webhooks: the provider's decision logic in Dafny

The tool adds the same webhook to every repository of a Bitbucket account.
Its provider object (`provider/bitbucket.go`) does the following:

- It parses the configured comma-separated event list into `HookEvent`
  records.
- It checks the OAuth token's scopes in two ways:
  - the four base permissions;
  - the scopes that the categories of the requested events need.
- It enumerates the account's repositories page by page into its
  `Repositories` field.
- It builds each repository's webhook collection URL.
- It builds the creation payload, with the description's `{REPO_NAME}`
  placeholder replaced by the repository name.
- It decides whether the target URL is already registered.

This project models that logic and proves what each piece computes. The
modules are:

- `Collections`: `Option`, duplicate-freedom, and the order-preserving
  de-duplication that `CheckScopes` performs.
- `GoStrings`: Go's `strings.Fields`, `strings.Split` with a one-character
  separator, `strings.Join`, and `strings.Replace` with count -1, written
  out over `seq<char>`.
- `Events`: the event-list parsing.
- `Scopes`: what the two checks report, stated as functions of the granted
  scopes, with their properties.
- `Pagination`: the repository and page records, the page count, and the
  listing endpoint abstracted as a function from page number to page.
- `Webhooks`: the URL, the payload, and the membership loop of the
  existence check.
- `Provider`: the `Bitbucket` class. Its fields are `Token`, `Events`,
  `Username` and `Repositories`. Its constructor runs the parsing loop, its
  two check methods run the validation loops, and its enumeration methods
  append to `Repositories`.
- `Scenarios`: the scope strings of the permission tests, one more
  base-permission case, and two event lists, run through the
  specifications.

The two checks split the token's scope string differently:

- `CheckPermissions` uses `strings.Fields`, which splits on any Unicode
  white space.
- `CheckScopes` uses `strings.Split(scopes, " ")`, which splits on single
  spaces only.

The model keeps both and proves that they agree on scope lists joined by
single spaces (`Scopes.ScopeParsersAgree`).

The page count follows the code: `size/100 + 1`, with Go's truncating
division. For a size of 0 or a positive multiple of 100 this is one more
than ceil(size/100), so page n, the last page the count covers, is
empty. The corrected `GetAllRepositories` fetches that page; the code as
written fetches page 1 again instead.

## Model

| member | source | states |
|---|---|---|
| Provider.Bitbucket.constructor | provider/bitbucket.go:102-110 | the event loop leaves one `HookEvent` per comma-separated entry, in order, with `Events == HookEvents(list)`; the other fields start empty |
| Events.Category | provider/bitbucket.go:107 | definition: the first piece of the entry split on ':'; its properties are in `Events.CategoryBeforeFirstColon` |
| Events.HookEvents | provider/bitbucket.go:102-110 | definition: one `HookEvent` per comma-separated entry; its properties are in `Events.HookEventsShape` and `Events.HookEventsOfJoin` |
| Events.CategoryBeforeFirstColon | provider/bitbucket.go:107 | an entry's category is a colon-free prefix of it, followed by ':' when the entry has one, and the whole entry otherwise |
| Events.HookEventsShape | provider/bitbucket.go:102-110 | one record per comma-separated entry (commas + 1), each with `Event` the entry and `Scope` its category; joining the events with ',' gives back the list |
| Events.HookEventsOfJoin | provider/bitbucket.go:102-110 | comma-free event names joined by ',' parse back to exactly those names, in order |
| Provider.Bitbucket.CheckPermissions | provider/bitbucket.go:144-159 | returns no error iff no required permission is missing from the white-space separated scopes; otherwise the error carries exactly that missing list |
| Scopes.AbsentPermissionsInDeclaredOrder | provider/bitbucket.go:146-153 | the missing list is `account:write`, `webhook`, `repository:write`, `project:write`, each present iff not granted, in that order |
| Scopes.AbsentPermissionsExactly | provider/bitbucket.go:146-156 | a permission is listed iff it is required and not granted; no duplicates; at most 4; empty iff all four are granted |
| Scopes.UnmetMembership | provider/bitbucket.go:149-153 | the filtering loop lists exactly the required entries that are not granted |
| Scopes.UnmetNoDuplicates | provider/bitbucket.go:149-153 | filtering a duplicate-free required list gives a duplicate-free result |
| Provider.Bitbucket.CheckScopes | provider/bitbucket.go:163-187 | returns no error iff no requested event's requirement is unmet under the space-split scopes; otherwise the error carries the de-duplicated missing list |
| Scopes.Requirement | provider/bitbucket.go:168-181 | definition: the else-if chain deciding what one event's category still needs; its properties are in `Scopes.EventScopeRules` and `Scopes.EventScopeBound` |
| Scopes.EventScopeMembership | provider/bitbucket.go:167-182 | an entry is reported iff some event's category requirement is that entry and is unmet |
| Scopes.EventScopeRules | provider/bitbucket.go:168-181 | `repo` events are reported iff neither `repository:write` nor `repository:admin` is granted; `issue` and `pullrequest` events iff their one scope is missing |
| Scopes.EventScopeBound | provider/bitbucket.go:166-182 | only the three requirement labels can be reported, each at most once, so at most three entries |
| Scopes.EventScopeOrder | provider/bitbucket.go:166-182 | each reported entry was triggered by an event, and entries appear in the order of their first triggering event |
| Scopes.OtherCategoriesIgnored | provider/bitbucket.go:167-182 | appending events of unchecked categories leaves the report unchanged |
| Scopes.PermissionsOfTokens | provider/bitbucket.go:144-159 | on a scope string of tokens separated by any white space, the permission check passes iff each of the four required permissions is one of the tokens |
| Scopes.ScopeParsersAgree | provider/bitbucket.go:145-165 | for non-empty white-space-free scopes joined by single spaces, `Fields` and `Split(' ')` both give back the scope list |
| Collections.DistinctMembership | provider/bitbucket.go:169-180 | the contains-then-append de-duplication keeps exactly the values that occur |
| Collections.DistinctNoDuplicates | provider/bitbucket.go:169-180 | the de-duplicated list has no duplicates |
| Collections.DistinctFirstOccurrenceOrder | provider/bitbucket.go:169-180 | kept values appear in order of their first occurrence |
| Pagination.PageCount | provider/bitbucket.go:214 | definition: `size/100 + 1` with Go's truncating division; its properties are in `Pagination.FetchCount` |
| Pagination.FetchCount | provider/bitbucket.go:214-217 | at least one fetch; for size >= 0 exactly size/100 + 1, whose pages of 100 cover `size`; exactly one fetch for every size below 100, negative sizes included (Go truncation) |
| Provider.Bitbucket.GetRepositories | provider/bitbucket.go:210-221 | as written: `FetchCount(size)` fetches, every one for page 1; the old contents stay a prefix, and page 1's values are appended once per fetch |
| Pagination.AsWrittenEnumeration | provider/bitbucket.go:217-219 | for an endpoint serving a listing, the as-written result equals the listing iff it has fewer than 100 entries, and is longer than the listing otherwise |
| Provider.Bitbucket.GetAllRepositories | provider/bitbucket.go:210-221 | with page i requested on turn i: fetches pages 1 to `FetchCount(size)` in order and appends their values after the old contents |
| Pagination.PagesOfListing | provider/bitbucket.go:215-219 | the values of pages 1 to k of a served listing are its first 100k entries, or all of it when it is shorter |
| Pagination.PagedEnumerationComplete | provider/bitbucket.go:210-221 | requesting pages 1 to size/100 + 1 of a served listing yields the whole listing, in order, with nothing repeated or dropped |
| Pagination.RepeatLength | provider/bitbucket.go:215-219 | appending the same page k times yields k times its length |
| Webhooks.GetWebHookUrl | provider/bitbucket.go:345-349 | definition: endpoint, full name, then "/hooks"; its properties are in `Webhooks.WebHookUrlDeterminesFullname` |
| Webhooks.WebHookUrlDeterminesFullname | provider/bitbucket.go:345-349 | the URL is the endpoint, then the full name, then "/hooks"; two URLs are equal iff the full names are |
| Webhooks.GetEventPayload | provider/bitbucket.go:327-343 | definition: the payload record with the substituted description, the target URL, the active flag and the comma-split event list; its properties are in `Webhooks.DescriptionSubstitution`, `Webhooks.DescriptionWithoutPlaceholder` and `Webhooks.PayloadEventsMatchHookEvents` |
| Webhooks.PlaceholderDoesNotOverlapItself | provider/bitbucket.go:329 | `{REPO_NAME}` cannot overlap itself, so its occurrences are well separated |
| Webhooks.DescriptionSubstitution | provider/bitbucket.go:329 | a template made of placeholder-free pieces around placeholders becomes those pieces joined by the name; inserted text is not substituted again |
| Webhooks.DescriptionWithoutPlaceholder | provider/bitbucket.go:329 | a template without the placeholder is used unchanged |
| Webhooks.PayloadEventsMatchHookEvents | provider/bitbucket.go:331-338 | the payload's event list holds the same names, in order, as the parsed `HookEvent` records, and joins back to the configured list |
| Webhooks.WebHookExists | provider/bitbucket.go:283-291 | true iff the target is in the list; the loop stops at the first match and has compared every URL when nothing matched |
| GoStrings.Fields | provider/bitbucket.go:145 | every field is non-empty and free of white space; the first field starts at the first character when that is not white space; that the fields are exactly the maximal runs is `GoStrings.FieldsOfInterleave` |
| GoStrings.FieldsOfInterleave | provider/bitbucket.go:145 | the fields are exactly the maximal non-white-space runs: words separated by non-empty runs of any white space, with optional white space at both ends, come back as the words |
| GoStrings.FieldsSkipsGap | provider/bitbucket.go:145 | leading white space of any kind and length produces no field |
| GoStrings.FieldsAfterWordGap | provider/bitbucket.go:145 | a non-empty white-space-free word followed by any white-space character is one field, followed by the fields of the rest |
| GoStrings.FieldsOfJoin | provider/bitbucket.go:145 | non-empty white-space-free words joined by single spaces split back into those words |
| GoStrings.FieldsOfWord | provider/bitbucket.go:145 | a non-empty word without white space is its own single field |
| GoStrings.FieldsAfterWord | provider/bitbucket.go:145 | a non-empty white-space-free word, a space and more text yield that word, then the fields of the rest |
| GoStrings.Split | provider/bitbucket.go:102 | at least one piece, and no piece contains the separator |
| GoStrings.JoinOfSplit | provider/bitbucket.go:102 | joining the pieces with the separator gives back the input |
| GoStrings.SplitOfJoin | provider/bitbucket.go:165 | separator-free parts joined by the separator split back into those parts |
| GoStrings.SplitLength | provider/bitbucket.go:102 | the number of pieces is the number of separators plus one |
| GoStrings.SplitAfterWord | provider/bitbucket.go:102 | a separator-free word followed by the separator yields that word, then the pieces of the rest |
| GoStrings.SplitFirstPiece | provider/bitbucket.go:107 | the first piece is a prefix that ends at the first separator, or is the whole input when there is none |
| GoStrings.Replace | provider/bitbucket.go:329 | definition: `strings.Replace` with count -1, non-overlapping occurrences from left to right; its properties are in `GoStrings.ReplaceOfJoin`, `GoStrings.ReplaceAbsent` and `GoStrings.ReplaceSkipsPrefix` |
| GoStrings.ReplaceOfJoin | provider/bitbucket.go:329 | for a pattern that cannot overlap itself, replacing it in pattern-free pieces joined by it gives the pieces joined by the replacement |
| GoStrings.ReplaceAbsent | provider/bitbucket.go:329 | replacing a pattern that does not occur leaves the string unchanged |
| GoStrings.ReplaceSkipsPrefix | provider/bitbucket.go:329 | when no occurrence of the pattern starts inside a prefix, the prefix is kept as it is, ahead of the replacement of what follows |
| Scenarios.FullScopesPass | provider/bitbucket_test.go:51-59 | the passing test's five scopes, joined by spaces, field-split back and satisfy all four permissions |
| Scenarios.PullRequestOnlyFails | provider/bitbucket_test.go:61-69 | the scope string `pullrequest` misses all four permissions, in declared order |
| Scenarios.AccountWriteOnlyFails | provider/bitbucket.go:146-156 | the scope string `account:write` misses the other three, in declared order |
| Scenarios.RepeatedRepoEventsReportedOnce | provider/bitbucket.go:167-181 | without repository scopes, `repo:push`, `repo:fork` and `pullrequest:created` report the repository entry once, then `pullrequest:write` |
| Scenarios.RepoPushWithBaseScopesPasses | provider/bitbucket.go:168-172 | with the four base scopes granted, a `repo:push` event reports nothing |

## Left out

- HTTP and JSON are not modelled. This covers `Authenticate`, the request and status handling of `getRepositoryPage`, `CheckWebHookExists` and `AddWebHook`, and `json.Marshal`/`Unmarshal`. Each page fetch is a parameter `fetch: int -> RepositoryPage`. The existence loop takes the URL list as a parameter.
- Environment reads are parameters: the username and event list of the constructor, the description, target URL, active flag and event list of `GetEventPayload`, and the `WEBHOOK_URL` read inside the `CheckWebHookExists` loop, which is the `target` parameter of `Webhooks.WebHookExists`. The `Sprintf`-built endpoint strings are left out.
- `strconv.ParseBool` for the active flag is left out; `active` is an input bool.
- `Webhooks.GetEventPayload` returns the payload record, not its JSON bytes.
- Provider.Bitbucket.GetRepositories: the fetch is a pure function, so two requests for page 1 return the same page. The live endpoint could answer differently between calls.
- The `ExistingWebHooks.urls` field is unexported, so JSON decoding would never fill it. The model only covers the membership decision over a supplied list.
- The error values carry the missing list. The message text that joins it is not modelled.
- `panic` paths in the request helpers are not modelled.
- The `Auth` and `RepoEndPoint` fields and `WebHooks.EventListEndPoint` hold configuration used only by the network calls, so the class leaves them out. `WebHooks.WebHookEndPoint` is read by `GetWebHookUrl`; the constructor always sets it to the same literal, so it becomes the module constant `Webhooks.WebHookEndPoint`.
- Strings are sequences of characters. Go's strings are UTF-8 bytes, and `strings.Fields` decodes them; invalid UTF-8 is not modelled.
- `ExpiresIn`, `Pagelen`, `Size` and `Page` are unbounded integers. Go's int64 range is not modelled, so overflow is not modelled either.
- main.go is not part of this model. It only sequences calls into the network methods and logs.

## Findings

| source | as written | input that shows it | evidently intended | confidence | as-written member | corrected member |
|---|---|---|---|---|---|---|
| provider/bitbucket.go:218 | every loop turn requests page 1 again | an account with 101 repositories: page 1 is fetched twice, so 200 repositories are listed, page 1's 100 twice, and the 101st is missing | turn i requests page i, so the enumeration lists every repository exactly once | not executed | Pagination.AsWrittenEnumeration | Provider.Bitbucket.GetAllRepositories |
