# Jira-Crawler: a Dafny model of its deterministic core

Jira-Crawler copies Jira tasks into the issues of a GitHub repository and its
board project. Most of the repository is glue around the Jira and GitHub
clients, and its per-task transformation (`Crawler._transform_issue`) is an
empty stub. This project models the logic that does exist and that does not
depend on a network answer:

- **`GitHubIssue`** (wrapper/github.py, `QlIssue`). An issue keeps a
  snapshot of its assignees and its closed flag, taken when it is built.
  `update()` turns the difference between that snapshot and the current
  fields into GitHub mutations. It always sends one update-issue input. It
  sends a remove-assignees call only if some snapshot user is gone, and an
  add-assignees call only if some current user is new. The add call carries
  the whole current list. `QlUser` has no equality of its own, so users are
  compared as objects. The model gives each user a `handle` that stands for
  object identity. Building an issue hands out the next unused handles and
  returns the counter for the next build.
- **`Pagination`** (wrapper/github.py, `Repository.get_issues`). This is the
  cursor loop. It asks for 100 issues at a time and appends each page. It
  stops once the running total is below 100, or a page has no edges. The
  server is modelled as the finite sequence of its responses.
- **`BridgeMapping`** (common.py). It checks a loaded configuration document
  and builds a table from Jira e-mail address to GitHub user id. It also
  looks users up in that table.
- **`Crawler`** (crawler.py). It splits `org/repo/project` and `user/token`
  on `/`, requiring an exact number of parts. It picks the Jira project by
  key. At the start of `crawl`, it picks the board project by title and the
  issue type titled "Task", and ends the pass early if either is missing.
- **`Text`** models Python's `str.split` and `str.join` with an explicit
  separator, and proves they are inverse. **`Outcomes`** holds the
  `Option`/`Result` types used for `None` and for raised exceptions.

The count test looks as if it would drop the last block of a collection
whose size is a multiple of 100. It does not. Once 100 issues are gathered,
the total test can no longer fire, so the loop runs until a page comes back without edges. Against a
well-behaved server this returns the whole collection, at the cost of one
extra, empty request (`Pagination.GetIssuesComplete`,
`Pagination.ExactMultipleNotTruncated`). There, the server is modelled as
GitHub's answer to each cursor (`Pagination.Answer`). The loop is shown to
walk the collection block by block because it sends the right cursors.

crawler.py imports its GitHub client from graphql_wrapper.py, but that
module's `Repository` has no `get_issue_types` or `get_issues`. The model of
`crawl` uses the methods of the same names from wrapper/github.py. Line 1 of
crawler.py also imports `GitHubGraphQlClient` and `IssueType` from
graphql_wrapper.py. That module defines `GithubGraphQlClient`, with a
lower-case `h` (graphql_wrapper.py:72), and no `IssueType`. So crawler.py
fails at import as written. The model describes what the constructor and
`crawl` would do once their names resolve.

## Model

| member | source | states |
|---|---|---|
| Text.Split | crawler.py:59 | `str.split('/')` gives one more part than there are separators, no part contains the separator, and joining the parts with the separator gives back the input |
| Text.SplitJoin | crawler.py:59-71 | splitting the join of a non-empty list of separator-free parts gives back that list, so the split is the only such decomposition |
| GitHubIssue.MakeUsers | wrapper/github.py:87-92 | one user object is built per assignee node, in order, carrying the node's id and login, and the i-th gets identity firstHandle + i |
| GitHubIssue.FromRaw | wrapper/github.py:83-103 | a built issue copies the response fields, and its assignee snapshot and closed snapshot equal the current values; the i-th user gets identity firstHandle + i, so the users are pairwise distinct objects, and the identity counter returned moves past them |
| GitHubIssue.BuiltUsersAreNew | wrapper/github.py:87-92 | when every user already in existence has an identity below the counter, none of the users of a newly built issue is one of them |
| GitHubIssue.SuccessiveBuildsShareNoUser | wrapper/github.py:87-92 | two issues built one after the other, passing the counter on, share no user object, even for the same accounts |
| GitHubIssue.MovedAssigneesAreChanges | wrapper/github.py:87-170 | moving the assignees of one built issue onto another that was built after it sends an update, a removal and an addition, because the objects differ |
| GitHubIssue.CreatedIssueHasNoAssignees | wrapper/github.py:86-92 | a response with no `assignees` entry, or no `nodes` in it, yields no assignees and an empty snapshot, and uses up no identity |
| GitHubIssue.MadeUsersDistinct | wrapper/github.py:87-92 | users built from one response are pairwise different objects, even when two nodes have the same id |
| GitHubIssue.Without | wrapper/github.py:133-138 | a user is kept exactly when it is in the first list and not in the second |
| GitHubIssue.WithoutMultiplicity | wrapper/github.py:133-138 | a kept user appears as many times as in the first list; a dropped user does not appear at all |
| GitHubIssue.WithoutKeepsOrder | wrapper/github.py:133-138 | the kept users appear in the order of the first list |
| GitHubIssue.WithoutEmpty | wrapper/github.py:140 | the filtered list is non-empty exactly when some user of the first list is missing from the second |
| GitHubIssue.EmittedWhenNonEmpty | wrapper/github.py:132-160 | the removed-id list is non-empty iff some snapshot user is no longer assigned; the added-id list is non-empty iff some assigned user is not in the snapshot |
| GitHubIssue.StateChange | wrapper/github.py:121-122 | a state is sent only when the closed flag differs from the snapshot, and it is CLOSED exactly when the issue is closed |
| GitHubIssue.Update | wrapper/github.py:114-170 | 1 to 3 mutations; the first is the update input with id, title and body; a remove call (second) exactly when some snapshot user left, with the ids of the users who left; an add call (last) exactly when some user is new, with the ids of all current assignees; no later call is an update input |
| GitHubIssue.AssigneeCallsNonEmpty | wrapper/github.py:140-170 | neither assignee call ever carries an empty id list |
| GitHubIssue.UnmodifiedSendsOnlyUpdate | wrapper/github.py:114-170 | if assignees and closed flag equal the snapshot, exactly one update input without a state is sent |
| GitHubIssue.FreshIssueSendsOnlyUpdate | wrapper/github.py:83-170 | updating a just-built issue, whatever its new title and body, sends exactly one update input without a state |
| GitHubIssue.ReassignSendsRemoveThenAdd | wrapper/github.py:132-170 | replacing the sole assignee A by a user B with a different identity sends the update, then remove [A], then add [B] |
| GitHubIssue.RefetchedUserIsReassigned | wrapper/github.py:132-170 | replacing an assignee by another object for the same account still sends a removal and an addition of that id, because membership is object identity |
| GitHubIssue.AddPayloadIsWholeList | wrapper/github.py:160-170 | when an add call is sent, every current assignee's id is in it, kept users included |
| GitHubIssue.RemovePayloadIsDroppedUsers | wrapper/github.py:132-150 | an id is in the remove call iff some snapshot user with that id is no longer assigned |
| Pagination.Loop | wrapper/github.py:279-321 | from any iteration on, the loop ends iff some later response meets the exit test; it ends at the first such response, with the nodes of all responses so far and requests that follow the last edge cursors |
| Pagination.GetIssues | wrapper/github.py:275-323 | the result is the concatenation of the nodes of the responses up to the first one that meets the exit test; the first request has no cursor, and each later one uses the last edge cursor of the previous response |
| Pagination.ShortFirstPageStops | wrapper/github.py:318-319 | a first page with fewer than 100 nodes or no edges ends the loop after one request, and its nodes are the result |
| Pagination.FetchedGrows | wrapper/github.py:311-314 | the number of gathered issues never decreases from one response to the next |
| Pagination.OnceFullOnlyEmptyEdgesStop | wrapper/github.py:318-319 | once 100 issues have been gathered, a response ends the loop iff it has no edges |
| Pagination.IndexOf | wrapper/github.py:284-287 | the server resolves an `after` cursor to the position of the first edge that carries it, or to nothing iff no edge carries it |
| Pagination.ServedBlocks | wrapper/github.py:284-321 | against a server that answers each cursor with the up-to-100 edges after it, with distinct cursors, response i is the i-th block of 100 as long as the blocks before it are non-empty |
| Pagination.FetchedIsPrefix | wrapper/github.py:284-314 | against such a server, the first k responses hold the first 100·k issues |
| Pagination.StopsAtServed | wrapper/github.py:316-319 | against such a server, the loop stops after response k iff the collection has fewer than 100 issues or 100·k reaches its size |
| Pagination.GetIssuesComplete | wrapper/github.py:275-323 | against such a server the loop returns the whole collection; for 100 issues or more it sends ⌈size/100⌉ + 1 requests |
| Pagination.ExactMultipleNotTruncated | wrapper/github.py:316-321 | exactly 100·m issues (m ≥ 1) are all returned, using m + 1 requests |
| BridgeMapping.DictItems | common.py:10-17 | the items of a parsed JSON object are the written items whose key is not written again later, so each key keeps its last value |
| BridgeMapping.DictItemsLookup | common.py:10-17 | looking a key up among the parsed items gives the same answer as among the written items |
| BridgeMapping.DictItemsStringPairs | common.py:10-19 | the parsed items are all string pairs iff every written item not overridden later is |
| BridgeMapping.OverriddenItemIgnored | common.py:10-21 | a `mapping` whose first `a@x` item has a number and whose second has a string is accepted, with the string |
| BridgeMapping.Lookup | common.py:14 | a dict lookup finds nothing iff no item has the key, and otherwise returns the value of the last item with that key |
| BridgeMapping.BuildTable | common.py:17-21 | the items are accepted iff every key and every value is a string, and a rejection is the non-string error with no partial table |
| BridgeMapping.BuildTableContents | common.py:12-21 | the built table holds exactly the configured keys, each with the value of its last item |
| BridgeMapping.Load | common.py:12-21 | a document is accepted iff it is a dict whose `mapping` entry is a dict whose items, after later duplicates override earlier ones, are all strings; a `mapping` item that is not a string pair, and is not overridden later, is the non-string error; a missing or non-dict `mapping` is the missing-mapping error; a number, boolean or null document is the not-a-dict error; a list or string document is always rejected, with the missing-mapping error when it does not contain `"mapping"` |
| BridgeMapping.LoadedTableIsConfigured | common.py:12-21 | after loading, e-mail maps to id iff the last `mapping` item for that e-mail has that id |
| BridgeMapping.Resolve | common.py:23-27 | an e-mail absent from the table resolves to nothing; a present one resolves to the id stored under it |
| BridgeMapping.ResolveAfterLoad | common.py:17-27 | after loading, a user resolves to id iff the last `mapping` item for their e-mail stores id, and to nothing iff their e-mail is not configured |
| Crawler.ParseTarget | crawler.py:59-71 | accepted iff the string has exactly two `/`, otherwise the format error; the parts are organisation, repository, project in order, have no `/`, may be empty, and joined with `/` give back the input |
| Crawler.TargetRoundTrip | crawler.py:59-71 | every target whose parts have no `/` parses back from `org/repo/project` |
| Crawler.ParseJiraToken | crawler.py:79-84 | accepted iff the string has exactly one `/`, otherwise the format error; the parts are user and secret in order, and joined with `/` give back the input |
| Crawler.CredentialsRoundTrip | crawler.py:79-84 | every credential whose parts have no `/` parses back from `user/secret` |
| Crawler.FirstMatch | crawler.py:98-101 | returns the index of the first equal name, or nothing iff no name is equal |
| Crawler.SelectJiraProject | crawler.py:96-104 | returns the first project whose key is the requested id, or the not-found error naming the id iff no project has that key |
| Crawler.Init | crawler.py:47-104 | a bad target string fails first, then a bad token, then a missing project, which is the not-found error naming the key; it succeeds iff all three are well-formed or found, and then keeps the parsed target, the parsed credentials and the first project with the requested key |
| Crawler.Crawl | crawler.py:109-147 | the board project is the first with the configured title and the issue type the first titled "Task"; a missing board project ends the pass before the issue types are fetched, and a missing task type ends it before the issues are fetched; the issues are listed only when both are found; the calls are exactly, in order, the repository, the board projects, then (board found) the issue types, then (task type found) the Jira task search and the issue listing |

## Left out

- main.py: reads environment variables and exits the process; bootstrap only.
- hosting.py: the webhook server, TLS set-up and worker hand-off; networking and concurrency.
- graphql_wrapper.py: a thin, superseded wrapper over the generated GraphQL client, with no logic of its own.
- wrapper/jira.py: property accessors over the `jira` library; foreign calls. Only the e-mail address of a Jira user is modelled, as the input of `BridgeMapping.Resolve`.
- The GraphQL query and mutation builders, `trio` and async execution, and network responses. Pages and mutations are abstract values; the answers of `get_projects`, `get_issue_types`, `projects()` and the issue listing are parameters.
- `QlIssue.delete` and `Repository.create_issue`: each is a single foreign mutation with no logic. The payload of `create_issue` has no `assignees` entry, which `GitHubIssue.CreatedIssueHasNoAssignees` covers.
- A GraphQL response whose `assignees` is `null`: the constructor raises `AttributeError` there. GitHub does not send it, and the model has no such value.
- Other `null`s in a response. `nodes: null` inside `assignees` makes `map` raise `TypeError` (wrapper/github.py:88-90). A `null` issue `nodes` list does the same in the listing (wrapper/github.py:311-313). A `null` `edges` list makes the loop exit (wrapper/github.py:318). GitHub sends lists there, so pages model `nodes` and `edges` as sequences.
- GitHubIssue.MakeUsers: a user is a new object only relative to identities below `firstHandle`. Python's allocator promises this for every new object. Here it holds only if callers pass on `Built.next` from one build to the next (`GitHubIssue.BuiltUsersAreNew`).
- The remote user resolution in `BridgeMapping.map` (common.py:28-31): `get_user` is async and not awaited, and the method falls off the end without returning. Only the table lookup up to line 27 is modelled.
- Reading the configuration file and tokenising its text: the model starts from the document as written, as values. The one rule of `json.load` that matters here is that a later duplicate key wins, and `BridgeMapping.DictItems` models it. JSON floats become `VInt`, which gets the same treatment since neither is a string.
- Pagination.GetIssues: the source loop has no bound and keeps asking as long as the server answers. The model answers `None` when the loop would need more responses than the given sequence holds.
- The GitHub REST organisation and repository lookups, Jira authentication and `server_info` in `Crawler.__init__`: foreign calls, assumed to succeed. The remote errors they may raise between the target check and the token check are not modelled.
- The Jira task search in `crawl` and the per-task loop. `_transform_issue` is an empty stub (crawler.py:106-107), so the loop changes nothing. The reconciliation engine it stands for is not implemented in the source.
- Logging (`loguru`) everywhere.
