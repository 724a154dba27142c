# Graphs101 friendship pipeline, modelled in Dafny

Graphs101 is a single-page React application (`src/App.tsx`). It fetches five
random identity records and makes each one a person. Every person draws up to
three random friends. The friendship relation is then made symmetric, and every
person receives copies of its friends. The app builds a directed graph from the
friend lists (the `graph-data-structure` package) and a list of cytoscape
elements for display. For every friend-of-friend it asks the graph for a
shortest path and records how many people lie in between. A profile dialog
offers images built from five random one-character strings. The selected user
picks one, and its address (`https://robohash.org/<character>?set=set4`, built
in `src/dialog.tsx`) is written into the user objects in place. The model takes
that address as an arbitrary string.

The model follows the component's own structure:

| file | module | what it holds |
|---|---|---|
| `model.dfy` | `Model` | records (raw record, person, user, pair, path record), `findIndex`, the friend-id projection |
| `normalize.dfy` | `Normalize` | the mapping of fetched records to persons and the display name |
| `sampling.dfy` | `Sampling` | `generateUsers` and the sampling loop, with the random choices as arguments |
| `mutual.dfy` | `Mutual` | `addMutualFriends`: reverse copies, self-pair filter, `_.uniqWith` |
| `enrich.dfy` | `Enrich` | the `finalUsers` map: friend copies per person |
| `graph.dfy` | `GraphLib` | the graph object as the app uses it: insertion-ordered nodes, successor lists, shortest path |
| `scene.dfy` | `Scene` | `addNodesAndEdges` and `addEdgesToVisualization` over in-place arrays |
| `paths.dfy` | `Paths` | `findShortestPath` and the properties of its records |
| `app.dfy` | `AppState` | the component state as a class: refresh (`getUsers`), `openDialog`, `closeDialog`, `changeProfileImage`, `generateAvatarsToChangeProfile` |

State the source changes in place is modelled with classes:
- the graph object (`GraphLib.Graph`);
- the render's `nodes` array and the element arrays (`Scene.JsArray`);
- the user objects whose avatar `changeProfileImage` assigns (`AppState.UserObj`);
- the component state (`AppState.App`).

The pure steps are functions. That includes the maps and filters of the source
(normalisation, `generateUsers`, the `finalUsers` map, the filter and
`_.uniqWith` of `addMutualFriends`). Every loop that changes state in place is
a method with loop invariants, proved against those functions.

Random choices enter as arguments. The arguments are:
- the per-person count of `Math.floor(Math.random() * 4)`;
- the positions `_.sampleSize` picks, any `min(k, n)` distinct positions;
- the five avatar draws.

The fetched records are an argument too.

### Behaviour of the code worth knowing

- **Symmetrising does not inflate the list.** `addMutualFriends` pushes the
  reverses onto the array it is mapping over. `Array.prototype.map` fixes the
  visited range before the first call, so exactly one reverse per original pair
  is added, and the result equals iterating over a snapshot.
- **No path throws.** When the package finds no path, `graph.shortestPath`
  throws. The refresh stops there and keeps the records pushed so far.
  `RefreshCompletes` shows this never happens on a freshly built graph when the
  fetched ids and the display names are both unique.
- **A missing friend throws too.** A pair whose friend is unlisted makes
  `finalUsers[friendIndex].friends` throw rather than be skipped. The refresh
  never produces such a pair (`FinalUsers` proves `FriendsFound`), and
  `FindShortestPath` requires it.
- **Direct friends get records.** A friend of a friend who is also a direct
  friend is asked for, and the record counts 0. The display filters
  `shortestPath > 0` (`src/App.tsx:691`).
- **Intermediate nodes are found by name.** The count is the length of the path
  with every entry equal to either endpoint removed.
- **A run with no records keeps the old ones.** The records state is set only on
  a push (line 204), so such a refresh leaves the previous records in place.
- **The graph is keyed by display name.** It is directed: edges follow the
  friend lists.
- **The graph and node list survive a refresh within a render.** They are
  created per render (lines 33-34), so a second refresh in the same render keeps
  the names and edges it already holds. `Refresh` takes them as parameters;
  `RefreshCompletes` is about fresh ones.

## Model

| member | source | states |
|---|---|---|
| Model.IndexOf | src/App.tsx:180-184 | `findIndex` by equality: the result is -1 exactly when the value is absent, otherwise a position holding it with no earlier occurrence |
| Model.IndexOfDistinct | src/App.tsx:99 | in a list without repeats, looking up the element at position `i` returns `i` |
| Model.FriendIdsOfAppend | src/App.tsx:293-309 | the friend ids kept for one user from two concatenated pair lists are those of each list, in order |
| Model.FriendIdsOfMember | src/App.tsx:293-309 | a friend id is kept for a user exactly when that pair is present |
| Model.FriendIdsOfDistinct | src/App.tsx:293-309 | a pair list without repeats keeps no friend id twice for any user |
| Normalize.DisplayName | src/App.tsx:259 | the name is the first name, one space, then the last name, at those positions |
| Normalize.NameRoundTrip | src/App.tsx:259 | splitting the display name at its first space gives back the first and last names when the first name has no space |
| Normalize.Normalize | src/App.tsx:255-264 | one person per record in order, with id, uid, avatar and email carried over, the display name and the shared cover asset |
| Sampling.GenerateUsers | src/App.tsx:112-128 | `min(k, n)` copies of listed persons, each with the shared cover; with unique ids the copies have distinct ids |
| Sampling.SampleRelations | src/App.tsx:269-282 | the pushed pairs are the pairs of each person towards its generated friends, person by person in list order, and join listed persons |
| Sampling.Sampled | src/App.tsx:269-282 | every pair issued by the sampling joins two listed persons |
| Sampling.PairsFriendIds | src/App.tsx:276-281 | the pairs pushed for one person carry exactly its generated friends' ids as friend ids, and none for anyone else |
| Sampling.SampledBlock | src/App.tsx:269-282 | with unique ids, the friend ids issued by person `i` are exactly the ids of its generated friends, in draw order |
| Sampling.SampledPerPerson | src/App.tsx:270-281 | per person: between none and `min(3, n)` pairs, towards distinct listed persons (itself possible) |
| Mutual.Mirror | src/App.tsx:131-136 | one reverse per pair, in order; a pair is among them exactly when its reverse is among the input |
| Mutual.DropSelf | src/App.tsx:139 | keeps exactly the pairs whose two ids differ, never lengthening the list |
| Mutual.Dedup | src/App.tsx:142 | `_.uniqWith` with deep equality: the same members as the input and no repeats |
| Mutual.AddMutualFriends | src/App.tsx:130-143 | the result is the symmetric relation: symmetric, with no self-pair and no repeat, and holding exactly the non-self pairs present in the input or reversed in it |
| Mutual.Symmetrize | src/App.tsx:130-143 | the symmetric relation has no repeats and holds a pair exactly when it or its reverse was sampled and its two ids differ |
| Mutual.SymmetrizeSound | src/App.tsx:130-143 | the symmetric relation is closed under reversal, irreflexive and repeat-free, and its members are the input's non-self pairs and their reverses |
| Mutual.DropSelfIrreflexive | src/App.tsx:139 | the self-pair filter changes nothing on a list without self-pairs |
| Mutual.DedupDistinct | src/App.tsx:142 | a list without repeats is its own first-occurrence list |
| Mutual.DedupAbsorbs | src/App.tsx:142 | appending values already present leaves the first-occurrence list unchanged |
| Mutual.SymmetrizeIdempotent | src/App.tsx:130-143 | symmetrising a symmetric relation returns the identical list |
| Mutual.DedupFirstOccurrence | src/App.tsx:142 | the first-occurrence list is ordered by where each value first occurs in the input |
| Mutual.DropSelfKeepsOrder | src/App.tsx:139 | the self-pair filter keeps the relative order of first occurrences |
| Mutual.SymmetrizeOrder | src/App.tsx:130-143 | the symmetric relation lists pairs in the order of their first occurrence among the sampled pairs followed by their reverses |
| Enrich.Lookup | src/App.tsx:296-306 | the friend copy is a listed person with the requested id |
| Enrich.FriendsOf | src/App.tsx:293-309 | one copy of a listed person per pair the user issues, in pair order; the copies' ids are the pairs' friend ids |
| Enrich.Enrich | src/App.tsx:286-310 | one user per person in order, with that person's profile, and friend ids equal to the ids of the pairs it issues |
| Enrich.EnrichIds | src/App.tsx:286-292 | the users' ids and names are the persons' ids and names, in order |
| Enrich.FriendsOfMember | src/App.tsx:293-309 | with unique ids, a listed person is a friend of `id` exactly when the pair is present |
| Enrich.EnrichMutual | src/App.tsx:284-310 | over the symmetric relation friendship is mutual: `q` is a friend of `p` exactly when `p` is a friend of `q` |
| Enrich.EnrichNoSelf | src/App.tsx:284-310 | over an irreflexive relation with unique ids nobody is its own friend |
| Enrich.EnrichNoRepeats | src/App.tsx:284-310 | over a relation without repeats no friend copy appears twice |
| Enrich.PairGivesFriend | src/App.tsx:294-306 | the person a pair points at is among the issuer's friend copies |
| GraphLib.WithNode | src/App.tsx:95 | `addNode`: a new name is appended with no successors; a present name changes nothing; well-formedness is kept |
| GraphLib.WithEdge | src/App.tsx:103 | `addEdge` between present nodes appends the target to the source's successors and changes nothing else |
| GraphLib.Graph.constructor | src/App.tsx:33 | `new Graph()` holds no node |
| GraphLib.Graph.AddNode | src/App.tsx:95 | the graph object's state becomes the state with the node added |
| GraphLib.Graph.AddEdge | src/App.tsx:103 | the graph object's state becomes the state with the edge added |
| GraphLib.Graph.Nodes | src/App.tsx:98 | `graph.nodes()` on a well-formed graph lists every node exactly once |
| GraphLib.Graph.ShortestPath | src/App.tsx:190-193 | `graph.shortestPath(a, b)` throws when either node is missing; an answer starts at `a` and ends at `b` |
| GraphLib.WalkSound | src/App.tsx:190-193 | a depth-bounded search result is a walk along successor lists within the bound |
| GraphLib.WalkComplete | src/App.tsx:190-193 | the depth-bounded search finds a walk whenever one within the bound exists |
| GraphLib.DeepenSound | src/App.tsx:190-193 | iterative deepening returns a walk no longer than any other walk |
| GraphLib.Shortest | src/App.tsx:190-193 | the query throws for a missing node, and an answer is a path starting at `a` and ending at `b` |
| GraphLib.ShortestPathSound | src/App.tsx:190-193 | `shortestPath(a, b)`, when it answers, returns a walk from `a` to `b` that no other walk undercuts |
| GraphLib.Shorten | src/App.tsx:190-193 | on a well-formed graph a walk to a present node shortens to one with at most one node per graph node |
| GraphLib.ShortestPathComplete | src/App.tsx:190-193 | on a well-formed graph, between present nodes joined by any walk, `shortestPath` answers |
| GraphLib.Without | src/App.tsx:198-201 | the filter keeps exactly the path entries that are neither endpoint |
| GraphLib.TwoHop | src/App.tsx:190-201 | when `a` reaches `b` through a successor, `shortestPath(a, b)` answers, with 0 intermediate nodes if `b` is a successor of `a` and exactly 1 otherwise |
| Scene.JsArray.constructor | src/App.tsx:86 | a new array is empty |
| Scene.JsArray.Push | src/App.tsx:83 | `push` appends the value to the array's contents |
| Scene.AddNodesAndEdges | src/App.tsx:81-110 | the users' names are appended to the shared node list; one node element per node-list entry is returned in a fresh array; the graph becomes the fold of `addNode` over all of them followed by the edge pass |
| Scene.Built | src/App.tsx:81-110 | `addNodesAndEdges` keeps the graph well formed and leaves every prior node, node-list name and user name a node |
| Scene.AddNamesKeeps | src/App.tsx:88-96 | adding nodes keeps the graph well formed, and the nodes afterwards are the earlier ones and the added names |
| Scene.AddEdgesKeeps | src/App.tsx:102-104 | adding edges keeps the graph well formed and removes no node |
| Scene.LinkKeeps | src/App.tsx:98-107 | the edge pass keeps the graph well formed and removes no node |
| Scene.LinkUsers | src/App.tsx:98-107 | the edge pass: for each graph node in insertion order, the first user of that name adds an edge to each friend's name in friend order |
| Scene.AddNamesFresh | src/App.tsx:88-96 | adding distinct names to an empty graph lists them in order, each with no successors |
| Scene.AddEdgesListed | src/App.tsx:102-104 | adding edges between present nodes appends the targets to the source's successor list, in order |
| Scene.LinkFresh | src/App.tsx:98-107 | after the edge pass over the first `i` users, those users' successors are their friends' names and the others have none |
| Scene.FreshGraph | src/App.tsx:81-110 | on an empty graph and node list, with unique names and friends that are users, the nodes are the user names in order and each user's successors are its friends' names in friend order |
| Scene.DecimalRoundTrip | src/App.tsx:228 | the decimal digits of an edge index read back as that index |
| Scene.EdgeIdInjective | src/App.tsx:228 | different pair positions give different edge ids `e<index>` |
| Scene.AddEdgesToVisualization | src/App.tsx:212-236 | the same array is returned, extended by one edge element per pair in pair order, with id `e<index>` and the two users' names as endpoints |
| Scene.EdgeElementsSound | src/App.tsx:219-233 | the edge ids are pairwise distinct and every edge joins two node elements of the users |
| Paths.FindShortestPath | src/App.tsx:176-210 | the pushed records and whether the run finished are those of answering, in order, every question of every pair, stopping at the first path the package cannot find |
| Paths.AskFriends | src/App.tsx:186-206 | the inner loop answers the questions for the friends of the pair's friend, skipping the issuer, and extends the records accordingly |
| Paths.AskStep | src/App.tsx:186-205 | one friend of the inner loop: the issuer itself is skipped; otherwise a missing path throws and an answer pushes its record after the earlier ones |
| Paths.QueriesAppend | src/App.tsx:179-209 | the questions of two concatenated pair lists are those of each, in order |
| Paths.Queries | src/App.tsx:179-206 | every question of the run starts at a listed user |
| Paths.Answer | src/App.tsx:186-206 | the records answer, one each and in order, the questions before the first one without a path; the run completes exactly when there is a record for every question |
| Paths.AnswerStuck | src/App.tsx:190-204 | once a question goes unanswered, later questions add no record |
| Paths.QueriesStop | src/App.tsx:179-209 | a throw for pair `i` ends the run: its result is that of the pairs up to `i` |
| Paths.AnswerAll | src/App.tsx:190-204 | when every question has a path the run completes with one record per question, in order |
| Paths.ReceiversMember | src/App.tsx:186-188 | a question is asked for a friend list exactly when some friend other than the issuer is its receiver |
| Paths.QueriesMember | src/App.tsx:179-206 | the questions are exactly: for a pair with a listed issuer and friend, from the issuer to each friend of its friend other than the issuer |
| Paths.PairEnriched | src/App.tsx:286-310 | after enrichment with unique ids and names, a pair's friend is among the issuer's friends, and no friend of that friend other than the issuer bears the issuer's name |
| Paths.GraphEdges | src/App.tsx:98-107 | on the freshly built graph a user's successors are its friends' names, and every friend is a node |
| Paths.QueryEdges | src/App.tsx:186-193 | on the freshly built graph the two ends of every question are different nodes joined through the pair's friend |
| Paths.QueryHops | src/App.tsx:186-201 | every question on the freshly built graph is answered, never from a user to itself, with count 0 when the receiver is a friend of the issuer and 1 otherwise |
| Paths.PathRecords | src/App.tsx:176-210 | with unique ids and names, the run completes with one record per question, in order; no record runs from a user to itself; every count is 0 or 1 as above |
| AppState.UserObj.constructor | src/App.tsx:312 | a user object of the state holds exactly the enriched user's fields |
| AppState.Relations | src/App.tsx:267-284 | the symmetric relation of a refresh joins listed persons only |
| AppState.FinalUsers | src/App.tsx:286-310 | the users of a refresh have the persons' ids and names, and every pair joins two of them |
| AppState.GenerateAvatars | src/App.tsx:238-248 | five one-character strings, the drawn characters of the 62-character alphabet, in draw order |
| AppState.WithAvatar | src/App.tsx:345-352 | the selected users get the new avatar and nothing else changes; every other user stays as it was |
| AppState.WithAvatarOnlyAvatar | src/App.tsx:345-352 | a new avatar leaves the id and name lists that the lookups read unchanged |
| AppState.WithAvatarIdempotent | src/App.tsx:345-352 | choosing the same avatar twice is the same as choosing it once |
| AppState.WithAvatarUnselected | src/App.tsx:45 | before any dialog was opened nothing is selected and choosing an avatar changes no user |
| AppState.App.constructor | src/App.tsx:36-47 | the initial state: no users, elements, records or avatars, the dialog closed, nothing selected |
| AppState.App.OpenDialog | src/App.tsx:335-339 | throws exactly when there is no selected profile; opens the dialog and selects the id only for the profile's own id |
| AppState.App.CloseDialog | src/App.tsx:341-343 | the dialog is closed |
| AppState.App.ChangeProfileImage | src/App.tsx:345-352 | the user objects now read as the old users with the selected ones' avatar replaced; the dialog closes exactly when some user is selected |
| AppState.App.Allocate | src/App.tsx:312 | fresh, distinct user objects that read as the enriched users, in order |
| AppState.App.Pipeline | src/App.tsx:255-310 | the two data results of a refresh are the symmetric relation and the enriched users |
| AppState.App.Render | src/App.tsx:314-322 | the node list, graph and visual elements after both visual steps |
| AppState.App.Store | src/App.tsx:312-332 | the users, elements and records are stored; the avatars and selected profile are set only when the package did not throw |
| AppState.App.Refresh | src/App.tsx:250-333 | the whole refresh: fresh user objects reading as the enriched users, the node list, graph and elements built from them, records stored as answered, avatars set and the first user selected unless the package threw |
| AppState.RefreshCompletes | src/App.tsx:250-333 | on a fresh render, with unique ids and names, a refresh never throws: one record per question, none from a user to itself, each count 0 for a direct friend and 1 otherwise |

## Left out

- The fetch (`axios.get`) is not modelled. The fetched records are the argument `raw` of `Refresh`.
- `Math.random` and `_.sampleSize` are not modelled as random sources. Their outcomes are arguments, constrained only as the library functions promise (`ValidDraws`, `AvatarDraws`).
- The JSX tree, cytoscape, Material UI, styles and the dialog component (`src/dialog.tsx`, `src/styleCommon.ts`) are left out. So is the displayed `_.uniqWith` and `> 0` filter of the records: none of them computes state.
- The `loaded` timer and effects are left out: `setTimeout` re-triggers a refresh through the effect at lines 361-366. Time is not modelled; each refresh is one call of `Refresh`.
- The `newUser` effect (lines 368-372) is left out. It reselects a profile by name from the search box, which is UI input.
- `addShortestPathToUsers` (lines 145-174) is left out. It builds a local array that is never returned or stored, so it has no effect.
- The `.filter(gF !== undefined)` after `generateUsers` (line 274) is left out. It never removes anything, because `_.sampleSize` returns only list members.
- `addMutualFriends` also lengthens the caller's array in place before reassigning `relations`. The caller never reads that array again, so only the returned list is modelled.
- GraphLib.Shortest: is an independent iterative deepening, not the package's own search. It is proved to return a walk of least length, but which of several shortest walks the package returns (its tie-breaking) is not modelled.
- Paths.FindShortestPath: requires every pair's friend to be a listed user, because the source throws otherwise. Every refresh meets this (`AppState.FinalUsers`).
- AppState.App.Refresh: the `dialogOpen` and `selectedUser` fields are left unchanged through its `modifies` clause, not through an `ensures`.
- React batches state updates. The model assigns the fields in an order that gives the same final state.
- JavaScript's own number type and the key order of object literals are not modelled: ids are mathematical integers and records are datatypes.
