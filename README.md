# DiGraph store, modelled in Dafny

This project models the `DiGraph<Vertex, Edge>` class of `digraph-js`. It is
an in-memory directed graph with two tables:

- `#vertices`: a `Map` from vertex id to an optional payload.
- `#edges`: a `Map` from source id to a `Map` from target id to an optional
  payload.

Both tables are JavaScript `Map`s, so they keep insertion order.

The class offers:

- mutators that validate their whole argument list before changing
  anything:
  - `addVertices`, `deleteVertices`, `updateVertex`;
  - `addEdges`, `deleteEdges`, `updateEdge`;
- the `validate*` helpers behind those mutators;
- the queries `hasVertex`/`getVertex` and `hasEdge`/`getEdge`;
- the generators `getVertexIds`, `getEdgeIds`, `getDescendantIds`,
  `getAncestorIds`, `getDescendants` and `getAncestors`;
- the conversion to and from a plain record: `toDict` and `fromDict`.

Files:

- `seqs.dfy` (`Seqs`): distinctness and filtering of sequences. It includes
  the `indexOf`-based duplicate filter that both `validateAdd*` helpers use.
- `wrappers.dfy` (`Wrappers`): `Option`, `Result`, and `Outcome`, which is
  pass or fail with an error.
- `ordered_map.dfy` (`OrderedMap`): a JavaScript `Map`, modelled as a
  key-order sequence plus a finite map. `set` keeps the position of a key
  that is already present and appends a new key. `delete` drops the key from
  the order.
- `graph_state.dfy` (`GraphState`):
  - the graph value, and the structural invariant `GraphValid`;
  - the read-only queries `HasVertex`, `GetVertex`, `HasEdge`, `GetEdge`,
    `Children` and `Parents` (`src/digraph.ts:57-62`, `120-125`, `209-227`);
  - the edge listing `EdgeList`.
- `validation.dfy` (`Validation`): the validators, as functions that return
  the error the source would throw, or `None`. The one exception is
  `ValidateAddEdges`: it is the corrected duplicate check of `addEdges`,
  which compares `(from, to)` pairs. `ValidateAddEdgesAsWritten` is the check
  as the source writes it (see "## Findings").
- `batches.dfy` (`Batches`):
  - what each mutator loop does to the graph, as recursive functions over
    the argument list;
  - the lemmas about those functions: effect, order, payloads and the
    invariant.
- `dicts.dfy` (`Dicts`): the plain-record form and the lemmas behind the
  round trips.
- `digraph.dfy` (`Digraph`): the class `DiGraph` itself. It has the two
  tables as fields and imperative methods with the loops of the source. Each
  method is proved against the functions above.

Errors are values rather than exceptions. A mutator returns `Fail(kind)`
where the source throws, with two exceptions:

- `AddEdges` runs the corrected duplicate check, so it accepts a batch whose
  `${from}->${to}` keys collide while its pairs differ. The source rejects
  that batch.
- `deleteVertices` with a repeated id passes the up-front check. It deletes
  the ids before the repeat, with their edges, and then fails with
  `NotFound`. The earlier deletions stay (`DeleteAllRepeated`).

When a mutator's up-front check fails, the state is untouched.

A generator is modelled as the sequence it yields when drained, or
`Failure(NotFound)` where its first `next()` throws. The message text of
an error is not modelled; only its kind is. The kinds are:

| kind | meaning |
|---|---|
| `DuplicateInput` | duplicate ids in the input |
| `SelfLoop` | a self-loop |
| `NonexistentEndpoint` | an edge endpoint that is not a vertex |
| `AlreadyExists` | a vertex or edge that already exists |
| `NotFound` | a vertex or edge that does not exist |

## Model

| member | source | states |
|---|---|---|
| Seqs.Repeats | src/digraph.ts:78 | the `indexOf` duplicate filter is empty exactly when the ids are pairwise distinct |
| Seqs.IndexOf | src/digraph.ts:78 | `indexOf` gives the first position of the element, or -1 exactly when it is absent |
| OrderedMap.Set | src/digraph.ts:92 | `Map.set` stores the value under the key; a present key keeps its position, and a new key goes last |
| OrderedMap.Delete | src/digraph.ts:106-108 | `Map.delete` removes the key and its value, and keeps the order of the other keys |
| GraphState.VertexQueries | src/digraph.ts:57-62 | `hasVertex` holds exactly for the ids in the vertex order that `getVertexIds` walks; `getVertex` of a missing vertex is `undefined` (`None`) |
| GraphState.EdgeQueries | src/digraph.ts:120-125 | `hasEdge` holds exactly when the target is among the source's descendants; every edge joins two distinct vertices; `getEdge` of a missing edge is `undefined` (`None`) |
| GraphState.ChildrenSpec | src/digraph.ts:209-214 | the descendants of a vertex are exactly the targets of its edges, each listed once; none is the vertex itself, and all are vertices |
| GraphState.ParentsSpec | src/digraph.ts:220-227 | the ancestors of a vertex are exactly the sources of edges into it, each listed once; none is the vertex itself, and all are vertices |
| GraphState.EdgeListSpec | src/digraph.ts:202-208 | `getEdgeIds` lists each edge of the graph exactly once, and nothing else |
| Validation.ValidateVerticesExist | src/digraph.ts:63-68 | passes exactly when every id is a vertex; otherwise the error is `NotFound` |
| Validation.ValidateVerticesDoNotExist | src/digraph.ts:69-74 | passes exactly when no id is a vertex; otherwise the error is `AlreadyExists` |
| Validation.ValidateAddVertices | src/digraph.ts:75-84 | `DuplicateInput` exactly when ids repeat; else `AlreadyExists` exactly when some id is a vertex; else passes |
| Validation.ValidateOneVertex | src/digraph.ts:75-84 | for a single id, the only possible error is `AlreadyExists`, raised exactly when the vertex exists |
| Validation.ValidateEdgesExist | src/digraph.ts:126-134 | passes exactly when every edge id is an edge; otherwise the error is `NotFound` |
| Validation.ValidateEdgesDoNotExist | src/digraph.ts:135-141 | passes exactly when no edge id is an edge; otherwise the error is `AlreadyExists` |
| Validation.SelfLoops | src/digraph.ts:152 | the self-loop filter is non-empty exactly when some edge has equal endpoints |
| Validation.Endpoints | src/digraph.ts:158-160 | the flattened endpoint list holds each edge's source then its target, in input order |
| Validation.MissingEndpoints | src/digraph.ts:158-161 | the missing-vertex filter is non-empty exactly when some edge has an endpoint that is not a vertex |
| Validation.ValidateEdgesAgainstGraph | src/digraph.ts:151-167 | the checks after the duplicate check, in order: `SelfLoop`, then `NonexistentEndpoint`, then `AlreadyExists`, each exactly when it applies and no earlier check fired |
| Validation.ValidateAddEdges | src/digraph.ts:142-168 | the full error order of `validateAddEdges`, with duplicates compared as `(from, to)` pairs; passes exactly when the batch can be inserted (`Insertable`) |
| Validation.CheckDiffersOnlyOnKeyCollision | src/digraph.ts:145-150 | the check as written and the pair-based check differ exactly on batches whose keys repeat while their pairs do not; there, the check as written gives `DuplicateInput` |
| Validation.ValidateOneEdge | src/digraph.ts:142-168 | for a single edge: `SelfLoop`, else `NonexistentEndpoint`, else `AlreadyExists`, else passes |
| Validation.ValidateAddEdgesAsWritten | src/digraph.ts:145-150 | the check as written, comparing `from->to` strings: `DuplicateInput` exactly when those strings repeat; otherwise the same as `ValidateAddEdges` |
| Validation.AsWrittenRejectsRepeatedPairs | src/digraph.ts:145-150 | the string comparison still catches every repeated `(from, to)` pair |
| Validation.EdgeKeyCollision | src/digraph.ts:145-147 | two different edges whose `from->to` strings coincide are rejected as duplicates by the check as written, and not by the pairwise check |
| Batches.InsertVerticesOrder | src/digraph.ts:88-94 | new vertex ids are appended to the vertex order, in argument order, and the table stays well-formed |
| Batches.InsertVerticesKeep | src/digraph.ts:88-94 | after `addVertices` the vertices are the old ones plus the new ids, and old payloads are unchanged |
| Batches.InsertVerticesPayloads | src/digraph.ts:91-93 | every added vertex carries the payload it was given |
| Batches.InsertVerticesValid | src/digraph.ts:88-94 | adding vertices that pass validation keeps the graph invariant |
| Batches.ReplaceVertexEffect | src/digraph.ts:111-114 | `updateVertex` changes only that vertex's payload: the vertex set, the vertex order, all edges and all other payloads are unchanged |
| Batches.AddEdgeHas | src/digraph.ts:175-184 | one insertion step adds exactly that edge, and the vertices are unchanged |
| Batches.AddEdgeValid | src/digraph.ts:175-184 | inserting a new edge between two distinct vertices keeps the invariant |
| Batches.AddEdgePayload | src/digraph.ts:183 | the new edge carries its payload, and every old edge keeps its own |
| Batches.AddEdgeOrder | src/digraph.ts:177-183 | the target goes last in its source's order; a source seen for the first time goes last in the source order |
| Batches.AddEdgesEffect | src/digraph.ts:172-185 | a batch that passes validation keeps the invariant, leaves the vertices alone, and makes the edges the old edges plus the batch |
| Batches.AddEdgesPayloads | src/digraph.ts:172-185 | after the batch, each new edge has its payload and each old edge keeps its own |
| Batches.AddEdgesOrder | src/digraph.ts:172-185 | each source's targets are the old ones followed by that source's new targets, in argument order; the old source order is a prefix of the new one |
| Batches.AddEdgesSources | src/digraph.ts:177-181 | after a batch, the source order is the old order followed by each new source at its first edge in the batch (`NewSources`) |
| Batches.ReplaceEdgeEffect | src/digraph.ts:198-201 | `updateEdge` changes only that edge's payload: the vertices, edge set, source order, target orders and other payloads are unchanged |
| Batches.ReplaceEdgeValid | src/digraph.ts:198-201 | `updateEdge` keeps the invariant |
| Batches.RemoveEdgeHas | src/digraph.ts:188-196 | one deletion step removes exactly that edge, and vertices and other payloads are unchanged |
| Batches.RemoveEdgeValid | src/digraph.ts:188-196 | deleting an edge keeps the invariant, which includes dropping a source left with no targets |
| Batches.RemoveEdgeOrder | src/digraph.ts:188-196 | the remaining targets and sources keep their relative order; only a source whose table emptied leaves the source order |
| Batches.RemoveEdgesEffect | src/digraph.ts:186-197 | `deleteEdges` removes exactly the listed edges, keeps the invariant, and leaves the vertices and the other payloads unchanged |
| Batches.RemoveEdgesTargets | src/digraph.ts:186-197 | each source's remaining targets keep their order |
| Batches.RemoveEdgesSources | src/digraph.ts:186-197 | no source is added, and the remaining sources keep their order |
| Batches.RemoveEdgesVertices | src/digraph.ts:186-197 | `deleteEdges` never touches the vertex table |
| Batches.IncomingSpec | src/digraph.ts:99-104 | the edge ids `deleteVertices` builds from the ancestors are exactly the edges into the vertex |
| Batches.RemoveIncoming | src/digraph.ts:99-104 | deleting those edges removes exactly the edges into the vertex, keeps the invariant, and leaves vertices and other payloads alone |
| Batches.RemoveIncomingOrder | src/digraph.ts:99-104 | after that, each source's targets are its old targets without the vertex, in the old order |
| Batches.DropVertexEdges | src/digraph.ts:106-108 | dropping the vertex's own source entry removes exactly its outgoing edges |
| Batches.DropVertexValid | src/digraph.ts:105-108 | once no edge points at the vertex, deleting its entries in both tables keeps the invariant |
| Batches.RemoveVertexVertices | src/digraph.ts:97-109 | one cascade step removes exactly that vertex from the vertex table and order, and keeps all other payloads |
| Batches.RemoveVertexEffect | src/digraph.ts:97-109 | one cascade step removes exactly the edges touching the vertex, keeps the invariant and keeps the other edge payloads |
| Batches.RemoveVertexOrder | src/digraph.ts:97-109 | after one cascade step, every other source keeps its targets in order, without the deleted vertex |
| Batches.DeleteAllSucceedsIff | src/digraph.ts:95-110 | the cascade over the id list runs through exactly when the ids are distinct vertices |
| Batches.DeleteAllEffect | src/digraph.ts:95-110 | for distinct existing ids, `deleteVertices` keeps the invariant and removes exactly the edges touching any deleted vertex; other edge payloads are kept |
| Batches.DeleteAllVertices | src/digraph.ts:95-110 | for distinct existing ids, the vertex order loses exactly those ids, and the other payloads are kept |
| Batches.DeleteRepeatedVertex | src/digraph.ts:95-110 | `deleteVertices(a, a)` passes validation, deletes `a` with its edges, and then throws `NotFound` from the second `getAncestorIds(a)`, so the deletion is not atomic |
| Batches.DeleteAllSources | src/digraph.ts:95-110 | for distinct existing ids, `deleteVertices` adds no source, and the remaining sources keep their order |
| Batches.DeleteAllTargets | src/digraph.ts:95-110 | for distinct existing ids, every other source keeps its remaining targets in order, without the deleted vertices; a deleted vertex has no targets |
| Batches.DeleteAllPrefix | src/digraph.ts:97-109 | the loop over a list is the loop over a prefix that runs through, followed by the loop over the rest from the state the prefix left |
| Batches.DeleteAllRepeated | src/digraph.ts:95-110 | when `ids[k]` repeats one of the distinct existing ids before it, `deleteVertices` deletes `ids[..k]` completely and then fails with `NotFound`, keeping those deletions |
| Dicts.Trimmed | src/digraph.ts:19-29 | the record without its empty edge records keeps the same vertices and the same set of (source, target) entries |
| Dicts.DictOfValid | src/digraph.ts:34-52 | `toDict` of a valid graph is well-formed and has no empty edge record |
| Dicts.TrimmedWellFormed | src/digraph.ts:19-29 | dropping empty edge records does not change whether a record is accepted |
| Dicts.SameDictSameGraph | src/digraph.ts:34-52 | two graphs with the same record agree on every `hasVertex`, `getVertex`, `hasEdge` and `getEdge` |
| Dicts.DictOfAddEdge | src/digraph.ts:23-26 | adding one edge adds exactly that entry to the record |
| Dicts.LoadEdgeStep | src/digraph.ts:20-28 | while a source's record is loading, the next target is not yet an edge, and adding it extends the loaded part by that entry |
| Digraph.DiGraph.constructor | src/digraph.ts:54-55 | a new graph is valid and has two empty tables |
| Digraph.DiGraph.AddVertices | src/digraph.ts:88-94 | the result is the outcome of `ValidateAddVertices`; on success the vertices are inserted in order, otherwise nothing changes |
| Digraph.DiGraph.DeleteVertices | src/digraph.ts:95-110 | `NotFound` with no change when some id is missing; otherwise the state and outcome of the cascade `DeleteAll` |
| Digraph.DiGraph.DeleteIncoming | src/digraph.ts:99-104 | the inner loop deletes exactly the edges from the listed ancestors into the vertex |
| Digraph.DiGraph.DeleteOneEdge | src/digraph.ts:100-103 | `deleteEdges` on an edge that exists removes that edge |
| Digraph.DiGraph.UpdateVertex | src/digraph.ts:111-114 | `NotFound` with no change for a missing vertex; otherwise only its payload is replaced |
| Digraph.DiGraph.AddEdges | src/digraph.ts:172-185 | the result is the outcome of `ValidateAddEdges`; on success the edges are inserted in order, otherwise nothing changes |
| Digraph.DiGraph.InsertEdges | src/digraph.ts:175-184 | the insertion loop computes `AddEdgesTo` and keeps the invariant |
| Digraph.DiGraph.AddOneEdge | src/digraph.ts:23-26 | `addEdges` with one edge: `SelfLoop`, else `NonexistentEndpoint`, else `AlreadyExists`, else the edge is added |
| Digraph.DiGraph.DeleteEdges | src/digraph.ts:186-197 | the result is the outcome of `ValidateEdgesExist`; on success the listed edges are removed, otherwise nothing changes |
| Digraph.DiGraph.UpdateEdge | src/digraph.ts:198-201 | `NotFound` with no change for a missing edge; otherwise only its payload is replaced |
| Digraph.DiGraph.GetVertexIds | src/digraph.ts:115-119 | yields the vertices in insertion order, each exactly once |
| Digraph.DiGraph.GetEdgeIds | src/digraph.ts:202-208 | yields every edge exactly once: source by source in source order, targets in insertion order |
| Digraph.AppendPairs | src/digraph.ts:204-206 | the inner loop appends one edge id per target, in order |
| Digraph.DiGraph.GetDescendantIds | src/digraph.ts:209-214 | `NotFound` for a missing vertex; otherwise its targets in insertion order, each once, exactly the targets of its edges |
| Digraph.DiGraph.GetAncestorIds | src/digraph.ts:220-227 | `NotFound` for a missing vertex; otherwise the sources of edges into it in source order, each once |
| Digraph.DiGraph.GetDescendants | src/digraph.ts:215-219 | the descendants in order, each paired with its payload; `NotFound` for a missing vertex |
| Digraph.DiGraph.GetAncestors | src/digraph.ts:228-232 | the ancestors in order, each paired with its payload; `NotFound` for a missing vertex |
| Digraph.DiGraph.WithPayloads | src/digraph.ts:216-217 | each id is paired with `getVertex` of that id |
| Digraph.DiGraph.ToDict | src/digraph.ts:34-52 | gives the record of the current state, and that record is well-formed |
| Digraph.DiGraph.FromDict | src/digraph.ts:4-32 | succeeds exactly on a well-formed record; then the new valid graph's record is the input without empty edge records; otherwise the error is `SelfLoop` or `NonexistentEndpoint` |
| Digraph.DiGraph.LoadVertices | src/digraph.ts:7-16 | the vertex loop of `fromDict` loads exactly the record's vertices and payloads |
| Digraph.DiGraph.LoadEdges | src/digraph.ts:18-29 | the edge loops of `fromDict` succeed exactly when every entry joins two distinct vertices, and then load exactly the non-empty edge records |
| Digraph.DiGraph.AddTargets | src/digraph.ts:20-28 | the inner loop for one source succeeds exactly when all of its entries are well-formed, and then loads that source's whole record |
| Digraph.ToDictFromDict | src/digraph.ts:4-52 | `fromDict(g.toDict())` succeeds and gives a valid graph with the same record, vertices, edges and payloads |
| Digraph.FromDictToDict | src/digraph.ts:4-52 | `fromDict(d).toDict()` succeeds exactly on a well-formed record and gives back `d` without its empty edge records |

## Left out

- Digraph.DiGraph.AddEdges: the store runs the corrected pair-based
  duplicate check (`ValidateAddEdges`), not the `${from}->${to}` string
  comparison of src/digraph.ts:145-147. On a batch whose keys collide while
  its pairs differ, the source throws `DuplicateInput` and the model goes on
  to the later checks and may insert both edges.
  `Validation.CheckDiffersOnlyOnKeyCollision` proves this is the only
  difference.
- Error messages: only the kind of error is modelled, not the text listing
  the offending ids.
- Generator laziness: each generator is modelled as the sequence it yields
  when drained. Its validation error is raised at the first `next()`, not at
  the call.
- `deleteVertices` iterates `getAncestorIds(id)` lazily while it deletes
  edges. Each deletion removes only the entry under the cursor, or an empty
  source table under the cursor. The model computes the ancestor list first
  and then deletes, which gives the same result.
- Digraph.DiGraph.FromDict: `Object.entries` order is not modelled. The
  model walks each record in an unspecified order, so it fixes the tables'
  contents but not their insertion order.
- Record key semantics are not modelled: integer-like keys that
  `Object.entries` moves ahead, and the `__proto__` key.
- `null` and `undefined` payloads are both `None`. So the two branches of
  `fromDict` at src/digraph.ts:9-15 and 21-27 are one path, and
  `toDict`'s `undefined`-to-`null` conversion is the identity.
- Dicts.Trimmed: an empty edge record `{from: {}}` cannot be reproduced by
  `fromDict` followed by `toDict`. The round-trip lemma therefore compares
  up to empty edge records.
- `fromDict` on a malformed record throws part-way, with a half-built graph
  that is never returned. The model returns `Failure` and says nothing
  about that graph.
- `Map.size === 0` is modelled as an empty key order.
- `validateQueryUpdateDeleteVertices` and `validateQueryUpdateDeleteEdges`
  (src/digraph.ts:85-87, 169-171) only forward to `validateVerticesExist`
  and `validateEdgesExist`, which are modelled directly.
- src/interface.ts holds only type declarations; the Dafny datatypes take
  their place.
- Payloads are opaque type parameters. Aliasing of mutable payload objects
  between the caller and the store is not modelled.

## Findings

| source | as written | input that shows it | evidently intended | confidence | as-written member | corrected member |
|---|---|---|---|---|---|---|
| src/digraph.ts:145-147 | duplicate edges are found by comparing the strings `${from}->${to}` | `addEdges({from: "a->b", to: "c"}, {from: "a", to: "b->c"})` is rejected as a duplicate, though the two edges differ | reject only repeated `(from, to)` pairs | not executed | Validation.EdgeKeyCollision | Validation.ValidateAddEdges |
