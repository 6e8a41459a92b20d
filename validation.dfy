/**
 The store's up-front batch checks. Each returns the first error kind it finds,
 in the store's fixed order, or `None` when the whole batch may be applied.
 */
module Validation {
  import opened Wrappers
  import opened Seqs
  import opened GraphState

  /** `validateVerticesExist(...ids)`, which is also
      `validateQueryUpdateDeleteVertices`. */
  function ValidateVerticesExist<V, E>(g: Graph<V, E>, ids: seq<string>): (r: Option<GraphError>)
    ensures r == None <==> forall id :: id in ids ==> HasVertex(g, id)
    ensures r == None || r == Some(NotFound)
  {
    var missing := Filter(ids, id => !HasVertex(g, id));
    if |missing| > 0 then
      assert missing[0] in ids && !HasVertex(g, missing[0]);
      Some(NotFound)
    else
      assert forall i :: 0 <= i < |ids| ==> HasVertex(g, ids[i]);
      None
  }

  /** `validateVerticesDoNotExist(...ids)` */
  function ValidateVerticesDoNotExist<V, E>(g: Graph<V, E>, ids: seq<string>): (r: Option<GraphError>)
    ensures r == None <==> forall id :: id in ids ==> !HasVertex(g, id)
    ensures r == None || r == Some(AlreadyExists)
  {
    var present := Filter(ids, id => HasVertex(g, id));
    if |present| > 0 then
      assert present[0] in ids && HasVertex(g, present[0]);
      Some(AlreadyExists)
    else
      assert forall i :: 0 <= i < |ids| ==> !HasVertex(g, ids[i]);
      None
  }

  /** `vertices.map((vertex) => vertex.id)` */
  function VertexIds<V>(vs: seq<VertexWithId<V>>): (ids: seq<string>)
    ensures |ids| == |vs|
    ensures forall i :: 0 <= i < |vs| ==> ids[i] == vs[i].id
  {
    seq(|vs|, i requires 0 <= i < |vs| => vs[i].id)
  }

  /** `validateAddVertices(...ids)`: a repeated id is reported first, then an
      id already in the graph. */
  function ValidateAddVertices<V, E>(g: Graph<V, E>, ids: seq<string>): (r: Option<GraphError>)
    ensures r == Some(DuplicateInput) <==> !Distinct(ids)
    ensures r == Some(AlreadyExists) <==> Distinct(ids) && exists id :: id in ids && HasVertex(g, id)
    ensures r == None <==> Distinct(ids) && forall id :: id in ids ==> !HasVertex(g, id)
  {
    if |Repeats(ids)| > 0 then Some(DuplicateInput) else ValidateVerticesDoNotExist(g, ids)
  }

  /** `validateEdgesExist(...edgeIds)`, which is also
      `validateQueryUpdateDeleteEdges`. */
  function ValidateEdgesExist<V, E>(g: Graph<V, E>, ids: seq<EdgeId>): (r: Option<GraphError>)
    ensures r == None <==> forall e :: e in ids ==> HasEdge(g, e.from, e.to)
    ensures r == None || r == Some(NotFound)
  {
    var missing := Filter(ids, (e: EdgeId) => !HasEdge(g, e.from, e.to));
    if |missing| > 0 then
      assert missing[0] in ids && !HasEdge(g, missing[0].from, missing[0].to);
      Some(NotFound)
    else
      assert forall i :: 0 <= i < |ids| ==> HasEdge(g, ids[i].from, ids[i].to);
      None
  }

  /** `validateEdgesDoNotExist(...edgeIds)` */
  function ValidateEdgesDoNotExist<V, E>(g: Graph<V, E>, ids: seq<EdgeId>): (r: Option<GraphError>)
    ensures r == None <==> forall e :: e in ids ==> !HasEdge(g, e.from, e.to)
    ensures r == None || r == Some(AlreadyExists)
  {
    var present := Filter(ids, (e: EdgeId) => HasEdge(g, e.from, e.to));
    if |present| > 0 then
      assert present[0] in ids && HasEdge(g, present[0].from, present[0].to);
      Some(AlreadyExists)
    else
      assert forall i :: 0 <= i < |ids| ==> !HasEdge(g, ids[i].from, ids[i].to);
      None
  }

  /** `edges.map((edge) => ({ from: edge.from, to: edge.to }))` */
  function EdgeIds<E>(es: seq<EdgeWithId<E>>): (ids: seq<EdgeId>)
    ensures |ids| == |es|
    ensures forall i :: 0 <= i < |es| ==> ids[i] == EdgeId(es[i].from, es[i].to)
  {
    seq(|es|, i requires 0 <= i < |es| => EdgeId(es[i].from, es[i].to))
  }

  /** `edges.map((edge) => [edge.from, edge.to]).flat()` */
  function Endpoints<E>(es: seq<EdgeWithId<E>>): (ids: seq<string>)
    ensures |ids| == 2 * |es|
    ensures forall i :: 0 <= i < |es| ==> ids[2 * i] == es[i].from && ids[2 * i + 1] == es[i].to
  {
    seq(2 * |es|, k requires 0 <= k < 2 * |es| => if k % 2 == 0 then es[k / 2].from else es[k / 2].to)
  }

  /** Every edge of the batch may be inserted: the batch names each ordered
      pair once, and each edge joins two distinct vertices and is not yet in
      the graph. */
  ghost predicate Insertable<V, E>(g: Graph<V, E>, es: seq<EdgeWithId<E>>)
  {
    && Distinct(EdgeIds(es))
    && forall e :: e in es ==>
         e.from != e.to && HasVertex(g, e.from) && HasVertex(g, e.to) && !HasEdge(g, e.from, e.to)
  }

  /** `edges.filter((edge) => edge.from === edge.to)` */
  function SelfLoops<E>(es: seq<EdgeWithId<E>>): (r: seq<EdgeWithId<E>>)
    ensures |r| > 0 <==> exists e :: e in es && e.from == e.to
  {
    var r := Filter(es, (e: EdgeWithId<E>) => e.from == e.to);
    if |r| > 0 then
      assert r[0] in es;
      r
    else
      assert forall i :: 0 <= i < |es| ==> es[i].from != es[i].to;
      r
  }

  /** The endpoints of the batch that are not vertices. */
  function MissingEndpoints<V, E>(g: Graph<V, E>, es: seq<EdgeWithId<E>>): (r: seq<string>)
    ensures |r| > 0 <==> exists e :: e in es && (!HasVertex(g, e.from) || !HasVertex(g, e.to))
  {
    var ends := Endpoints(es);
    var r := Filter(ends, id => !HasVertex(g, id));
    EndpointsMissing(g, es, r);
    r
  }

  lemma {:induction false} EndpointsMissing<V, E>(g: Graph<V, E>, es: seq<EdgeWithId<E>>, r: seq<string>)
    requires r == Filter(Endpoints(es), id => !HasVertex(g, id))
    ensures |r| > 0 <==> exists e :: e in es && (!HasVertex(g, e.from) || !HasVertex(g, e.to))
  {
    if |r| > 0 {
      SomeEndpointMissing(g, es, r[0]);
    } else {
      NoEndpointMissing(g, es, r);
    }
  }

  lemma {:induction false} SomeEndpointMissing<V, E>(g: Graph<V, E>, es: seq<EdgeWithId<E>>, id: string)
    requires id in Endpoints(es) && !HasVertex(g, id)
    ensures exists e :: e in es && (!HasVertex(g, e.from) || !HasVertex(g, e.to))
  {
    var ends := Endpoints(es);
    var k :| 0 <= k < |ends| && ends[k] == id;
    var i := k / 2;
    assert k == 2 * i || k == 2 * i + 1;
    assert es[i] in es;
  }

  lemma {:induction false} NoEndpointMissing<V, E>(g: Graph<V, E>, es: seq<EdgeWithId<E>>, r: seq<string>)
    requires r == Filter(Endpoints(es), id => !HasVertex(g, id)) && |r| == 0
    ensures forall e :: e in es ==> HasVertex(g, e.from) && HasVertex(g, e.to)
  {
    var ends := Endpoints(es);
    forall e | e in es ensures HasVertex(g, e.from) && HasVertex(g, e.to) {
      var i :| 0 <= i < |es| && es[i] == e;
      assert ends[2 * i] == e.from && ends[2 * i + 1] == e.to;
    }
  }

  lemma EdgeIdsPresent<V, E>(g: Graph<V, E>, es: seq<EdgeWithId<E>>)
    ensures (forall e :: e in EdgeIds(es) ==> !HasEdge(g, e.from, e.to))
            <==> (forall e :: e in es ==> !HasEdge(g, e.from, e.to))
  {
    var ids := EdgeIds(es);
    if forall e :: e in es ==> !HasEdge(g, e.from, e.to) {
      forall e | e in ids ensures !HasEdge(g, e.from, e.to) {
        var i :| 0 <= i < |ids| && ids[i] == e;
        assert es[i] in es;
      }
    }
    if forall e :: e in ids ==> !HasEdge(g, e.from, e.to) {
      forall e | e in es ensures !HasEdge(g, e.from, e.to) {
        var i :| 0 <= i < |es| && es[i] == e;
        assert ids[i] in ids;
      }
    }
  }

  /** The checks of `validateAddEdges` after the duplicate check: any
      self-loop, then any endpoint that is not a vertex, then any edge that is
      already present. */
  function ValidateEdgesAgainstGraph<V, E>(g: Graph<V, E>, es: seq<EdgeWithId<E>>): (r: Option<GraphError>)
    ensures r == Some(SelfLoop) <==> exists e :: e in es && e.from == e.to
    ensures r == Some(NonexistentEndpoint) <==>
              && (forall e :: e in es ==> e.from != e.to)
              && exists e :: e in es && (!HasVertex(g, e.from) || !HasVertex(g, e.to))
    ensures r == Some(AlreadyExists) <==>
              && (forall e :: e in es ==> e.from != e.to && HasVertex(g, e.from) && HasVertex(g, e.to))
              && exists e :: e in es && HasEdge(g, e.from, e.to)
    ensures r == None <==>
              forall e :: e in es ==>
                e.from != e.to && HasVertex(g, e.from) && HasVertex(g, e.to) && !HasEdge(g, e.from, e.to)
  {
    if |SelfLoops(es)| > 0 then Some(SelfLoop)
    else if |MissingEndpoints(g, es)| > 0 then Some(NonexistentEndpoint)
    else
      EdgeIdsPresent(g, es);
      ValidateEdgesDoNotExist(g, EdgeIds(es))
  }

  /** `validateAddEdges(...edges)` with the duplicate check on ordered pairs:
      a repeated pair, then a self-loop, then a missing endpoint, then an edge
      already present. */
  function ValidateAddEdges<V, E>(g: Graph<V, E>, es: seq<EdgeWithId<E>>): (r: Option<GraphError>)
    ensures r == Some(DuplicateInput) <==> !Distinct(EdgeIds(es))
    ensures r == Some(SelfLoop) <==> Distinct(EdgeIds(es)) && exists e :: e in es && e.from == e.to
    ensures r == Some(NonexistentEndpoint) <==>
              && Distinct(EdgeIds(es))
              && (forall e :: e in es ==> e.from != e.to)
              && exists e :: e in es && (!HasVertex(g, e.from) || !HasVertex(g, e.to))
    ensures r == Some(AlreadyExists) <==>
              && Distinct(EdgeIds(es))
              && (forall e :: e in es ==> e.from != e.to && HasVertex(g, e.from) && HasVertex(g, e.to))
              && exists e :: e in es && HasEdge(g, e.from, e.to)
    ensures r == None <==> Insertable(g, es)
  {
    if |Repeats(EdgeIds(es))| > 0 then Some(DuplicateInput) else ValidateEdgesAgainstGraph(g, es)
  }

  /** The string `${from}->${to}` under which the source compares edges of a batch. */
  function EdgeKey<E>(e: EdgeWithId<E>): string
  {
    e.from + "->" + e.to
  }

  function EdgeKeys<E>(es: seq<EdgeWithId<E>>): (keys: seq<string>)
    ensures |keys| == |es|
    ensures forall i :: 0 <= i < |es| ==> keys[i] == EdgeKey(es[i])
  {
    seq(|es|, i requires 0 <= i < |es| => EdgeKey(es[i]))
  }

  /** `validateAddEdges(...edges)` as written: the duplicate check compares
      the strings `${from}->${to}` rather than the pairs. */
  function ValidateAddEdgesAsWritten<V, E>(g: Graph<V, E>, es: seq<EdgeWithId<E>>): (r: Option<GraphError>)
    ensures !Distinct(EdgeKeys(es)) <==> r == Some(DuplicateInput)
    ensures Distinct(EdgeKeys(es)) ==> r == ValidateAddEdges(g, es)
  {
    if |Repeats(EdgeKeys(es))| > 0 then
      Some(DuplicateInput)
    else
      assert Distinct(EdgeIds(es)) by {
        var ids, keys := EdgeIds(es), EdgeKeys(es);
        forall i, j | 0 <= i < j < |ids| ensures ids[i] != ids[j] {
          assert keys[i] != keys[j];
        }
      }
      ValidateEdgesAgainstGraph(g, es)
  }

  /** Two different ordered pairs can share a key, so the check as written
      rejects a batch of two distinct edges as a duplicate; the pair-based
      check does not. */
  lemma EdgeKeyCollision<V, E>(g: Graph<V, E>)
    ensures var es: seq<EdgeWithId<E>> := [EdgeWithId("a->b", "c", None), EdgeWithId("a", "b->c", None)];
            && Distinct(EdgeIds(es))
            && ValidateAddEdgesAsWritten(g, es) == Some(DuplicateInput)
            && ValidateAddEdges(g, es) != Some(DuplicateInput)
  {
    var es: seq<EdgeWithId<E>> := [EdgeWithId("a->b", "c", None), EdgeWithId("a", "b->c", None)];
    var keys := EdgeKeys(es);
    assert keys[0] == "a->b" + "->" + "c" == "a->b->c";
    assert keys[1] == "a" + "->" + "b->c" == "a->b->c";
    assert !Distinct(keys);
    var ids := EdgeIds(es);
    assert ids[0].from != ids[1].from by {
      assert |ids[0].from| == 4 && |ids[1].from| == 1;
    }
  }

  /** Whatever the pair-based check rejects as a duplicate, the check as
      written rejects too: equal pairs give equal keys. */
  lemma AsWrittenRejectsRepeatedPairs<V, E>(g: Graph<V, E>, es: seq<EdgeWithId<E>>)
    requires !Distinct(EdgeIds(es))
    ensures ValidateAddEdgesAsWritten(g, es) == Some(DuplicateInput)
  {
    var ids, keys := EdgeIds(es), EdgeKeys(es);
    var i, j :| 0 <= i < j < |ids| && ids[i] == ids[j];
    assert keys[i] == keys[j];
  }

  /** The store runs the pair-based check where the source runs the check as
      written. The two agree on every batch except one whose keys repeat
      while its pairs do not; there the source rejects with `DuplicateInput`
      and the pair-based check goes on to the later checks. */
  lemma CheckDiffersOnlyOnKeyCollision<V, E>(g: Graph<V, E>, es: seq<EdgeWithId<E>>)
    ensures ValidateAddEdgesAsWritten(g, es) != ValidateAddEdges(g, es) <==>
              !Distinct(EdgeKeys(es)) && Distinct(EdgeIds(es)) && ValidateAddEdges(g, es) != Some(DuplicateInput)
    ensures ValidateAddEdgesAsWritten(g, es) != ValidateAddEdges(g, es) ==>
              ValidateAddEdgesAsWritten(g, es) == Some(DuplicateInput)
  {
    if !Distinct(EdgeIds(es)) {
      AsWrittenRejectsRepeatedPairs(g, es);
    }
  }

  /** A batch of one edge fails on the first check the edge itself fails:
      it cannot repeat a pair, so the error is a self-loop, then a missing
      endpoint, then an edge already present. */
  lemma {:induction false} ValidateOneEdge<V, E>(g: Graph<V, E>, e: EdgeWithId<E>)
    ensures ValidateAddEdges(g, [e]) ==
              if e.from == e.to then Some(SelfLoop)
              else if !HasVertex(g, e.from) || !HasVertex(g, e.to) then Some(NonexistentEndpoint)
              else if HasEdge(g, e.from, e.to) then Some(AlreadyExists)
              else None
  {
    assert Distinct(EdgeIds([e]));
    assert forall x :: x in [e] <==> x == e;
  }

  /** A batch of one vertex fails exactly when the vertex exists. */
  lemma {:induction false} ValidateOneVertex<V, E>(g: Graph<V, E>, id: string)
    ensures ValidateAddVertices(g, [id]) == if HasVertex(g, id) then Some(AlreadyExists) else None
  {
    assert Distinct([id]);
    assert forall x :: x in [id] <==> x == id;
  }
}
