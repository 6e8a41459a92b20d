/**
 What each batch mutator does to the graph once its checks have passed,
 stated as functions over the graph value, one element of the batch at a
 time in batch order, and what those functions keep and change.
 */
module Batches {
  import opened Wrappers
  import opened Seqs
  import OM = OrderedMap
  import opened GraphState
  import opened Validation

  // ---------------------------------------------------------------- vertices

  /** The loop of `addVertices`: `#vertices.set(id, vertex)` for each element. */
  function InsertVertices<V>(m: OM.OMap<string, Option<V>>, vs: seq<VertexWithId<V>>): OM.OMap<string, Option<V>>
    decreases vs
  {
    if vs == [] then m else InsertVertices(OM.Set(m, vs[0].id, vs[0].vertex), vs[1..])
  }

  /** A batch of new, distinct ids is appended to the vertex order in batch
      order, and the table stays well-formed. */
  lemma {:induction false} InsertVerticesOrder<V>(m: OM.OMap<string, Option<V>>, vs: seq<VertexWithId<V>>)
    requires OM.Valid(m)
    requires Distinct(VertexIds(vs))
    requires forall i :: 0 <= i < |vs| ==> vs[i].id !in m.vals
    decreases vs
    ensures OM.Valid(InsertVertices(m, vs))
    ensures InsertVertices(m, vs).keys == m.keys + VertexIds(vs)
  {
    if vs != [] {
      var m1 := OM.Set(m, vs[0].id, vs[0].vertex);
      var ids, ids' := VertexIds(vs), VertexIds(vs[1..]);
      assert ids == [vs[0].id] + ids';
      assert Distinct(ids') by {
        forall i, j | 0 <= i < j < |ids'| ensures ids'[i] != ids'[j] {
          assert ids'[i] == ids[i + 1] && ids'[j] == ids[j + 1];
        }
      }
      forall i | 0 <= i < |vs[1..]| ensures vs[1..][i].id !in m1.vals {
        assert vs[1..][i] == vs[i + 1] && ids[i + 1] != ids[0];
      }
      InsertVerticesOrder(m1, vs[1..]);
      AppendAssoc(m.keys, [vs[0].id], ids');
    }
  }

  /** After the loop of `addVertices` an id is a vertex exactly when it was
      one before or is in the batch, and an id outside the batch keeps its
      payload. */
  lemma {:induction false} InsertVerticesKeep<V>(m: OM.OMap<string, Option<V>>, vs: seq<VertexWithId<V>>)
    decreases vs
    ensures forall k :: k in InsertVertices(m, vs).vals <==> k in m.vals || k in VertexIds(vs)
    ensures forall k :: k in m.vals && k !in VertexIds(vs) ==> InsertVertices(m, vs).vals[k] == m.vals[k]
  {
    if vs != [] {
      var ids := VertexIds(vs);
      InsertVerticesKeep(OM.Set(m, vs[0].id, vs[0].vertex), vs[1..]);
      assert ids == [ids[0]] + VertexIds(vs[1..]);
    }
  }

  /** After the loop of `addVertices` each id of a batch of distinct ids
      holds its own payload. */
  lemma {:induction false} InsertVerticesPayloads<V>(m: OM.OMap<string, Option<V>>, vs: seq<VertexWithId<V>>)
    requires Distinct(VertexIds(vs))
    decreases vs
    ensures forall i :: 0 <= i < |vs| ==>
              vs[i].id in InsertVertices(m, vs).vals && InsertVertices(m, vs).vals[vs[i].id] == vs[i].vertex
  {
    if vs != [] {
      var ids := VertexIds(vs);
      var m1 := OM.Set(m, vs[0].id, vs[0].vertex);
      DistinctTail(ids);
      assert ids[1..] == VertexIds(vs[1..]);
      InsertVerticesPayloads(m1, vs[1..]);
      InsertVerticesKeep(m1, vs[1..]);
      forall i | 0 <= i < |vs|
        ensures vs[i].id in InsertVertices(m, vs).vals && InsertVertices(m, vs).vals[vs[i].id] == vs[i].vertex
      {
        if i > 0 {
          assert vs[1..][i - 1] == vs[i];
        }
      }
    }
  }

  /** A batch of new, distinct vertices keeps the invariant. */
  lemma {:induction false} InsertVerticesValid<V, E>(g: Graph<V, E>, vs: seq<VertexWithId<V>>)
    requires GraphValid(g)
    requires Distinct(VertexIds(vs))
    requires forall i :: 0 <= i < |vs| ==> vs[i].id !in g.vertices.vals
    ensures GraphValid(Graph(InsertVertices(g.vertices, vs), g.edges))
  {
    var g' := Graph(InsertVertices(g.vertices, vs), g.edges);
    InsertVerticesOrder(g.vertices, vs);
    InsertVerticesKeep(g.vertices, vs);
    forall s, t | HasEdge(g', s, t) ensures HasVertex(g', s) && HasVertex(g', t) && s != t {
      assert HasEdge(g, s, t);
    }
  }

  /** `updateVertex` once the vertex is known to exist. */
  function ReplaceVertex<V, E>(g: Graph<V, E>, v: VertexWithId<V>): Graph<V, E>
  {
    Graph(OM.Set(g.vertices, v.id, v.vertex), g.edges)
  }

  /** Replacing a payload touches neither the vertex order nor any edge. */
  lemma {:induction false} ReplaceVertexEffect<V, E>(g: Graph<V, E>, v: VertexWithId<V>)
    requires GraphValid(g) && HasVertex(g, v.id)
    ensures GraphValid(ReplaceVertex(g, v))
    ensures ReplaceVertex(g, v).vertices.keys == g.vertices.keys
    ensures ReplaceVertex(g, v).edges == g.edges
    ensures GetVertex(ReplaceVertex(g, v), v.id) == v.vertex
    ensures forall id :: id != v.id ==> GetVertex(ReplaceVertex(g, v), id) == GetVertex(g, id)
    ensures forall id :: HasVertex(ReplaceVertex(g, v), id) <==> HasVertex(g, id)
  {
    var g' := ReplaceVertex(g, v);
    assert forall s, t :: HasEdge(g', s, t) <==> HasEdge(g, s, t);
  }

  // ------------------------------------------------------------------- edges

  /** One step of the loop of `addEdges`: create the source's target table if
      it has none, then set the target. */
  function AddEdge<V, E>(g: Graph<V, E>, e: EdgeWithId<E>): Graph<V, E>
  {
    var targets := if e.from in g.edges.vals then g.edges.vals[e.from] else OM.Empty();
    Graph(g.vertices, OM.Set(g.edges, e.from, OM.Set(targets, e.to, e.edge)))
  }

  /** The loop of `addEdges`. */
  function AddEdgesTo<V, E>(g: Graph<V, E>, es: seq<EdgeWithId<E>>): Graph<V, E>
    decreases es
  {
    if es == [] then g else AddEdgesTo(AddEdge(g, es[0]), es[1..])
  }

  /** The targets the batch gives to `s`, in batch order. */
  function TargetsFrom<E>(es: seq<EdgeWithId<E>>, s: string): seq<string>
  {
    if es == [] then []
    else (if es[0].from == s then [es[0].to] else []) + TargetsFrom(es[1..], s)
  }

  /** The sources the batch adds to the source order: each source not in
      `known`, at its first edge in the batch. */
  function NewSources<E>(known: set<string>, es: seq<EdgeWithId<E>>): seq<string>
    decreases es
  {
    if es == [] then []
    else if es[0].from in known then NewSources(known, es[1..])
    else [es[0].from] + NewSources(known + {es[0].from}, es[1..])
  }

  /** One insertion adds its own edge and no other, and keeps the vertices. */
  lemma {:induction false} AddEdgeHas<V, E>(g: Graph<V, E>, e: EdgeWithId<E>)
    ensures AddEdge(g, e).vertices == g.vertices
    ensures forall s, t :: HasEdge(AddEdge(g, e), s, t) <==> HasEdge(g, s, t) || (s == e.from && t == e.to)
  {
  }

  /** Inserting an edge that may be inserted keeps the invariant. */
  lemma {:induction false} AddEdgeValid<V, E>(g: Graph<V, E>, e: EdgeWithId<E>)
    requires GraphValid(g)
    requires e.from != e.to && HasVertex(g, e.from) && HasVertex(g, e.to) && !HasEdge(g, e.from, e.to)
    ensures GraphValid(AddEdge(g, e))
  {
    var targets: Targets<E> := if e.from in g.edges.vals then g.edges.vals[e.from] else OM.Empty();
    var targets' := OM.Set(targets, e.to, e.edge);
    var g' := AddEdge(g, e);
    assert OM.Valid(targets);
    assert g'.edges.vals == g.edges.vals[e.from := targets'];
    forall s, t | HasEdge(g', s, t) ensures HasVertex(g', s) && HasVertex(g', t) && s != t {
      AddEdgeHasAt(g, e, s, t);
    }
    forall s | s in g'.edges.vals ensures OM.Valid(g'.edges.vals[s]) && g'.edges.vals[s].keys != [] {
      if s != e.from {
        assert g'.edges.vals[s] == g.edges.vals[s];
      } else {
        assert targets'.keys == targets.keys || targets'.keys == targets.keys + [e.to];
      }
    }
  }

  /** Inserting a new edge gives it its payload and keeps every other payload. */
  lemma {:induction false} AddEdgePayload<V, E>(g: Graph<V, E>, e: EdgeWithId<E>)
    requires !HasEdge(g, e.from, e.to)
    ensures GetEdge(AddEdge(g, e), e.from, e.to) == e.edge
    ensures forall s, t :: HasEdge(g, s, t) ==> GetEdge(AddEdge(g, e), s, t) == GetEdge(g, s, t)
  {
    AddEdgeHas(g, e);
  }

  /** Inserting a new edge appends its target to its source's targets and
      appends the source to the source order only when it had no table. */
  lemma {:induction false} AddEdgeOrder<V, E>(g: Graph<V, E>, e: EdgeWithId<E>)
    requires !HasEdge(g, e.from, e.to)
    ensures forall s :: Children(AddEdge(g, e), s) == Children(g, s) + (if s == e.from then [e.to] else [])
    ensures AddEdge(g, e).edges.keys == if e.from in g.edges.vals then g.edges.keys else g.edges.keys + [e.from]
  {
    var g' := AddEdge(g, e);
    forall s ensures Children(g', s) == Children(g, s) + (if s == e.from then [e.to] else []) {
      assert Children(g, s) + [] == Children(g, s);
    }
  }

  /** The edge ids of a batch are those of its first edge and of the rest. */
  lemma {:induction false} EdgeIdsTail<E>(es: seq<EdgeWithId<E>>)
    requires es != []
    ensures EdgeIds(es) == [EdgeId(es[0].from, es[0].to)] + EdgeIds(es[1..])
  {
    var ids, ids' := EdgeIds(es), EdgeIds(es[1..]);
    assert forall i :: 0 <= i < |ids'| ==> ids'[i] == ids[i + 1];
  }

  /** One insertion adds its own edge and no other, at one pair. */
  lemma {:induction false} AddEdgeHasAt<V, E>(g: Graph<V, E>, e: EdgeWithId<E>, s: string, t: string)
    ensures HasEdge(AddEdge(g, e), s, t) <==> HasEdge(g, s, t) || (s == e.from && t == e.to)
    ensures HasVertex(AddEdge(g, e), s) <==> HasVertex(g, s)
  {
  }

  /** The first edge of an insertable batch may be inserted, and the rest of
      the batch may then be inserted into the result. */
  lemma {:induction false} InsertableTail<V, E>(g: Graph<V, E>, es: seq<EdgeWithId<E>>)
    requires Insertable(g, es) && es != []
    ensures es[0].from != es[0].to && HasVertex(g, es[0].from) && HasVertex(g, es[0].to)
    ensures !HasEdge(g, es[0].from, es[0].to)
    ensures EdgeIds(es) == [EdgeId(es[0].from, es[0].to)] + EdgeIds(es[1..])
    ensures Insertable(AddEdge(g, es[0]), es[1..])
  {
    var e0, rest := es[0], es[1..];
    assert e0 in es;
    EdgeIdsTail(es);
    DistinctTail(EdgeIds(es));
    var g1 := AddEdge(g, e0);
    forall e | e in rest
      ensures e.from != e.to && HasVertex(g1, e.from) && HasVertex(g1, e.to) && !HasEdge(g1, e.from, e.to)
    {
      var k :| 0 <= k < |rest| && rest[k] == e;
      assert es[k + 1] == e;
      assert EdgeIds(rest)[k] == EdgeId(e.from, e.to);
      AddEdgeHasAt(g, e0, e.from, e.to);
      AddEdgeHasAt(g, e0, e.to, e.to);
    }
  }

  /** A batch that passed the checks adds exactly its edges, leaves the
      vertices alone and keeps the invariant. */
  lemma {:induction false} AddEdgesEffect<V, E>(g: Graph<V, E>, es: seq<EdgeWithId<E>>)
    requires GraphValid(g) && Insertable(g, es)
    decreases es
    ensures GraphValid(AddEdgesTo(g, es)) && AddEdgesTo(g, es).vertices == g.vertices
    ensures forall s, t :: HasEdge(AddEdgesTo(g, es), s, t) <==> HasEdge(g, s, t) || EdgeId(s, t) in EdgeIds(es)
  {
    if es != [] {
      InsertableTail(g, es);
      AddEdgeValid(g, es[0]);
      AddEdgeHas(g, es[0]);
      AddEdgesEffect(AddEdge(g, es[0]), es[1..]);
      assert forall x :: x in EdgeIds(es) <==> x == EdgeId(es[0].from, es[0].to) || x in EdgeIds(es[1..]);
    }
  }

  /** Each edge of an inserted batch carries its own payload and every edge
      that was there keeps its payload. */
  lemma {:induction false} AddEdgesPayloads<V, E>(g: Graph<V, E>, es: seq<EdgeWithId<E>>)
    requires Insertable(g, es)
    decreases es
    ensures forall e :: e in es ==> GetEdge(AddEdgesTo(g, es), e.from, e.to) == e.edge
    ensures forall s, t :: HasEdge(g, s, t) ==> GetEdge(AddEdgesTo(g, es), s, t) == GetEdge(g, s, t)
  {
    if es != [] {
      var g1 := AddEdge(g, es[0]);
      InsertableTail(g, es);
      AddEdgeHas(g, es[0]);
      AddEdgePayload(g, es[0]);
      AddEdgesPayloads(g1, es[1..]);
      forall e | e in es ensures GetEdge(AddEdgesTo(g, es), e.from, e.to) == e.edge {
        if e != es[0] {
          var k :| 0 <= k < |es| && es[k] == e;
          assert es[1..][k - 1] == e;
        } else {
          assert HasEdge(g1, e.from, e.to);
        }
      }
    }
  }

  /** Each source's new targets follow its old ones in batch order, and no
      source moves in the source order. */
  lemma {:induction false} AddEdgesOrder<V, E>(g: Graph<V, E>, es: seq<EdgeWithId<E>>)
    requires Insertable(g, es)
    decreases es
    ensures forall s :: Children(AddEdgesTo(g, es), s) == Children(g, s) + TargetsFrom(es, s)
    ensures g.edges.keys <= AddEdgesTo(g, es).edges.keys
  {
    if es == [] {
      assert forall s :: Children(g, s) + [] == Children(g, s);
    } else {
      var g1 := AddEdge(g, es[0]);
      InsertableTail(g, es);
      AddEdgeOrder(g, es[0]);
      AddEdgesOrder(g1, es[1..]);
      forall s ensures Children(AddEdgesTo(g, es), s) == Children(g, s) + TargetsFrom(es, s) {
        AppendAssoc(Children(g, s), if s == es[0].from then [es[0].to] else [], TargetsFrom(es[1..], s));
      }
    }
  }

  /** The source order after a batch: the old order, then each new source
      at its first edge in the batch. This is the order in which
      `getAncestorIds` and `getEdgeIds` visit the sources. */
  lemma {:induction false} AddEdgesSources<V, E>(g: Graph<V, E>, es: seq<EdgeWithId<E>>)
    ensures AddEdgesTo(g, es).edges.keys == g.edges.keys + NewSources(g.edges.vals.Keys, es)
    decreases es
  {
    if es == [] {
      assert g.edges.keys + [] == g.edges.keys;
    } else {
      var e := es[0];
      var g1 := AddEdge(g, e);
      AddEdgesSources(g1, es[1..]);
      assert g1.edges.vals.Keys == g.edges.vals.Keys + {e.from};
      if e.from !in g.edges.vals {
        AppendAssoc(g.edges.keys, [e.from], NewSources(g1.edges.vals.Keys, es[1..]));
      } else {
        assert g1.edges.vals.Keys == g.edges.vals.Keys;
      }
    }
  }

  /** `updateEdge` once the edge is known to exist. */
  function ReplaceEdge<V, E>(g: Graph<V, E>, e: EdgeWithId<E>): Graph<V, E>
    requires e.from in g.edges.vals
  {
    Graph(g.vertices, OM.Set(g.edges, e.from, OM.Set(g.edges.vals[e.from], e.to, e.edge)))
  }

  /** Replacing an edge payload changes no edge, no order and no vertex:
      only the payload of that edge. */
  lemma {:induction false} ReplaceEdgeEffect<V, E>(g: Graph<V, E>, e: EdgeWithId<E>)
    requires HasEdge(g, e.from, e.to)
    ensures ReplaceEdge(g, e).vertices == g.vertices
    ensures ReplaceEdge(g, e).edges.keys == g.edges.keys
    ensures forall s, t :: HasEdge(ReplaceEdge(g, e), s, t) <==> HasEdge(g, s, t)
    ensures forall s :: Children(ReplaceEdge(g, e), s) == Children(g, s)
    ensures GetEdge(ReplaceEdge(g, e), e.from, e.to) == e.edge
    ensures forall s, t :: (s, t) != (e.from, e.to) ==> GetEdge(ReplaceEdge(g, e), s, t) == GetEdge(g, s, t)
  {
  }

  /** Replacing an edge payload keeps the invariant. */
  lemma {:induction false} ReplaceEdgeValid<V, E>(g: Graph<V, E>, e: EdgeWithId<E>)
    requires GraphValid(g) && HasEdge(g, e.from, e.to)
    ensures GraphValid(ReplaceEdge(g, e))
  {
    var g' := ReplaceEdge(g, e);
    var targets := g.edges.vals[e.from];
    assert g'.edges.vals == g.edges.vals[e.from := OM.Set(targets, e.to, e.edge)];
    assert g'.edges.vals[e.from].keys == targets.keys;
    forall s, t | HasEdge(g', s, t) ensures HasVertex(g', s) && HasVertex(g', t) && s != t {
      assert HasEdge(g, s, t);
    }
    forall s | s in g'.edges.vals ensures OM.Valid(g'.edges.vals[s]) && g'.edges.vals[s].keys != [] {
      if s != e.from {
        assert g'.edges.vals[s] == g.edges.vals[s];
      }
    }
  }

  /** One step of the loop of `deleteEdges`: delete the target, and drop the
      source's table from `#edges` when it has become empty. */
  function RemoveEdge<V, E>(g: Graph<V, E>, id: EdgeId): Graph<V, E>
  {
    if id.from in g.edges.vals then
      var targets := OM.Delete(g.edges.vals[id.from], id.to);
      if |targets.keys| == 0 then Graph(g.vertices, OM.Delete(g.edges, id.from))
      else Graph(g.vertices, OM.Set(g.edges, id.from, targets))
    else g
  }

  /** The loop of `deleteEdges`. */
  function RemoveEdges<V, E>(g: Graph<V, E>, ids: seq<EdgeId>): Graph<V, E>
    decreases ids
  {
    if ids == [] then g else RemoveEdges(RemoveEdge(g, ids[0]), ids[1..])
  }

  /** The targets the batch removes from `s`. */
  function DroppedTargets(ids: seq<EdgeId>, s: string): set<string>
  {
    set id | id in ids && id.from == s :: id.to
  }

  /** One deletion removes exactly its own edge, keeps the payloads of the
      others and keeps the vertices. */
  lemma {:induction false} RemoveEdgeHas<V, E>(g: Graph<V, E>, id: EdgeId)
    requires GraphValid(g)
    ensures RemoveEdge(g, id).vertices == g.vertices
    ensures forall s, t :: HasEdge(RemoveEdge(g, id), s, t) <==> HasEdge(g, s, t) && EdgeId(s, t) != id
    ensures forall s, t :: HasEdge(RemoveEdge(g, id), s, t) ==> GetEdge(RemoveEdge(g, id), s, t) == GetEdge(g, s, t)
  {
    if id.from in g.edges.vals {
      var targets := OM.Delete(g.edges.vals[id.from], id.to);
      assert OM.Valid(targets);
      if |targets.keys| == 0 {
        assert forall t :: t !in targets.vals;
      }
    }
  }

  /** One deletion removes its own edge and no other, at one pair. */
  lemma {:induction false} RemoveEdgeHasAt<V, E>(g: Graph<V, E>, id: EdgeId, s: string, t: string)
    requires id.from in g.edges.vals ==> OM.Valid(g.edges.vals[id.from])
    ensures HasEdge(RemoveEdge(g, id), s, t) <==> HasEdge(g, s, t) && EdgeId(s, t) != id
  {
    if id.from in g.edges.vals {
      var targets := OM.Delete(g.edges.vals[id.from], id.to);
      if |targets.keys| == 0 && s == id.from {
        assert t !in targets.vals;
      }
    }
  }

  /** One deletion keeps the invariant. */
  lemma {:induction false} RemoveEdgeValid<V, E>(g: Graph<V, E>, id: EdgeId)
    requires GraphValid(g)
    ensures GraphValid(RemoveEdge(g, id))
  {
    var g' := RemoveEdge(g, id);
    forall s, t | HasEdge(g', s, t) ensures HasVertex(g', s) && HasVertex(g', t) && s != t {
      RemoveEdgeHasAt(g, id, s, t);
    }
    if id.from in g.edges.vals {
      var targets := OM.Delete(g.edges.vals[id.from], id.to);
      assert OM.Valid(targets);
      if |targets.keys| == 0 {
        assert g'.edges.vals == g.edges.vals - {id.from};
      } else {
        assert g'.edges.vals == g.edges.vals[id.from := targets];
      }
      forall s | s in g'.edges.vals ensures OM.Valid(g'.edges.vals[s]) && g'.edges.vals[s].keys != [] {
        if s != id.from {
          assert g'.edges.vals[s] == g.edges.vals[s];
        }
      }
    }
  }

  /** One deletion takes its target out of its source's targets and drops
      the source from the source order only when no target is left. */
  lemma {:induction false} RemoveEdgeOrder<V, E>(g: Graph<V, E>, id: EdgeId)
    ensures forall s :: Children(RemoveEdge(g, id), s) == Keep(Children(g, s), if s == id.from then {id.to} else {})
    ensures RemoveEdge(g, id).edges.vals.Keys <= g.edges.vals.Keys
    ensures RemoveEdge(g, id).edges.keys == Keep(g.edges.keys, g.edges.vals.Keys - RemoveEdge(g, id).edges.vals.Keys)
  {
    var g' := RemoveEdge(g, id);
    forall s ensures Children(g', s) == Keep(Children(g, s), if s == id.from then {id.to} else {}) {
      if s != id.from {
        KeepNothing(Children(g, s), {});
      }
    }
    if id.from in g.edges.vals && |OM.Delete(g.edges.vals[id.from], id.to).keys| == 0 {
      assert g.edges.vals.Keys - g'.edges.vals.Keys == {id.from};
    } else {
      assert g.edges.vals.Keys - g'.edges.vals.Keys == {};
      KeepNothing(g.edges.keys, {});
    }
  }

  /** A delete batch removes exactly the listed edges, keeps the payloads of
      the others and the vertices, and keeps the invariant: a source whose
      table becomes empty leaves `#edges`. */
  lemma {:induction false} RemoveEdgesEffect<V, E>(g: Graph<V, E>, ids: seq<EdgeId>)
    requires GraphValid(g)
    ensures GraphValid(RemoveEdges(g, ids)) && RemoveEdges(g, ids).vertices == g.vertices
    ensures forall s, t :: HasEdge(RemoveEdges(g, ids), s, t) <==> HasEdge(g, s, t) && EdgeId(s, t) !in ids
    ensures forall s, t :: HasEdge(RemoveEdges(g, ids), s, t) ==> GetEdge(RemoveEdges(g, ids), s, t) == GetEdge(g, s, t)
    decreases ids
  {
    if ids != [] {
      RemoveEdgeValid(g, ids[0]);
      RemoveEdgeHas(g, ids[0]);
      RemoveEdgesEffect(RemoveEdge(g, ids[0]), ids[1..]);
      assert forall e :: e in ids <==> e == ids[0] || e in ids[1..];
    }
  }

  /** A delete batch keeps the order of each source's remaining targets. */
  lemma {:induction false} RemoveEdgesTargets<V, E>(g: Graph<V, E>, ids: seq<EdgeId>)
    ensures forall s :: Children(RemoveEdges(g, ids), s) == Keep(Children(g, s), DroppedTargets(ids, s))
    decreases ids
  {
    if ids == [] {
      forall s ensures Children(g, s) == Keep(Children(g, s), DroppedTargets(ids, s)) {
        KeepNothing(Children(g, s), DroppedTargets(ids, s));
      }
    } else {
      var id0, rest := ids[0], ids[1..];
      RemoveEdgeOrder(g, id0);
      RemoveEdgesTargets(RemoveEdge(g, id0), rest);
      forall s ensures Children(RemoveEdges(g, ids), s) == Keep(Children(g, s), DroppedTargets(ids, s)) {
        var d0 := if s == id0.from then {id0.to} else {};
        KeepKeep(Children(g, s), d0, DroppedTargets(rest, s));
        assert DroppedTargets(ids, s) == d0 + DroppedTargets(rest, s) by {
          assert forall e :: e in ids <==> e == id0 || e in rest;
        }
      }
    }
  }

  /** A delete batch only drops sources, and the remaining sources keep
      their order. */
  lemma {:induction false} RemoveEdgesSources<V, E>(g: Graph<V, E>, ids: seq<EdgeId>)
    ensures RemoveEdges(g, ids).edges.vals.Keys <= g.edges.vals.Keys
    ensures RemoveEdges(g, ids).edges.keys == Keep(g.edges.keys, g.edges.vals.Keys - RemoveEdges(g, ids).edges.vals.Keys)
    decreases ids
  {
    if ids == [] {
      assert g.edges.vals.Keys - g.edges.vals.Keys == {};
      KeepNothing(g.edges.keys, {});
    } else {
      var g1 := RemoveEdge(g, ids[0]);
      RemoveEdgeOrder(g, ids[0]);
      RemoveEdgesSources(g1, ids[1..]);
      var k, k1, k' := g.edges.vals.Keys, g1.edges.vals.Keys, RemoveEdges(g, ids).edges.vals.Keys;
      KeepKeep(g.edges.keys, k - k1, k1 - k');
      assert (k - k1) + (k1 - k') == k - k';
    }
  }

  // ---------------------------------------------------------------- vertices

  /** `{ from: parentId, to: id }` for each parent, in order. */
  function Incoming(ps: seq<string>, id: string): (r: seq<EdgeId>)
    ensures |r| == |ps|
    ensures forall k :: 0 <= k < |ps| ==> r[k] == EdgeId(ps[k], id)
  {
    seq(|ps|, k requires 0 <= k < |ps| => EdgeId(ps[k], id))
  }

  /** One iteration of the loop of `deleteVertices`: delete every edge into
      the vertex, then its target table, then the vertex. */
  function RemoveVertex<V, E>(g: Graph<V, E>, id: string): Graph<V, E>
  {
    var h := RemoveEdges(g, Incoming(Parents(g, id), id));
    Graph(OM.Delete(h.vertices, id), OM.Delete(h.edges, id))
  }

  /** The edges `deleteVertices` deletes first are exactly those into the
      vertex. */
  lemma {:induction false} IncomingSpec<V, E>(g: Graph<V, E>, id: string)
    requires GraphValid(g)
    ensures forall s, t :: EdgeId(s, t) in Incoming(Parents(g, id), id) <==> t == id && HasEdge(g, s, id)
  {
    var ps := Parents(g, id);
    var ins := Incoming(ps, id);
    ParentsSpec(g, id);
    forall s, t ensures EdgeId(s, t) in ins <==> t == id && HasEdge(g, s, id) {
      if EdgeId(s, t) in ins {
        var k :| 0 <= k < |ins| && ins[k] == EdgeId(s, t);
        assert ps[k] in ps;
      }
      if t == id && HasEdge(g, s, id) {
        var k :| 0 <= k < |ps| && ps[k] == s;
        assert ins[k] == EdgeId(s, t);
      }
    }
  }

  /** Deleting the edges into a vertex keeps the invariant, the vertices and
      every other edge with its payload. */
  lemma {:induction false} RemoveIncoming<V, E>(g: Graph<V, E>, id: string)
    requires GraphValid(g)
    ensures GraphValid(RemoveEdges(g, Incoming(Parents(g, id), id)))
    ensures RemoveEdges(g, Incoming(Parents(g, id), id)).vertices == g.vertices
    ensures forall s, t :: HasEdge(RemoveEdges(g, Incoming(Parents(g, id), id)), s, t) <==> HasEdge(g, s, t) && t != id
    ensures forall s, t :: HasEdge(RemoveEdges(g, Incoming(Parents(g, id), id)), s, t) ==>
              GetEdge(RemoveEdges(g, Incoming(Parents(g, id), id)), s, t) == GetEdge(g, s, t)
  {
    IncomingSpec(g, id);
    RemoveEdgesEffect(g, Incoming(Parents(g, id), id));
  }

  /** Deleting the edges into a vertex takes it out of every target list and
      keeps the rest of each list in order. */
  lemma {:induction false} RemoveIncomingOrder<V, E>(g: Graph<V, E>, id: string)
    requires GraphValid(g)
    ensures forall s :: Children(RemoveEdges(g, Incoming(Parents(g, id), id)), s) == Keep(Children(g, s), {id})
  {
    var ins := Incoming(Parents(g, id), id);
    IncomingSpec(g, id);
    RemoveEdgesTargets(g, ins);
    forall s ensures Children(RemoveEdges(g, ins), s) == Keep(Children(g, s), {id}) {
      ChildrenSpec(g, s);
      if HasEdge(g, s, id) {
        assert DroppedTargets(ins, s) == {id};
      } else {
        assert DroppedTargets(ins, s) == {};
        KeepNothing(Children(g, s), {});
        KeepNothing(Children(g, s), {id});
      }
    }
  }

  /** Deleting a source's target table deletes exactly the edges out of it. */
  lemma {:induction false} DropVertexEdges<V, E>(h: Graph<V, E>, id: string)
    ensures forall s, t :: HasEdge(Graph(OM.Delete(h.vertices, id), OM.Delete(h.edges, id)), s, t) <==> HasEdge(h, s, t) && s != id
    ensures forall s, t :: HasEdge(Graph(OM.Delete(h.vertices, id), OM.Delete(h.edges, id)), s, t) ==>
              GetEdge(Graph(OM.Delete(h.vertices, id), OM.Delete(h.edges, id)), s, t) == GetEdge(h, s, t)
  {
  }

  /** Once no edge enters a vertex, deleting its target table and the vertex
      keeps the invariant. */
  lemma {:induction false} DropVertexValid<V, E>(h: Graph<V, E>, id: string)
    requires GraphValid(h) && forall s :: !HasEdge(h, s, id)
    ensures GraphValid(Graph(OM.Delete(h.vertices, id), OM.Delete(h.edges, id)))
  {
    var g' := Graph(OM.Delete(h.vertices, id), OM.Delete(h.edges, id));
    DropVertexEdges(h, id);
    assert g'.edges.vals == h.edges.vals - {id};
    assert g'.vertices.vals == h.vertices.vals - {id};
    forall s | s in g'.edges.vals ensures OM.Valid(g'.edges.vals[s]) && g'.edges.vals[s].keys != [] {
      assert g'.edges.vals[s] == h.edges.vals[s];
    }
    forall s, t | HasEdge(g', s, t) ensures HasVertex(g', s) && HasVertex(g', t) && s != t {
      assert HasEdge(h, s, t) && t != id;
    }
  }

  /** Deleting the edges of a batch never touches the vertex table. */
  lemma {:induction false} RemoveEdgesVertices<V, E>(g: Graph<V, E>, ids: seq<EdgeId>)
    ensures RemoveEdges(g, ids).vertices == g.vertices
    decreases ids
  {
    if ids != [] {
      RemoveEdgesVertices(RemoveEdge(g, ids[0]), ids[1..]);
    }
  }

  /** Deleting a vertex takes exactly that vertex out of the vertex table and
      the vertex order; every other vertex keeps its payload. */
  lemma {:induction false} RemoveVertexVertices<V, E>(g: Graph<V, E>, id: string)
    ensures RemoveVertex(g, id).vertices.keys == Keep(g.vertices.keys, {id})
    ensures forall v :: HasVertex(RemoveVertex(g, id), v) <==> HasVertex(g, v) && v != id
    ensures forall v :: v != id ==> GetVertex(RemoveVertex(g, id), v) == GetVertex(g, v)
  {
    RemoveEdgesVertices(g, Incoming(Parents(g, id), id));
  }

  /** Deleting a vertex removes exactly the edges that touch it, in both
      directions; every other edge keeps its payload, and the invariant
      holds. */
  lemma {:induction false} RemoveVertexEffect<V, E>(g: Graph<V, E>, id: string)
    requires GraphValid(g)
    ensures GraphValid(RemoveVertex(g, id))
    ensures forall s, t :: HasEdge(RemoveVertex(g, id), s, t) <==> HasEdge(g, s, t) && s != id && t != id
    ensures forall s, t :: HasEdge(RemoveVertex(g, id), s, t) ==> GetEdge(RemoveVertex(g, id), s, t) == GetEdge(g, s, t)
  {
    RemoveIncoming(g, id);
    DropVertexEdges(RemoveEdges(g, Incoming(Parents(g, id), id)), id);
    DropVertexValid(RemoveEdges(g, Incoming(Parents(g, id), id)), id);
  }

  /** Deleting a vertex takes it out of every remaining target list, in
      order, and leaves it no targets. */
  lemma {:induction false} RemoveVertexOrder<V, E>(g: Graph<V, E>, id: string)
    requires GraphValid(g)
    ensures forall s :: s != id ==> Children(RemoveVertex(g, id), s) == Keep(Children(g, s), {id})
    ensures Children(RemoveVertex(g, id), id) == []
  {
    RemoveIncomingOrder(g, id);
  }

  /** How `deleteVertices` runs once its up-front check has passed. */
  datatype Run<V, E> = Run(outcome: Outcome<GraphError>, graph: Graph<V, E>)

  /** The loop of `deleteVertices`: an id that is no longer a vertex (a
      repeat of an id already deleted) stops it with `NotFound`, raised by
      `getAncestorIds`, after the earlier ids have been deleted. */
  function DeleteAll<V, E>(g: Graph<V, E>, ids: seq<string>): Run<V, E>
    decreases ids
  {
    if ids == [] then Run(Pass, g)
    else if !HasVertex(g, ids[0]) then Run(Fail(NotFound), g)
    else DeleteAll(RemoveVertex(g, ids[0]), ids[1..])
  }

  /** The loop runs to the end exactly when the ids are distinct vertices. */
  lemma {:induction false} DeleteAllSucceedsIff<V, E>(g: Graph<V, E>, ids: seq<string>)
    ensures DeleteAll(g, ids).outcome.Pass? <==> Distinct(ids) && forall id :: id in ids ==> HasVertex(g, id)
    decreases ids
  {
    if ids != [] && HasVertex(g, ids[0]) {
      var g1 := RemoveVertex(g, ids[0]);
      RemoveVertexVertices(g, ids[0]);
      DeleteAllSucceedsIff(g1, ids[1..]);
      assert forall x :: x in ids <==> x == ids[0] || x in ids[1..];
      if Distinct(ids) {
        DistinctTail(ids);
      }
      if Distinct(ids[1..]) && forall x :: x in ids[1..] ==> HasVertex(g1, x) {
        forall i, j | 0 <= i < j < |ids| ensures ids[i] != ids[j] {
          assert ids[j] == ids[1..][j - 1];
          if i > 0 {
            assert ids[i] == ids[1..][i - 1];
          }
        }
      }
    }
  }

  /** The rest of a batch of distinct vertices consists of distinct
      vertices of the graph left after the first is deleted. */
  lemma {:induction false} DeleteAllTail<V, E>(g: Graph<V, E>, ids: seq<string>)
    requires ids != []
    requires Distinct(ids) && forall id :: id in ids ==> HasVertex(g, id)
    ensures HasVertex(g, ids[0])
    ensures Distinct(ids[1..]) && forall id :: id in ids[1..] ==> HasVertex(RemoveVertex(g, ids[0]), id)
    ensures (set id | id in ids) == {ids[0]} + (set id | id in ids[1..])
  {
    assert ids[0] in ids;
    DistinctTail(ids);
    RemoveVertexVertices(g, ids[0]);
    assert forall x :: x in ids <==> x == ids[0] || x in ids[1..];
  }

  /** Deleting distinct existing vertices runs to the end and removes every
      edge that touches one of them and nothing else; the invariant holds. */
  lemma {:induction false} DeleteAllEffect<V, E>(g: Graph<V, E>, ids: seq<string>)
    requires GraphValid(g)
    requires Distinct(ids) && forall id :: id in ids ==> HasVertex(g, id)
    ensures DeleteAll(g, ids).outcome == Pass
    ensures GraphValid(DeleteAll(g, ids).graph)
    ensures forall s, t :: HasEdge(DeleteAll(g, ids).graph, s, t) <==> HasEdge(g, s, t) && s !in ids && t !in ids
    ensures forall s, t :: HasEdge(DeleteAll(g, ids).graph, s, t) ==>
              GetEdge(DeleteAll(g, ids).graph, s, t) == GetEdge(g, s, t)
    decreases ids
  {
    if ids != [] {
      DeleteAllTail(g, ids);
      RemoveVertexEffect(g, ids[0]);
      DeleteAllEffect(RemoveVertex(g, ids[0]), ids[1..]);
      assert forall x :: x in ids <==> x == ids[0] || x in ids[1..];
    }
  }

  /** Deleting distinct existing vertices removes exactly them from the
      vertex table and the vertex order and keeps every other payload. */
  lemma {:induction false} DeleteAllVertices<V, E>(g: Graph<V, E>, ids: seq<string>)
    requires Distinct(ids) && forall id :: id in ids ==> HasVertex(g, id)
    ensures DeleteAll(g, ids).graph.vertices.keys == Keep(g.vertices.keys, set id | id in ids)
    ensures forall v :: HasVertex(DeleteAll(g, ids).graph, v) <==> HasVertex(g, v) && v !in ids
    ensures forall v :: v !in ids ==> GetVertex(DeleteAll(g, ids).graph, v) == GetVertex(g, v)
    decreases ids
  {
    if ids == [] {
      KeepNothing(g.vertices.keys, set id | id in ids);
    } else {
      DeleteAllTail(g, ids);
      RemoveVertexVertices(g, ids[0]);
      DeleteAllVertices(RemoveVertex(g, ids[0]), ids[1..]);
      KeepKeep(g.vertices.keys, {ids[0]}, set id | id in ids[1..]);
      assert forall x :: x in ids <==> x == ids[0] || x in ids[1..];
    }
  }

  /** One cascade step only drops sources, and the remaining sources keep
      their order. */
  lemma {:induction false} RemoveVertexSources<V, E>(g: Graph<V, E>, id: string)
    requires GraphValid(g)
    ensures RemoveVertex(g, id).edges.vals.Keys <= g.edges.vals.Keys
    ensures RemoveVertex(g, id).edges.keys == Keep(g.edges.keys, g.edges.vals.Keys - RemoveVertex(g, id).edges.vals.Keys)
  {
    var ins := Incoming(Parents(g, id), id);
    var h := RemoveEdges(g, ins);
    RemoveEdgesSources(g, ins);
    var k, kh, k' := g.edges.vals.Keys, h.edges.vals.Keys, RemoveVertex(g, id).edges.vals.Keys;
    assert k' == kh - {id};
    KeepKeep(g.edges.keys, k - kh, {id});
    KeepSameOn(g.edges.keys, (k - kh) + {id}, k - k');
  }

  /** After deleting distinct existing vertices, no source has been added and
      the remaining sources keep their order. */
  lemma {:induction false} DeleteAllSources<V, E>(g: Graph<V, E>, ids: seq<string>)
    requires GraphValid(g)
    requires Distinct(ids) && forall id :: id in ids ==> HasVertex(g, id)
    ensures DeleteAll(g, ids).graph.edges.vals.Keys <= g.edges.vals.Keys
    ensures DeleteAll(g, ids).graph.edges.keys == Keep(g.edges.keys, g.edges.vals.Keys - DeleteAll(g, ids).graph.edges.vals.Keys)
    decreases ids
  {
    if ids == [] {
      assert g.edges.vals.Keys - g.edges.vals.Keys == {};
      KeepNothing(g.edges.keys, {});
    } else {
      var g1 := RemoveVertex(g, ids[0]);
      DeleteAllTail(g, ids);
      RemoveVertexEffect(g, ids[0]);
      RemoveVertexSources(g, ids[0]);
      DeleteAllSources(g1, ids[1..]);
      var k, k1, k' := g.edges.vals.Keys, g1.edges.vals.Keys, DeleteAll(g, ids).graph.edges.vals.Keys;
      KeepKeep(g.edges.keys, k - k1, k1 - k');
      assert (k - k1) + (k1 - k') == k - k';
    }
  }

  /** After deleting distinct existing vertices, every other source keeps its
      remaining targets in order, and a deleted vertex has no targets. */
  lemma {:induction false} DeleteAllTargets<V, E>(g: Graph<V, E>, ids: seq<string>)
    requires GraphValid(g)
    requires Distinct(ids) && forall id :: id in ids ==> HasVertex(g, id)
    ensures forall s :: s !in ids ==> Children(DeleteAll(g, ids).graph, s) == Keep(Children(g, s), set id | id in ids)
    ensures forall s :: s in ids ==> Children(DeleteAll(g, ids).graph, s) == []
    decreases ids
  {
    if ids == [] {
      forall s ensures Children(g, s) == Keep(Children(g, s), set id | id in ids) {
        KeepNothing(Children(g, s), set id | id in ids);
      }
    } else {
      var g1 := RemoveVertex(g, ids[0]);
      var rest := set id | id in ids[1..];
      DeleteAllTail(g, ids);
      DistinctTail(ids);
      RemoveVertexEffect(g, ids[0]);
      RemoveVertexOrder(g, ids[0]);
      DeleteAllTargets(g1, ids[1..]);
      var h := DeleteAll(g, ids).graph;
      forall s | s !in ids ensures Children(h, s) == Keep(Children(g, s), set id | id in ids) {
        assert s != ids[0] && s !in ids[1..];
        KeepKeep(Children(g, s), {ids[0]}, rest);
      }
      forall s | s in ids ensures Children(h, s) == [] {
        if s == ids[0] {
          assert Keep(Children(g1, s), rest) == [];
        } else {
          assert s in ids[1..];
        }
      }
    }
  }

  /** The loop of `deleteVertices` over a list is the loop over a prefix that
      runs through, followed by the loop over the rest from where it stopped. */
  lemma {:induction false} DeleteAllPrefix<V, E>(g: Graph<V, E>, ids: seq<string>, k: nat)
    requires k <= |ids|
    requires DeleteAll(g, ids[..k]).outcome == Pass
    ensures DeleteAll(g, ids) == DeleteAll(DeleteAll(g, ids[..k]).graph, ids[k..])
    decreases k
  {
    if k == 0 {
      assert ids[..0] == [] && ids[0..] == ids;
    } else {
      var g1 := RemoveVertex(g, ids[0]);
      assert ids[..k][0] == ids[0];
      assert ids[..k][1..] == ids[1..][..k - 1];
      DeleteAllPrefix(g1, ids[1..], k - 1);
      assert ids[1..][k - 1..] == ids[k..];
    }
  }

  /** When an id repeats, the loop deletes the distinct vertices before the
      repeat and then fails with `NotFound`: the earlier deletions stay. */
  lemma {:induction false} DeleteAllRepeated<V, E>(g: Graph<V, E>, ids: seq<string>, k: nat)
    requires k < |ids|
    requires Distinct(ids[..k]) && forall id :: id in ids[..k] ==> HasVertex(g, id)
    requires ids[k] in ids[..k]
    ensures DeleteAll(g, ids[..k]).outcome == Pass
    ensures DeleteAll(g, ids) == Run(Fail(NotFound), DeleteAll(g, ids[..k]).graph)
  {
    DeleteAllSucceedsIff(g, ids[..k]);
    DeleteAllPrefix(g, ids, k);
    DeleteAllVertices(g, ids[..k]);
    assert ids[k..][0] == ids[k];
  }

  /** A repeated id passes the up-front check, and the loop then fails on the
      repeat after the first copy has been deleted: the batch is not applied
      all-or-nothing. */
  lemma {:induction false} DeleteRepeatedVertex<V, E>(g: Graph<V, E>, a: string)
    requires HasVertex(g, a)
    ensures Validation.ValidateVerticesExist(g, [a, a]) == None
    ensures DeleteAll(g, [a, a]) == Run(Fail(NotFound), RemoveVertex(g, a))
    ensures !HasVertex(RemoveVertex(g, a), a)
  {
    RemoveVertexVertices(g, a);
    assert [a, a][1..] == [a];
  }
}
