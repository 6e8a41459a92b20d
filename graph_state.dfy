/**
 The state of a `DiGraph`: the vertex table (id to optional payload) and the
 adjacency table (source id to an ordered map from target id to optional
 payload), both insertion-ordered; the structural invariant every mutator
 keeps; and the read-only queries.
 */
module GraphState {
  import opened Wrappers
  import opened Seqs
  import OM = OrderedMap

  /** The kinds of error the store raises. */
  datatype GraphError = DuplicateInput | SelfLoop | NonexistentEndpoint | AlreadyExists | NotFound

  datatype VertexWithId<V> = VertexWithId(id: string, vertex: Option<V>)

  datatype EdgeId = EdgeId(from: string, to: string)

  datatype EdgeWithId<E> = EdgeWithId(from: string, to: string, edge: Option<E>)

  /** The outgoing edges of one source: target id to optional payload. */
  type Targets<E> = OM.OMap<string, Option<E>>

  /** `#vertices` and `#edges`; an absent payload (`undefined`) is `None`. */
  datatype Graph<V, E> = Graph(vertices: OM.OMap<string, Option<V>>, edges: OM.OMap<string, Targets<E>>)

  /** A validation result turned into the outcome of the operation. */
  function OutcomeOf(check: Option<GraphError>): (r: Outcome<GraphError>)
    ensures r.Pass? <==> check.None?
    ensures r.Fail? ==> check == Some(r.error)
  {
    match check
    case None => Pass
    case Some(e) => Fail(e)
  }

  /** `hasVertex(id)` */
  function HasVertex<V, E>(g: Graph<V, E>, id: string): bool
  {
    id in g.vertices.vals
  }

  /** `getVertex(id)`: `None` both for a missing vertex and for one without payload. */
  function GetVertex<V, E>(g: Graph<V, E>, id: string): Option<V>
  {
    if id in g.vertices.vals then g.vertices.vals[id] else None
  }

  /** `getDescendantIds(id)` without the existence check: the targets of `id`
      in the order their edges were added. */
  function Children<V, E>(g: Graph<V, E>, id: string): seq<string>
  {
    if id in g.edges.vals then g.edges.vals[id].keys else []
  }

  /** `hasEdge({from, to})` */
  function HasEdge<V, E>(g: Graph<V, E>, from: string, to: string): bool
  {
    from in g.edges.vals && to in g.edges.vals[from].vals
  }

  /** `getEdge({from, to})`: `None` both for a missing edge and for one without payload. */
  function GetEdge<V, E>(g: Graph<V, E>, from: string, to: string): Option<E>
  {
    if HasEdge(g, from, to) then g.edges.vals[from].vals[to] else None
  }

  /** The structural invariant: both tables and every target table are
      well-formed ordered maps (so at most one edge per ordered pair), no
      source keeps an empty target table, every endpoint is a vertex and no
      edge is a self-loop. */
  ghost predicate GraphValid<V, E>(g: Graph<V, E>)
  {
    && OM.Valid(g.vertices)
    && OM.Valid(g.edges)
    && (forall s :: s in g.edges.vals ==> OM.Valid(g.edges.vals[s]) && g.edges.vals[s].keys != [])
    && (forall s, t :: HasEdge(g, s, t) ==> HasVertex(g, s) && HasVertex(g, t) && s != t)
  }

  /** `hasVertex` agrees with the vertex order that `getVertexIds` walks,
      and `getVertex` of a missing vertex is `undefined`. */
  lemma VertexQueries<V, E>(g: Graph<V, E>, id: string)
    requires OM.Valid(g.vertices)
    ensures HasVertex(g, id) <==> id in g.vertices.keys
    ensures !HasVertex(g, id) ==> GetVertex(g, id) == None
  {
  }

  /** `hasEdge` agrees with the target order that `getDescendantIds` walks;
      an edge joins two distinct vertices; `getEdge` of a missing edge is
      `undefined`. */
  lemma EdgeQueries<V, E>(g: Graph<V, E>, s: string, t: string)
    requires GraphValid(g)
    ensures HasEdge(g, s, t) <==> t in Children(g, s)
    ensures HasEdge(g, s, t) ==> HasVertex(g, s) && HasVertex(g, t) && s != t
    ensures !HasEdge(g, s, t) ==> GetEdge(g, s, t) == None
  {
  }

  /** The sources among `srcs` with an edge into `id`, in the order of `srcs`. */
  function SourcesInto<E>(srcs: seq<string>, m: map<string, Targets<E>>, id: string): (r: seq<string>)
    ensures forall i :: 0 <= i < |r| ==> r[i] in srcs && r[i] in m && id in m[r[i]].vals
    ensures forall i :: 0 <= i < |srcs| && srcs[i] in m && id in m[srcs[i]].vals ==> srcs[i] in r
    ensures Distinct(srcs) ==> Distinct(r)
  {
    if srcs == [] then []
    else
      var init := srcs[..|srcs| - 1];
      var s := srcs[|srcs| - 1];
      var r := SourcesInto(init, m, id) + (if s in m && id in m[s].vals then [s] else []);
      assert srcs == init + [s];
      if Distinct(srcs) then
        assert Distinct(init) by {
          forall i, j | 0 <= i < j < |init| ensures init[i] != init[j] {
            assert init[i] == srcs[i] && init[j] == srcs[j];
          }
        }
        assert s !in init by {
          forall i | 0 <= i < |init| ensures init[i] != s {
            assert init[i] == srcs[i];
          }
        }
        DistinctAppend(SourcesInto(init, m, id), if s in m && id in m[s].vals then [s] else []);
        r
      else r
  }

  /** Walking the source order one key further adds that source when it has
      an edge into `id`. */
  lemma {:induction false} SourcesIntoStep<E>(srcs: seq<string>, m: map<string, Targets<E>>, id: string, i: nat)
    requires i < |srcs|
    ensures SourcesInto(srcs[..i + 1], m, id) ==
            SourcesInto(srcs[..i], m, id) + (if srcs[i] in m && id in m[srcs[i]].vals then [srcs[i]] else [])
  {
    assert srcs[..i + 1][..i] == srcs[..i];
  }

  /** `getAncestorIds(id)` without the existence check: the sources with an
      edge into `id`, in `#edges` key order. */
  function Parents<V, E>(g: Graph<V, E>, id: string): seq<string>
  {
    SourcesInto(g.edges.keys, g.edges.vals, id)
  }

  /** The edge ids from `s` to each of `ts`, in order. */
  function Pairs(s: string, ts: seq<string>): (r: seq<EdgeId>)
    ensures |r| == |ts|
    ensures forall k :: 0 <= k < |ts| ==> r[k] == EdgeId(s, ts[k])
  {
    seq(|ts|, k requires 0 <= k < |ts| => EdgeId(s, ts[k]))
  }

  /** The edges out of each of `srcs`, source by source. */
  function EdgesOut<E>(srcs: seq<string>, m: map<string, Targets<E>>): seq<EdgeId>
  {
    if srcs == [] then []
    else
      var s := srcs[|srcs| - 1];
      EdgesOut(srcs[..|srcs| - 1], m) + Pairs(s, if s in m then m[s].keys else [])
  }

  /** Walking the source order one key further appends that source's edges. */
  lemma {:induction false} EdgesOutStep<E>(srcs: seq<string>, m: map<string, Targets<E>>, i: nat)
    requires i < |srcs|
    ensures EdgesOut(srcs[..i + 1], m) ==
            EdgesOut(srcs[..i], m) + Pairs(srcs[i], if srcs[i] in m then m[srcs[i]].keys else [])
  {
    assert srcs[..i + 1][..i] == srcs[..i];
  }

  /** `getEdgeIds()`: source by source in `#edges` key order, targets in
      insertion order. */
  function EdgeList<V, E>(g: Graph<V, E>): seq<EdgeId>
  {
    EdgesOut(g.edges.keys, g.edges.vals)
  }

  /** The descendants of a vertex are exactly its edge targets, each once. */
  lemma ChildrenSpec<V, E>(g: Graph<V, E>, id: string)
    requires GraphValid(g)
    ensures forall t :: t in Children(g, id) <==> HasEdge(g, id, t)
    ensures Distinct(Children(g, id))
    ensures forall t :: t in Children(g, id) ==> HasVertex(g, t) && t != id
  {
  }

  /** The ancestors of a vertex are exactly the sources of its incoming
      edges, each once. */
  lemma ParentsSpec<V, E>(g: Graph<V, E>, id: string)
    requires GraphValid(g)
    ensures forall p :: p in Parents(g, id) <==> HasEdge(g, p, id)
    ensures Distinct(Parents(g, id))
    ensures forall p :: p in Parents(g, id) ==> HasVertex(g, p) && p != id
  {
    var ps := Parents(g, id);
    forall p ensures p in ps <==> HasEdge(g, p, id) {
      if p in ps {
        var i :| 0 <= i < |ps| && ps[i] == p;
      }
      if HasEdge(g, p, id) {
        var i :| 0 <= i < |g.edges.keys| && g.edges.keys[i] == p;
      }
    }
  }

  /** The edge ids from one source list exactly its targets, each once. */
  lemma {:induction false} PairsSpec(s: string, ts: seq<string>)
    requires Distinct(ts)
    ensures forall x, t :: EdgeId(x, t) in Pairs(s, ts) <==> x == s && t in ts
    ensures Distinct(Pairs(s, ts))
  {
    var ps := Pairs(s, ts);
    forall x, t ensures EdgeId(x, t) in ps <==> x == s && t in ts {
      if EdgeId(x, t) in ps {
        var k :| 0 <= k < |ps| && ps[k] == EdgeId(x, t);
      }
      if x == s && t in ts {
        var k :| 0 <= k < |ts| && ts[k] == t;
        assert ps[k] == EdgeId(s, t);
      }
    }
    forall i, j | 0 <= i < j < |ps| ensures ps[i] != ps[j] {
      assert ps[i].to == ts[i] && ps[j].to == ts[j];
    }
  }

  lemma {:induction false} EdgesOutSpec<E>(srcs: seq<string>, m: map<string, Targets<E>>)
    requires Distinct(srcs)
    requires forall s :: s in m ==> OM.Valid(m[s])
    ensures forall s, t :: EdgeId(s, t) in EdgesOut(srcs, m) <==> s in srcs && s in m && t in m[s].vals
    ensures Distinct(EdgesOut(srcs, m))
  {
    if srcs != [] {
      var init := srcs[..|srcs| - 1];
      var s := srcs[|srcs| - 1];
      assert srcs == init + [s];
      assert Distinct(init) && s !in init by {
        forall i, j | 0 <= i < j < |init| ensures init[i] != init[j] {
          assert init[i] == srcs[i] && init[j] == srcs[j];
        }
        forall i | 0 <= i < |init| ensures init[i] != s {
          assert init[i] == srcs[i];
        }
      }
      EdgesOutSpec(init, m);
      var ts := if s in m then m[s].keys else [];
      PairsSpec(s, ts);
      var ps := Pairs(s, ts);
      forall e | e in EdgesOut(init, m) ensures e !in ps {
        assert EdgeId(e.from, e.to) in EdgesOut(init, m);
      }
      DistinctAppend(EdgesOut(init, m), ps);
    }
  }

  /** Every edge is listed exactly once by `getEdgeIds()`. */
  lemma EdgeListSpec<V, E>(g: Graph<V, E>)
    requires GraphValid(g)
    ensures forall s, t :: EdgeId(s, t) in EdgeList(g) <==> HasEdge(g, s, t)
    ensures Distinct(EdgeList(g))
  {
    EdgesOutSpec(g.edges.keys, g.edges.vals);
  }
}
