/**
 The plain-object form of a graph that `toDict` produces and `fromDict`
 consumes: a record from vertex id to payload and a record from source id to
 a record from target id to payload. Records are unordered here; a missing
 payload (`undefined` in the store, `null` in the record) is `None`.
 */
module Dicts {
  import opened Wrappers
  import OM = OrderedMap
  import opened GraphState
  import opened Batches

  datatype Dict<V, E> = Dict(vertices: map<string, Option<V>>, edges: map<string, map<string, Option<E>>>)

  /** What `toDict` returns for a graph. */
  function DictOf<V, E>(g: Graph<V, E>): Dict<V, E>
  {
    Dict(g.vertices.vals, map s | s in g.edges.vals :: g.edges.vals[s].vals)
  }

  /** The entry for the edge from `s` to `t` joins two distinct vertices. */
  predicate EntryWellFormed<V, E>(d: Dict<V, E>, s: string, t: string)
  {
    s != t && s in d.vertices && t in d.vertices
  }

  /** Every edge of the record joins two distinct vertices of the record:
      exactly the records `fromDict` accepts. */
  predicate DictWellFormed<V, E>(d: Dict<V, E>)
  {
    forall s, t :: s in d.edges && t in d.edges[s] ==> EntryWellFormed(d, s, t)
  }

  /** The sources with at least one target. */
  function TrimEdges<E>(m: map<string, map<string, Option<E>>>): (r: map<string, map<string, Option<E>>>)
    ensures forall s :: s in r <==> s in m && m[s] != map[]
    ensures forall s :: s in r ==> r[s] == m[s]
  {
    map s | s in m && m[s] != map[] :: m[s]
  }

  /** The record without its empty edge records, which `fromDict` cannot
      reproduce. */
  function Trimmed<V, E>(d: Dict<V, E>): (r: Dict<V, E>)
    ensures r.vertices == d.vertices
    ensures forall s, t :: (s in r.edges && t in r.edges[s]) <==> (s in d.edges && t in d.edges[s])
    ensures forall s :: s in r.edges ==> s in d.edges && r.edges[s] == d.edges[s] && r.edges[s] != map[]
  {
    Dict(d.vertices, TrimEdges(d.edges))
  }

  /** The record of a graph that keeps the invariant is well-formed and has
      no empty edge record. */
  lemma {:induction false} DictOfValid<V, E>(g: Graph<V, E>)
    requires GraphValid(g)
    ensures DictWellFormed(DictOf(g))
    ensures Trimmed(DictOf(g)) == DictOf(g)
  {
    var d := DictOf(g);
    forall s, t | s in d.edges && t in d.edges[s] ensures EntryWellFormed(d, s, t) {
      assert d.edges[s] == g.edges.vals[s].vals;
      assert HasEdge(g, s, t);
    }
    forall s | s in d.edges ensures d.edges[s] != map[] {
      var ts := g.edges.vals[s];
      assert ts.keys[0] in ts.vals;
      assert ts.keys[0] in d.edges[s];
    }
    assert TrimEdges(d.edges) == d.edges;
  }

  /** Trimming keeps a record well-formed exactly when it was. */
  lemma {:induction false} TrimmedWellFormed<V, E>(d: Dict<V, E>)
    ensures DictWellFormed(Trimmed(d)) <==> DictWellFormed(d)
  {
    var r := Trimmed(d);
    if !DictWellFormed(d) {
      var s, t :| s in d.edges && t in d.edges[s] && !EntryWellFormed(d, s, t);
      assert s in r.edges && t in r.edges[s] && !EntryWellFormed(r, s, t);
    }
    if !DictWellFormed(r) {
      var s, t :| s in r.edges && t in r.edges[s] && !EntryWellFormed(r, s, t);
      assert s in d.edges && t in d.edges[s] && !EntryWellFormed(d, s, t);
    }
  }

  /** The record of a graph fixes every query the store answers apart from
      the orders: two graphs with the same record have the same vertices,
      edges and payloads. */
  lemma {:induction false} SameDictSameGraph<V, E>(g: Graph<V, E>, h: Graph<V, E>)
    requires DictOf(g) == DictOf(h)
    ensures forall v :: HasVertex(g, v) <==> HasVertex(h, v)
    ensures forall v :: GetVertex(g, v) == GetVertex(h, v)
    ensures forall s, t :: HasEdge(g, s, t) <==> HasEdge(h, s, t)
    ensures forall s, t :: GetEdge(g, s, t) == GetEdge(h, s, t)
  {
    assert g.vertices.vals == DictOf(g).vertices == DictOf(h).vertices == h.vertices.vals;
    forall s, t ensures HasEdge(g, s, t) <==> HasEdge(h, s, t) {
      if s in g.edges.vals {
        assert s in DictOf(h).edges;
        assert DictOf(g).edges[s] == g.edges.vals[s].vals;
      }
      if s in h.edges.vals {
        assert s in DictOf(g).edges;
        assert DictOf(h).edges[s] == h.edges.vals[s].vals;
      }
    }
    forall s, t ensures GetEdge(g, s, t) == GetEdge(h, s, t) {
      if HasEdge(g, s, t) {
        assert DictOf(g).edges[s] == g.edges.vals[s].vals;
        assert DictOf(h).edges[s] == h.edges.vals[s].vals;
      }
    }
  }

  /** Inserting one edge adds exactly that entry to the record. */
  lemma {:induction false} DictOfAddEdge<V, E>(g: Graph<V, E>, e: EdgeWithId<E>)
    ensures DictOf(AddEdge(g, e)).vertices == DictOf(g).vertices
    ensures DictOf(AddEdge(g, e)).edges ==
              DictOf(g).edges[e.from := (if e.from in DictOf(g).edges then DictOf(g).edges[e.from] else map[])[e.to := e.edge]]
  {
    var g' := AddEdge(g, e);
    var m := DictOf(g).edges;
    var m' := m[e.from := (if e.from in m then m[e.from] else map[])[e.to := e.edge]];
    assert DictOf(g').edges == m' by {
      forall s | s in m' ensures s in DictOf(g').edges && DictOf(g').edges[s] == m'[s] {
      }
    }
  }

  /** Setting a non-empty record commutes with trimming. */
  lemma {:induction false} TrimEdgesSet<E>(m: map<string, map<string, Option<E>>>, s: string, x: map<string, Option<E>>)
    requires x != map[]
    ensures TrimEdges(m[s := x]) == TrimEdges(m)[s := x]
  {
  }

  /** While the record of `s` is only partly loaded, the graph's record of
      `s` is the loaded part, and no edge to a target outside it exists. */
  lemma {:induction false} PartlyLoaded<V, E>(g: Graph<V, E>, rest: map<string, map<string, Option<E>>>, s: string, done: map<string, Option<E>>, t: string)
    requires DictOf(g).edges == TrimEdges(rest[s := done])
    requires t !in done
    ensures (if s in DictOf(g).edges then DictOf(g).edges[s] else map[]) == done
    ensures !HasEdge(g, s, t)
  {
    var m := DictOf(g).edges;
    if s in g.edges.vals {
      assert s in m && m[s] == g.edges.vals[s].vals;
    }
  }

  /** One step of the inner edge loop of `fromDict`: while the record of
      `e.from` is only partly loaded and lacks `e.to`, the edge is new, and
      adding it extends the loaded part by that one entry. */
  lemma {:induction false} LoadEdgeStep<V, E>(g: Graph<V, E>, rest: map<string, map<string, Option<E>>>, done: map<string, Option<E>>, e: EdgeWithId<E>)
    requires DictOf(g).edges == TrimEdges(rest[e.from := done])
    requires e.to !in done
    ensures !HasEdge(g, e.from, e.to)
    ensures DictOf(AddEdge(g, e)).edges == TrimEdges(rest[e.from := done[e.to := e.edge]])
  {
    PartlyLoaded(g, rest, e.from, done, e.to);
    DictOfAddEdge(g, e);
    TrimEdgesSet(rest[e.from := done], e.from, done[e.to := e.edge]);
    assert rest[e.from := done][e.from := done[e.to := e.edge]] == rest[e.from := done[e.to := e.edge]];
  }

  /** Taking one more key out of the pending set adds its entry back. */
  lemma MapMinusStep<T>(m: map<string, T>, pending: set<string>, k: string)
    requires k in pending && k in m
    ensures (m - pending)[k := m[k]] == m - (pending - {k})
  {
  }

  /** Before any target of `s` is loaded, its record adds nothing. */
  lemma TrimEdgesNothingLoaded<E>(m: map<string, map<string, Option<E>>>, s: string, targets: map<string, Option<E>>)
    requires s !in m
    ensures TrimEdges(m[s := targets - targets.Keys]) == TrimEdges(m)
  {
    assert targets - targets.Keys == map[];
  }

  /** The target records of the sources listed in `srcs`. */
  function Records<E>(srcs: seq<string>, m: map<string, Targets<E>>): map<string, map<string, Option<E>>>
  {
    map s | s in srcs && s in m :: m[s].vals
  }

  /** Walking the source order one key further adds that source's record. */
  lemma RecordsStep<E>(srcs: seq<string>, m: map<string, Targets<E>>, i: nat)
    requires i < |srcs| && srcs[i] in m
    ensures Records(srcs[..i + 1], m) == Records(srcs[..i], m)[srcs[i] := m[srcs[i]].vals]
  {
    assert srcs[..i + 1] == srcs[..i] + [srcs[i]];
  }

  /** Walking the whole source order gives the edge record of `toDict`. */
  lemma RecordsAll<V, E>(g: Graph<V, E>)
    requires OM.Valid(g.edges)
    ensures Records(g.edges.keys, g.edges.vals) == DictOf(g).edges
  {
  }
}
