/**
 The `DiGraph` store: a vertex table and an adjacency table that its methods
 update in place. Every mutator first runs its up-front check and, when the
 check fails, reports the error kind and leaves the store as it was; otherwise
 it applies the batch element by element, as the functions of `Batches`
 describe. Throwing an error is modelled as returning `Fail`/`Failure`.
 */
module Digraph {
  import opened Wrappers
  import opened Seqs
  import OM = OrderedMap
  import opened GraphState
  import opened Validation
  import opened Batches
  import opened Dicts

  class DiGraph<V, E> {
    /** `#vertices`: vertex id to payload, in insertion order. */
    var vertices: OM.OMap<string, Option<V>>
    /** `#edges`: source id to its targets, each in insertion order. */
    var edges: OM.OMap<string, Targets<E>>

    function State(): Graph<V, E>
      reads this
    {
      Graph(vertices, edges)
    }

    ghost predicate Valid()
      reads this
    {
      GraphValid(State())
    }

    constructor ()
      ensures Valid()
      ensures State() == Graph(OM.Empty(), OM.Empty())
    {
      vertices := OM.Empty();
      edges := OM.Empty();
    }

    /** `addVertices(...vertices)` */
    method AddVertices(vs: seq<VertexWithId<V>>) returns (r: Outcome<GraphError>)
      requires Valid()
      modifies this
      ensures Valid()
      ensures r == OutcomeOf(ValidateAddVertices(old(State()), VertexIds(vs)))
      ensures State() == if r.Pass? then Graph(InsertVertices(old(vertices), vs), old(edges)) else old(State())
    {
      var check := ValidateAddVertices(State(), VertexIds(vs));
      if check.Some? {
        return Fail(check.value);
      }
      ghost var g0 := State();
      var i := 0;
      while i < |vs|
        invariant 0 <= i <= |vs|
        invariant edges == g0.edges
        invariant InsertVertices(vertices, vs[i..]) == InsertVertices(g0.vertices, vs)
      {
        assert vs[i..][1..] == vs[i + 1..];
        vertices := OM.Set(vertices, vs[i].id, vs[i].vertex);
        i := i + 1;
      }
      assert vs[i..] == [];
      assert GraphValid(Graph(InsertVertices(g0.vertices, vs), g0.edges)) by {
        forall k | 0 <= k < |vs| ensures vs[k].id !in g0.vertices.vals {
          assert VertexIds(vs)[k] in VertexIds(vs);
        }
        InsertVerticesValid(g0, vs);
      }
      r := Pass;
    }

    /** `deleteVertices(...ids)`: after the up-front check, each id in turn
        loses its incoming edges (one `deleteEdges` per ancestor), its
        target table and its entry. A repeated id passes the check and then
        stops the loop with `NotFound` when `getAncestorIds` meets it again. */
    method DeleteVertices(ids: seq<string>) returns (r: Outcome<GraphError>)
      requires Valid()
      modifies this
      ensures Valid()
      ensures r == if ValidateVerticesExist(old(State()), ids).Some? then Fail(NotFound) else DeleteAll(old(State()), ids).outcome
      ensures State() == if ValidateVerticesExist(old(State()), ids).Some? then old(State()) else DeleteAll(old(State()), ids).graph
    {
      var check := ValidateVerticesExist(State(), ids);
      if check.Some? {
        return Fail(check.value);
      }
      ghost var g0 := State();
      var i := 0;
      while i < |ids|
        invariant 0 <= i <= |ids|
        invariant Valid()
        invariant DeleteAll(State(), ids[i..]) == DeleteAll(g0, ids)
      {
        var id := ids[i];
        assert ids[i..][0] == id && ids[i..][1..] == ids[i + 1..];
        var parents := GetAncestorIds(id);
        if parents.Failure? {
          return Fail(parents.error);
        }
        ghost var g1 := State();
        DeleteIncoming(id, parents.value);
        edges := OM.Delete(edges, id);
        vertices := OM.Delete(vertices, id);
        assert State() == RemoveVertex(g1, id);
        assert Valid() by {
          RemoveVertexEffect(g1, id);
        }
        i := i + 1;
      }
      assert ids[i..] == [];
      r := Pass;
    }

    /** The inner loop of `deleteVertices`: one `deleteEdges` per ancestor of
        `id`, each of which passes its check. */
    method DeleteIncoming(id: string, parents: seq<string>)
      requires Valid() && Distinct(parents)
      requires forall k :: 0 <= k < |parents| ==> HasEdge(State(), parents[k], id)
      modifies this
      ensures Valid()
      ensures State() == RemoveEdges(old(State()), Incoming(parents, id))
    {
      ghost var g1 := State();
      ghost var ins := Incoming(parents, id);
      var j := 0;
      while j < |parents|
        invariant 0 <= j <= |parents|
        invariant Valid()
        invariant RemoveEdges(State(), ins[j..]) == RemoveEdges(g1, ins)
        invariant forall k :: j <= k < |parents| ==> HasEdge(State(), parents[k], id)
      {
        ghost var before := State();
        assert ins[j..][0] == EdgeId(parents[j], id) && ins[j..][1..] == ins[j + 1..];
        DeleteOneEdge(parents[j], id);
        forall k | j + 1 <= k < |parents| ensures HasEdge(State(), parents[k], id) {
          assert parents[k] != parents[j];
          RemoveEdgeHasAt(before, EdgeId(parents[j], id), parents[k], id);
        }
        j := j + 1;
      }
      assert ins[j..] == [];
    }

    /** `deleteEdges({from, to})` with a batch of one edge that exists, as
        `deleteVertices` calls it. */
    method DeleteOneEdge(from: string, to: string)
      requires Valid() && HasEdge(State(), from, to)
      modifies this
      ensures Valid()
      ensures State() == RemoveEdge(old(State()), EdgeId(from, to))
    {
      ghost var before := State();
      assert forall e :: e in [EdgeId(from, to)] ==> HasEdge(before, e.from, e.to);
      var out := DeleteEdges([EdgeId(from, to)]);
      assert out.Pass?;
      assert [EdgeId(from, to)][1..] == [];
    }

    /** `updateVertex(vertex)` */
    method UpdateVertex(v: VertexWithId<V>) returns (r: Outcome<GraphError>)
      requires Valid()
      modifies this
      ensures Valid()
      ensures r == OutcomeOf(ValidateVerticesExist(old(State()), [v.id]))
      ensures State() == if r.Pass? then ReplaceVertex(old(State()), v) else old(State())
    {
      var check := ValidateVerticesExist(State(), [v.id]);
      if check.Some? {
        return Fail(check.value);
      }
      ReplaceVertexEffect(State(), v);
      vertices := OM.Set(vertices, v.id, v.vertex);
      r := Pass;
    }

    /** `addEdges(...edges)`, with the duplicate check corrected to compare
        ordered pairs. The source compares `${from}->${to}` strings and so
        also rejects, with `DuplicateInput`, a batch whose keys collide;
        `CheckDiffersOnlyOnKeyCollision` shows that is the only difference. */
    method AddEdges(es: seq<EdgeWithId<E>>) returns (r: Outcome<GraphError>)
      requires Valid()
      modifies this
      ensures Valid()
      ensures r == OutcomeOf(ValidateAddEdges(old(State()), es))
      ensures State() == if r.Pass? then AddEdgesTo(old(State()), es) else old(State())
    {
      var check := ValidateAddEdges(State(), es);
      if check.Some? {
        return Fail(check.value);
      }
      InsertEdges(es);
      r := Pass;
    }

    /** The loop of `addEdges` once the batch has passed its check. */
    method InsertEdges(es: seq<EdgeWithId<E>>)
      requires Valid() && Insertable(State(), es)
      modifies this
      ensures Valid()
      ensures State() == AddEdgesTo(old(State()), es)
    {
      ghost var g0 := State();
      assert GraphValid(AddEdgesTo(g0, es)) by {
        AddEdgesEffect(g0, es);
      }
      var i := 0;
      while i < |es|
        invariant 0 <= i <= |es|
        invariant AddEdgesTo(State(), es[i..]) == AddEdgesTo(g0, es)
      {
        var e := es[i];
        AddEdgeInPlace(State(), e);
        if e.from !in edges.vals {
          edges := OM.Set(edges, e.from, OM.Empty());
        }
        edges := OM.Set(edges, e.from, OM.Set(edges.vals[e.from], e.to, e.edge));
        assert es[i..][1..] == es[i + 1..];
        i := i + 1;
      }
      assert es[i..] == [];
    }

    /** `addEdges(edge)` with a batch of one edge, as `fromDict` calls it:
        the error is the first of the checks of `validateAddEdges` that the
        edge fails. */
    method AddOneEdge(e: EdgeWithId<E>) returns (r: Outcome<GraphError>)
      requires Valid()
      modifies this
      ensures Valid()
      ensures r == if e.from == e.to then Fail(SelfLoop)
                   else if !HasVertex(old(State()), e.from) || !HasVertex(old(State()), e.to) then Fail(NonexistentEndpoint)
                   else if HasEdge(old(State()), e.from, e.to) then Fail(AlreadyExists)
                   else Pass
      ensures State() == if r.Pass? then AddEdge(old(State()), e) else old(State())
    {
      ghost var before := State();
      ValidateOneEdge(before, e);
      r := AddEdges([e]);
      assert AddEdgesTo(before, [e]) == AddEdge(before, e) by {
        assert [e][1..] == [];
      }
    }

    /** `deleteEdges(...edgeIds)` */
    method DeleteEdges(ids: seq<EdgeId>) returns (r: Outcome<GraphError>)
      requires Valid()
      modifies this
      ensures Valid()
      ensures r == OutcomeOf(ValidateEdgesExist(old(State()), ids))
      ensures State() == if r.Pass? then RemoveEdges(old(State()), ids) else old(State())
    {
      var check := ValidateEdgesExist(State(), ids);
      if check.Some? {
        return Fail(check.value);
      }
      ghost var g0 := State();
      assert GraphValid(RemoveEdges(g0, ids)) by {
        RemoveEdgesEffect(g0, ids);
      }
      var i := 0;
      while i < |ids|
        invariant 0 <= i <= |ids|
        invariant RemoveEdges(State(), ids[i..]) == RemoveEdges(g0, ids)
      {
        var from, to := ids[i].from, ids[i].to;
        RemoveEdgeInPlace(State(), ids[i]);
        if from in edges.vals {
          edges := OM.Set(edges, from, OM.Delete(edges.vals[from], to));
          if |edges.vals[from].keys| == 0 {
            edges := OM.Delete(edges, from);
          }
        }
        assert ids[i..][1..] == ids[i + 1..];
        i := i + 1;
      }
      assert ids[i..] == [];
      r := Pass;
    }

    /** `updateEdge(edge)` */
    method UpdateEdge(e: EdgeWithId<E>) returns (r: Outcome<GraphError>)
      requires Valid()
      modifies this
      ensures Valid()
      ensures r == OutcomeOf(ValidateEdgesExist(old(State()), [EdgeId(e.from, e.to)]))
      ensures State() == if r.Pass? then ReplaceEdge(old(State()), e) else old(State())
    {
      var check := ValidateEdgesExist(State(), [EdgeId(e.from, e.to)]);
      if check.Some? {
        return Fail(check.value);
      }
      assert HasEdge(State(), e.from, e.to) by {
        assert EdgeId(e.from, e.to) in [EdgeId(e.from, e.to)];
      }
      ReplaceEdgeValid(State(), e);
      if e.from in edges.vals {
        edges := OM.Set(edges, e.from, OM.Set(edges.vals[e.from], e.to, e.edge));
      }
      r := Pass;
    }

    /** `getVertexIds()`, run to the end: every vertex id once, in insertion
        order. */
    method GetVertexIds() returns (ids: seq<string>)
      requires Valid()
      ensures ids == vertices.keys
      ensures Distinct(ids)
      ensures forall v :: v in ids <==> HasVertex(State(), v)
    {
      ids := [];
      var i := 0;
      while i < |vertices.keys|
        invariant 0 <= i <= |vertices.keys|
        invariant ids == vertices.keys[..i]
      {
        ids := ids + [vertices.keys[i]];
        i := i + 1;
      }
    }

    /** `getEdgeIds()`, run to the end: every edge id once, source by source
        in `#edges` order and targets in insertion order. */
    method GetEdgeIds() returns (ids: seq<EdgeId>)
      requires Valid()
      ensures ids == EdgeList(State())
      ensures Distinct(ids)
      ensures forall s, t :: EdgeId(s, t) in ids <==> HasEdge(State(), s, t)
    {
      ids := [];
      var srcs, m := edges.keys, edges.vals;
      var i := 0;
      while i < |srcs|
        invariant 0 <= i <= |srcs|
        invariant ids == EdgesOut(srcs[..i], m)
      {
        ids := AppendPairs(ids, srcs[i], m[srcs[i]].keys);
        EdgesOutStep(srcs, m, i);
        i := i + 1;
      }
      assert srcs[..i] == srcs;
      assert Distinct(ids) && forall s, t :: EdgeId(s, t) in ids <==> HasEdge(State(), s, t) by {
        EdgeListSpec(State());
      }
    }

    /** `getDescendantIds(id)`, run to the end: `NotFound` for a missing
        vertex, otherwise its targets in the order their edges were added. */
    method GetDescendantIds(id: string) returns (r: Result<seq<string>, GraphError>)
      requires Valid()
      ensures r == if HasVertex(State(), id) then Success(Children(State(), id)) else Failure(NotFound)
      ensures r.Success? ==> Distinct(r.value) && forall t :: t in r.value <==> HasEdge(State(), id, t)
    {
      var check := ValidateVerticesExist(State(), [id]);
      if check.Some? {
        return Failure(check.value);
      }
      assert id in [id];
      var children := [];
      if id in edges.vals {
        var targets := edges.vals[id];
        var i := 0;
        while i < |targets.keys|
          invariant 0 <= i <= |targets.keys|
          invariant children == targets.keys[..i]
        {
          children := children + [targets.keys[i]];
          i := i + 1;
        }
        assert targets.keys[..i] == targets.keys;
      }
      assert Distinct(children) && forall t :: t in children <==> HasEdge(State(), id, t) by {
        ChildrenSpec(State(), id);
      }
      r := Success(children);
    }

    /** `getAncestorIds(id)`, run to the end: `NotFound` for a missing
        vertex, otherwise the sources of its incoming edges in `#edges`
        order. */
    method GetAncestorIds(id: string) returns (r: Result<seq<string>, GraphError>)
      requires Valid()
      ensures r == if HasVertex(State(), id) then Success(Parents(State(), id)) else Failure(NotFound)
      ensures r.Success? ==> Distinct(r.value) && forall p :: p in r.value <==> HasEdge(State(), p, id)
    {
      var check := ValidateVerticesExist(State(), [id]);
      if check.Some? {
        return Failure(check.value);
      }
      assert id in [id];
      var parents := [];
      var i := 0;
      while i < |edges.keys|
        invariant 0 <= i <= |edges.keys|
        invariant parents == SourcesInto(edges.keys[..i], edges.vals, id)
      {
        var from := edges.keys[i];
        SourcesIntoStep(edges.keys, edges.vals, id, i);
        if id in edges.vals[from].vals {
          parents := parents + [from];
        }
        i := i + 1;
      }
      assert edges.keys[..i] == edges.keys;
      assert Distinct(parents) && forall p :: p in parents <==> HasEdge(State(), p, id) by {
        ParentsSpec(State(), id);
      }
      r := Success(parents);
    }

    /** `getDescendants(id)`, run to the end: the descendants of `id`, in
        order, each with its payload. */
    method GetDescendants(id: string) returns (r: Result<seq<VertexWithId<V>>, GraphError>)
      requires Valid()
      ensures r.Failure? <==> !HasVertex(State(), id)
      ensures r.Failure? ==> r.error == NotFound
      ensures r.Success? ==> |r.value| == |Children(State(), id)|
      ensures r.Success? ==> forall i :: 0 <= i < |r.value| ==>
                r.value[i] == VertexWithId(Children(State(), id)[i], GetVertex(State(), Children(State(), id)[i]))
                && HasEdge(State(), id, r.value[i].id)
    {
      var ids := GetDescendantIds(id);
      if ids.Failure? {
        return Failure(ids.error);
      }
      var out := WithPayloads(ids.value);
      r := Success(out);
    }

    /** `getAncestors(id)`, run to the end: the ancestors of `id`, in order,
        each with its payload. */
    method GetAncestors(id: string) returns (r: Result<seq<VertexWithId<V>>, GraphError>)
      requires Valid()
      ensures r.Failure? <==> !HasVertex(State(), id)
      ensures r.Failure? ==> r.error == NotFound
      ensures r.Success? ==> |r.value| == |Parents(State(), id)|
      ensures r.Success? ==> forall i :: 0 <= i < |r.value| ==>
                r.value[i] == VertexWithId(Parents(State(), id)[i], GetVertex(State(), Parents(State(), id)[i]))
                && HasEdge(State(), r.value[i].id, id)
    {
      var ids := GetAncestorIds(id);
      if ids.Failure? {
        return Failure(ids.error);
      }
      var out := WithPayloads(ids.value);
      r := Success(out);
    }

    /** Each id paired with its payload, as `getDescendants` and
        `getAncestors` yield them. */
    method WithPayloads(ids: seq<string>) returns (out: seq<VertexWithId<V>>)
      ensures |out| == |ids|
      ensures forall i :: 0 <= i < |ids| ==> out[i] == VertexWithId(ids[i], GetVertex(State(), ids[i]))
    {
      out := [];
      var i := 0;
      while i < |ids|
        invariant 0 <= i <= |ids|
        invariant |out| == i
        invariant forall k :: 0 <= k < i ==> out[k] == VertexWithId(ids[k], GetVertex(State(), ids[k]))
      {
        out := out + [VertexWithId(ids[i], if ids[i] in vertices.vals then vertices.vals[ids[i]] else None)];
        i := i + 1;
      }
    }

    /** `toDict()`: the vertex record and, for every source, the record of
        its targets; an absent payload becomes `None`. */
    method ToDict() returns (d: Dict<V, E>)
      requires Valid()
      ensures d == DictOf(State())
      ensures DictWellFormed(d)
    {
      var vs: map<string, Option<V>> := map[];
      var i := 0;
      while i < |vertices.keys|
        invariant 0 <= i <= |vertices.keys|
        invariant vs == OM.Restrict(vertices.keys[..i], vertices.vals)
      {
        OM.RestrictStep(vertices.keys, vertices.vals, i);
        vs := vs[vertices.keys[i] := vertices.vals[vertices.keys[i]]];
        i := i + 1;
      }
      assert vertices.keys[..i] == vertices.keys;
      OM.RestrictAll(vertices);
      var es: map<string, map<string, Option<E>>> := map[];
      i := 0;
      while i < |edges.keys|
        invariant 0 <= i <= |edges.keys|
        invariant es == Records(edges.keys[..i], edges.vals)
      {
        var from := edges.keys[i];
        var targets := edges.vals[from];
        ghost var done := es;
        es := es[from := map[]];
        var j := 0;
        while j < |targets.keys|
          invariant 0 <= j <= |targets.keys|
          invariant es == done[from := OM.Restrict(targets.keys[..j], targets.vals)]
        {
          OM.RestrictStep(targets.keys, targets.vals, j);
          es := es[from := es[from][targets.keys[j] := targets.vals[targets.keys[j]]]];
          j := j + 1;
        }
        assert targets.keys[..j] == targets.keys;
        OM.RestrictAll(targets);
        RecordsStep(edges.keys, edges.vals, i);
        i := i + 1;
      }
      assert edges.keys[..i] == edges.keys;
      RecordsAll(State());
      d := Dict(vs, es);
      DictOfValid(State());
    }

    /** `DiGraph.fromDict(dict)`: a new store holding the record's vertices,
        then its edges one `addEdges` call each, entries in an unspecified
        order. It fails, with the error of the first rejected edge, exactly
        when some edge is a self-loop or names a missing vertex. */
    static method FromDict(d: Dict<V, E>) returns (r: Result<DiGraph<V, E>, GraphError>)
      ensures r.Success? <==> DictWellFormed(d)
      ensures r.Failure? ==> r.error == SelfLoop || r.error == NonexistentEndpoint
      ensures r.Success? ==> fresh(r.value) && r.value.Valid() && DictOf(r.value.State()) == Trimmed(d)
    {
      var g := new DiGraph();
      g.LoadVertices(d.vertices);
      var out := g.LoadEdges(d);
      if out.Fail? {
        return Failure(out.error);
      }
      r := Success(g);
    }

    /** The vertex loop of `fromDict`: one `addVertices` call per entry. */
    method LoadVertices(vs: map<string, Option<V>>)
      requires Valid() && State() == Graph(OM.Empty(), OM.Empty())
      modifies this
      ensures Valid() && vertices.vals == vs && edges == OM.Empty()
    {
      var left := vs.Keys;
      while left != {}
        invariant Valid() && edges == OM.Empty()
        invariant left <= vs.Keys
        invariant vertices.vals == vs - left
        decreases |left|
      {
        var id :| id in left;
        ghost var before := vertices;
        var v := VertexWithId(id, vs[id]);
        assert VertexIds([v]) == [id];
        ValidateOneVertex(State(), id);
        var out := AddVertices([v]);
        assert InsertVertices(before, [v]) == OM.Set(before, id, vs[id]) by {
          assert [v][1..] == [];
        }
        MapMinusStep(vs, left, id);
        left := left - {id};
      }
    }

    /** The edge loop of `fromDict`: every record of targets in turn. */
    method LoadEdges(d: Dict<V, E>) returns (r: Outcome<GraphError>)
      requires Valid() && vertices.vals == d.vertices && edges == OM.Empty()
      modifies this
      ensures Valid() && vertices.vals == d.vertices
      ensures r.Pass? <==> DictWellFormed(d)
      ensures r.Fail? ==> r.error == SelfLoop || r.error == NonexistentEndpoint
      ensures r.Pass? ==> DictOf(State()).edges == TrimEdges(d.edges)
    {
      var srcs := d.edges.Keys;
      assert d.edges - srcs == map[];
      while srcs != {}
        invariant Valid() && vertices.vals == d.vertices
        invariant srcs <= d.edges.Keys
        invariant DictOf(State()).edges == TrimEdges(d.edges - srcs)
        invariant forall s, t :: s in d.edges && s !in srcs && t in d.edges[s] ==> EntryWellFormed(d, s, t)
        decreases |srcs|
      {
        var from :| from in srcs;
        var out := AddTargets(d, from, d.edges - srcs);
        if out.Fail? {
          return out;
        }
        MapMinusStep(d.edges, srcs, from);
        srcs := srcs - {from};
      }
      assert d.edges - srcs == d.edges;
      r := Pass;
    }

    /** The inner edge loop of `fromDict`: one `addEdges` call per target of
        `from`, stopping at the first that is rejected. */
    method AddTargets(d: Dict<V, E>, from: string, ghost rest: map<string, map<string, Option<E>>>) returns (r: Outcome<GraphError>)
      requires Valid() && vertices.vals == d.vertices
      requires from in d.edges && from !in rest
      requires DictOf(State()).edges == TrimEdges(rest)
      modifies this
      ensures Valid() && vertices.vals == d.vertices
      ensures r.Pass? <==> forall t :: t in d.edges[from] ==> EntryWellFormed(d, from, t)
      ensures r.Fail? ==> r.error == SelfLoop || r.error == NonexistentEndpoint
      ensures r.Pass? ==> DictOf(State()).edges == TrimEdges(rest[from := d.edges[from]])
    {
      var targets := d.edges[from];
      var tgts := targets.Keys;
      TrimEdgesNothingLoaded(rest, from, targets);
      while tgts != {}
        invariant Valid() && vertices.vals == d.vertices
        invariant tgts <= targets.Keys
        invariant DictOf(State()).edges == TrimEdges(rest[from := targets - tgts])
        invariant forall t :: t in targets && t !in tgts ==> EntryWellFormed(d, from, t)
        decreases |tgts|
      {
        var to :| to in tgts;
        ghost var before := State();
        var e := EdgeWithId(from, to, targets[to]);
        LoadEdgeStep(before, rest, targets - tgts, e);
        var out := AddOneEdge(e);
        if out.Fail? {
          return out;
        }
        MapMinusStep(targets, tgts, to);
        tgts := tgts - {to};
      }
      assert targets - tgts == targets;
      r := Pass;
    }
  }

  /** The inner loop of `getEdgeIds()`: the edges from `from` to each of
      `targets`, appended in order. */
  method AppendPairs(ids: seq<EdgeId>, from: string, targets: seq<string>) returns (r: seq<EdgeId>)
    ensures r == ids + Pairs(from, targets)
  {
    r := ids;
    var j := 0;
    while j < |targets|
      invariant 0 <= j <= |targets|
      invariant r == ids + Pairs(from, targets[..j])
    {
      assert Pairs(from, targets[..j + 1]) == Pairs(from, targets[..j]) + [EdgeId(from, targets[j])];
      r := r + [EdgeId(from, targets[j])];
      j := j + 1;
    }
    assert targets[..j] == targets;
  }

  /** The two writes `addEdges` makes for one edge (create the source's
      table if it has none, then set the target in it) amount to one
      `AddEdge`. */
  lemma {:induction false} AddEdgeInPlace<V, E>(g: Graph<V, E>, e: EdgeWithId<E>)
    ensures var m := if e.from in g.edges.vals then g.edges else OM.Set(g.edges, e.from, OM.Empty());
            Graph(g.vertices, OM.Set(m, e.from, OM.Set(m.vals[e.from], e.to, e.edge))) == AddEdge(g, e)
  {
    var m := if e.from in g.edges.vals then g.edges else OM.Set(g.edges, e.from, OM.Empty());
    var m' := OM.Set(m, e.from, OM.Set(m.vals[e.from], e.to, e.edge));
    assert m'.vals == AddEdge(g, e).edges.vals;
  }

  /** The writes `deleteEdges` makes for one edge id (delete the target in
      the source's table, then drop the table if it is empty) amount to one
      `RemoveEdge`. */
  lemma {:induction false} RemoveEdgeInPlace<V, E>(g: Graph<V, E>, id: EdgeId)
    ensures
      var m := if id.from in g.edges.vals then OM.Set(g.edges, id.from, OM.Delete(g.edges.vals[id.from], id.to)) else g.edges;
      var m' := if id.from in m.vals && |m.vals[id.from].keys| == 0 then OM.Delete(m, id.from) else m;
      Graph(g.vertices, m') == RemoveEdge(g, id)
  {
    if id.from in g.edges.vals {
      var m := OM.Set(g.edges, id.from, OM.Delete(g.edges.vals[id.from], id.to));
      if |m.vals[id.from].keys| == 0 {
        assert OM.Delete(m, id.from).vals == g.edges.vals - {id.from};
      }
    }
  }

  /** `DiGraph.fromDict(graph.toDict())` succeeds and rebuilds a store with
      the same vertices, edges and payloads. */
  method ToDictFromDict<V, E>(g: DiGraph<V, E>) returns (h: DiGraph<V, E>)
    requires g.Valid()
    ensures fresh(h) && h.Valid()
    ensures DictOf(h.State()) == DictOf(g.State())
    ensures forall v :: HasVertex(h.State(), v) <==> HasVertex(g.State(), v)
    ensures forall v :: GetVertex(h.State(), v) == GetVertex(g.State(), v)
    ensures forall s, t :: HasEdge(h.State(), s, t) <==> HasEdge(g.State(), s, t)
    ensures forall s, t :: GetEdge(h.State(), s, t) == GetEdge(g.State(), s, t)
  {
    var d := g.ToDict();
    DictOfValid(g.State());
    var r := DiGraph.FromDict(d);
    h := r.value;
    SameDictSameGraph(h.State(), g.State());
  }

  /** `DiGraph.fromDict(dict).toDict()` gives back the record without its
      empty edge records, and fails exactly on an ill-formed record. */
  method FromDictToDict<V, E>(d: Dict<V, E>) returns (r: Option<Dict<V, E>>)
    ensures r.Some? <==> DictWellFormed(d)
    ensures r.Some? ==> r.value == Trimmed(d) && DictWellFormed(r.value)
  {
    var g := DiGraph.FromDict(d);
    if g.Failure? {
      return None;
    }
    var d' := g.value.ToDict();
    r := Some(d');
  }
}
