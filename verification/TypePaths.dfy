/** Configuration paths through the TypeId graph: utils/print-introspected-doxygen.cc. */
module TypePaths {
  import opened Permutations
  import opened Wrappers

  // `StaticInformation.DoGather` is a depth-first search that is cut only by the types on
  // its own stack, so it revisits a type once for every way of reaching it.  The walks of
  // this file are the independent definition it is proved against: a walk is a list of edge
  // numbers, so two parallel edges with one label are two walks.

  datatype TypeId = TypeId(uid: nat)

  /** What the two `dynamic_cast`s on an attribute's checker can find. */
  datatype Checker =
    | PointerChecker(pointee: TypeId)
    | ObjectPtrContainerChecker(item: TypeId)
    | OtherChecker

  datatype Attribute = Attribute(name: string, checker: Checker)

  /** An outgoing edge: the path component it pushes and the type it leads to. */
  datatype Edge = Edge(name: string, target: TypeId)

  datatype Entry = Entry(tid: TypeId, path: string)

  /** The TypeId registry.  `childOf` holds (child, ancestor) for every `child.IsChildOf(ancestor)`. */
  datatype Registry = Registry(
    objectTypeId: TypeId,
    registered: seq<TypeId>,
    names: map<TypeId, string>,
    attributes: map<TypeId, seq<Attribute>>,
    childOf: set<(TypeId, TypeId)>)
  {
    ghost predicate Valid() {
      && (forall t <- registered :: t in names && t in attributes)
      && (forall t <- registered :: forall a <- attributes[t] ::
            && (a.checker.PointerChecker? ==> a.checker.pointee in registered)
            && (a.checker.ObjectPtrContainerChecker? ==> a.checker.item in registered))
    }

    ghost function Universe(): set<TypeId> { set t | t in registered }

    /** `TypeId::LookupByNameFailSafe`. */
    function LookupByName(name: string): (tid: Option<TypeId>)
      ensures tid.Some? ==> tid.value in registered && tid.value in names && names[tid.value] == name
      ensures tid.None? ==> forall t <- registered :: t in names ==> names[t] != name
    {
      FirstNamed(registered, name)
    }

    function FirstNamed(types: seq<TypeId>, name: string): (tid: Option<TypeId>)
      ensures tid.Some? ==> tid.value in types && tid.value in names && names[tid.value] == name
      ensures tid.None? ==> forall t <- types :: t in names ==> names[t] != name
    {
      if types == [] then None
      else if types[0] in names && names[types[0]] == name then Some(types[0])
      else FirstNamed(types[1..], name)
    }
  }

  /** The multigraph the search runs on: a registry plus the recorded aggregations. */
  datatype Graph = Graph(registry: Registry, aggregates: seq<(TypeId, TypeId)>)
  {
    ghost predicate Valid() {
      && registry.Valid()
      && forall p <- aggregates :: p.0 in registry.registered && p.1 in registry.registered
    }

    /** Pointer attributes to plain Object are skipped; containers are not. */
    function AttributeEdge(a: Attribute): seq<Edge> {
      match a.checker
      case PointerChecker(pointee) =>
        if pointee == registry.objectTypeId then [] else [Edge(a.name, pointee)]
      case ObjectPtrContainerChecker(item) => [Edge(a.name + "/[i]", item)]
      case OtherChecker => []
    }

    function AttributeEdges(attributes: seq<Attribute>): seq<Edge> {
      if attributes == [] then []
      else AttributeEdges(attributes[..|attributes| - 1]) + AttributeEdge(attributes[|attributes| - 1])
    }

    function NameOf(t: TypeId): string {
      if t in registry.names then registry.names[t] else ""
    }

    function ChildEdge(tid: TypeId, child: TypeId): seq<Edge> {
      if (child, tid) in registry.childOf then [Edge("$" + NameOf(child), child)] else []
    }

    function ChildEdges(tid: TypeId, types: seq<TypeId>): seq<Edge> {
      if types == [] then []
      else ChildEdges(tid, types[..|types| - 1]) + ChildEdge(tid, types[|types| - 1])
    }

    /** The second test of the source wins: an aggregation of a type with itself leads back to it. */
    function AggregateEdge(tid: TypeId, pair: (TypeId, TypeId)): seq<Edge> {
      if pair.1 == tid then [Edge("$" + NameOf(pair.0), pair.0)]
      else if pair.0 == tid then [Edge("$" + NameOf(pair.1), pair.1)]
      else []
    }

    function AggregateEdges(tid: TypeId, pairs: seq<(TypeId, TypeId)>): seq<Edge> {
      if pairs == [] then []
      else AggregateEdges(tid, pairs[..|pairs| - 1]) + AggregateEdge(tid, pairs[|pairs| - 1])
    }

    /** Every edge out of `tid`, in the order the three loops of the search take them. */
    function Edges(tid: TypeId): seq<Edge> {
      if tid !in registry.attributes then []
      else AttributeEdges(registry.attributes[tid])
           + ChildEdges(tid, registry.registered)
           + AggregateEdges(tid, aggregates)
    }

    // What the edges are, from the registry alone.

    /** A pointer attribute, but not to plain Object, leads to its pointee, a container attribute to its items. */
    ghost predicate IsAttributeEdge(a: Attribute, e: Edge) {
      || (a.checker.PointerChecker? && a.checker.pointee != registry.objectTypeId
          && e.target == a.checker.pointee && e.name == a.name)
      || (a.checker.ObjectPtrContainerChecker? && e.target == a.checker.item && e.name == a.name + "/[i]")
    }

    ghost predicate LeadsOn(a: Attribute) {
      a.checker.ObjectPtrContainerChecker? || (a.checker.PointerChecker? && a.checker.pointee != registry.objectTypeId)
    }

    /** From `tid` to a type that is a child of it. */
    ghost predicate IsChildEdge(tid: TypeId, child: TypeId, e: Edge) {
      (child, tid) in registry.childOf && e.target == child
      && child in registry.names && e.name == "$" + registry.names[child]
    }

    /** From either type of an aggregated pair to the other one. */
    ghost predicate IsAggregateEdge(tid: TypeId, pair: (TypeId, TypeId), e: Edge) {
      (pair == (tid, e.target) || pair == (e.target, tid))
      && e.target in registry.names && e.name == "$" + registry.names[e.target]
    }

    ghost function LeadingOn(attributes: seq<Attribute>): set<nat> {
      set i: nat | i < |attributes| && LeadsOn(attributes[i])
    }

    ghost function Children(tid: TypeId, types: seq<TypeId>): set<nat> {
      set i: nat | i < |types| && (types[i], tid) in registry.childOf
    }

    ghost function Partners(tid: TypeId, pairs: seq<(TypeId, TypeId)>): set<nat> {
      set i: nat | i < |pairs| && (pairs[i].0 == tid || pairs[i].1 == tid)
    }

    lemma NextLeadingOn(attributes: seq<Attribute>)
      requires attributes != []
      ensures var n := |attributes| - 1;
              && LeadingOn(attributes)
                 == (if LeadsOn(attributes[n]) then LeadingOn(attributes[..n]) + {n} else LeadingOn(attributes[..n]))
              && forall i :: i in LeadingOn(attributes[..n]) ==> i < n
    {
      hide LeadsOn;
      var n := |attributes| - 1;
      assert forall i :: 0 <= i < n ==> attributes[i] == attributes[..n][i];
    }

    lemma NextChild(tid: TypeId, types: seq<TypeId>)
      requires types != []
      ensures var n := |types| - 1;
              && Children(tid, types)
                 == (if (types[n], tid) in registry.childOf then Children(tid, types[..n]) + {n}
                     else Children(tid, types[..n]))
              && forall i :: i in Children(tid, types[..n]) ==> i < n
    {
      var n := |types| - 1;
      assert forall i :: 0 <= i < n ==> types[i] == types[..n][i];
    }

    lemma NextPartner(tid: TypeId, pairs: seq<(TypeId, TypeId)>)
      requires pairs != []
      ensures var n := |pairs| - 1;
              && Partners(tid, pairs)
                 == (if pairs[n].0 == tid || pairs[n].1 == tid then Partners(tid, pairs[..n]) + {n}
                     else Partners(tid, pairs[..n]))
              && forall i :: i in Partners(tid, pairs[..n]) ==> i < n
    {
      var n := |pairs| - 1;
      assert forall i :: 0 <= i < n ==> pairs[i] == pairs[..n][i];
    }

    lemma OneAttributeEdge(a: Attribute)
      ensures |AttributeEdge(a)| == if LeadsOn(a) then 1 else 0
      ensures LeadsOn(a) ==> IsAttributeEdge(a, AttributeEdge(a)[0])
    {
    }

    lemma OneChildEdge(tid: TypeId, child: TypeId)
      requires child in registry.names
      ensures |ChildEdge(tid, child)| == if (child, tid) in registry.childOf then 1 else 0
      ensures (child, tid) in registry.childOf ==> IsChildEdge(tid, child, ChildEdge(tid, child)[0])
    {
    }

    lemma OneAggregateEdge(tid: TypeId, pair: (TypeId, TypeId))
      requires pair.0 in registry.names && pair.1 in registry.names
      ensures |AggregateEdge(tid, pair)| == if pair.0 == tid || pair.1 == tid then 1 else 0
      ensures pair.0 == tid || pair.1 == tid ==> IsAggregateEdge(tid, pair, AggregateEdge(tid, pair)[0])
    {
    }

    /** The edges belong to the attributes at these positions. */
    ghost predicate Belong(attributes: seq<Attribute>, at: seq<nat>, edges: seq<Edge>) {
      |edges| == |at|
      && forall k :: 0 <= k < |at| ==> at[k] < |attributes| && IsAttributeEdge(attributes[at[k]], edges[k])
    }

    lemma BelongToo(attributes: seq<Attribute>, at: seq<nat>, edges: seq<Edge>)
      requires attributes != [] && Belong(attributes[..|attributes| - 1], at, edges)
      ensures Belong(attributes, at, edges)
    {
      hide IsAttributeEdge;
    }

    lemma OneMoreBelongs(attributes: seq<Attribute>, at: seq<nat>, edges: seq<Edge>, e: Edge)
      requires attributes != [] && Belong(attributes, at, edges)
      requires IsAttributeEdge(attributes[|attributes| - 1], e)
      ensures Belong(attributes, at + [|attributes| - 1], edges + [e])
    {
      hide IsAttributeEdge;
    }

    lemma AttributeEdgesInTurn(attributes: seq<Attribute>)
      requires attributes != []
      ensures var edges, last := AttributeEdges(attributes[..|attributes| - 1]), attributes[|attributes| - 1];
              AttributeEdges(attributes) == if LeadsOn(last) then edges + [AttributeEdge(last)[0]] else edges
    {
      var last := attributes[|attributes| - 1];
      OneAttributeEdge(last);
      assert LeadsOn(last) ==> AttributeEdge(last) == [AttributeEdge(last)[0]];
      hide AttributeEdge, LeadsOn;
    }

    /** One edge for every attribute that leads on, in the order of the attributes. */
    lemma {:induction false} AttributeEdgesExactly(attributes: seq<Attribute>) returns (at: seq<nat>)
      ensures Positions(at, LeadingOn(attributes)) && Belong(attributes, at, AttributeEdges(attributes))
    {
      at := [];
      if attributes == [] {
        NoPositions(LeadingOn(attributes));
      } else {
        hide *;
        var n := |attributes| - 1;
        var front := attributes[..n];
        at := AttributeEdgesExactly(front);
        BelongToo(attributes, at, AttributeEdges(front));
        AttributeEdgesInTurn(attributes);
        NextLeadingOn(attributes);
        OneAttributeEdge(attributes[n]);
        if LeadsOn(attributes[n]) {
          OneMoreBelongs(attributes, at, AttributeEdges(front), AttributeEdge(attributes[n])[0]);
          NextPosition(at, LeadingOn(front), n);
          at := at + [n];
        }
      }
    }

    /** One edge for every registered child, in the order of registration. */
    lemma {:induction false} ChildEdgesExactly(tid: TypeId, types: seq<TypeId>) returns (at: seq<nat>)
      requires forall t <- types :: t in registry.names
      ensures Positions(at, Children(tid, types)) && forall k :: 0 <= k < |at| ==> at[k] < |types|
      ensures |ChildEdges(tid, types)| == |at|
      ensures forall k :: 0 <= k < |at| ==> IsChildEdge(tid, types[at[k]], ChildEdges(tid, types)[k])
    {
      hide ChildEdge, IsChildEdge, Positions;
      at := [];
      if types == [] {
        NoPositions(Children(tid, types));
      } else {
        var n := |types| - 1;
        var front := types[..n];
        at := ChildEdgesExactly(tid, front);
        assert forall k :: 0 <= k < |at| ==> types[at[k]] == front[at[k]];
        NextChild(tid, types);
        assert types[n] in types;
        OneChildEdge(tid, types[n]);
        hide Children;
        if (types[n], tid) in registry.childOf {
          NextPosition(at, Children(tid, front), n);
          at := at + [n];
        }
      }
    }

    /** One edge for every pair that `tid` is in, in the order of recording. */
    lemma {:induction false} AggregateEdgesExactly(tid: TypeId, pairs: seq<(TypeId, TypeId)>) returns (at: seq<nat>)
      requires forall p <- pairs :: p.0 in registry.names && p.1 in registry.names
      ensures Positions(at, Partners(tid, pairs)) && forall k :: 0 <= k < |at| ==> at[k] < |pairs|
      ensures |AggregateEdges(tid, pairs)| == |at|
      ensures forall k :: 0 <= k < |at| ==> IsAggregateEdge(tid, pairs[at[k]], AggregateEdges(tid, pairs)[k])
    {
      hide AggregateEdge, IsAggregateEdge, Positions;
      at := [];
      if pairs == [] {
        NoPositions(Partners(tid, pairs));
      } else {
        var n := |pairs| - 1;
        var front := pairs[..n];
        at := AggregateEdgesExactly(tid, front);
        assert forall k :: 0 <= k < |at| ==> pairs[at[k]] == front[at[k]];
        NextPartner(tid, pairs);
        assert pairs[n] in pairs;
        OneAggregateEdge(tid, pairs[n]);
        hide Partners;
        if pairs[n].0 == tid || pairs[n].1 == tid {
          NextPosition(at, Partners(tid, front), n);
          at := at + [n];
        }
      }
    }

    /** The edges out of `tid`: those of its attributes, then those to its children, then those of its aggregations. */
    lemma EdgesExactly(tid: TypeId) returns (attributes: seq<nat>, children: seq<nat>, pairs: seq<nat>)
      requires Valid() && tid in registry.registered
      ensures Positions(attributes, LeadingOn(registry.attributes[tid]))
      ensures forall k :: 0 <= k < |attributes| ==> attributes[k] < |registry.attributes[tid]|
      ensures Positions(children, Children(tid, registry.registered))
      ensures forall k :: 0 <= k < |children| ==> children[k] < |registry.registered|
      ensures Positions(pairs, Partners(tid, aggregates))
      ensures forall k :: 0 <= k < |pairs| ==> pairs[k] < |aggregates|
      ensures var edges, m, n := Edges(tid), |attributes|, |attributes| + |children|;
              && |edges| == n + |pairs|
              && (forall k :: 0 <= k < m ==> IsAttributeEdge(registry.attributes[tid][attributes[k]], edges[k]))
              && (forall k :: 0 <= k < |children| ==>
                    IsChildEdge(tid, registry.registered[children[k]], edges[m + k]))
              && (forall k :: 0 <= k < |pairs| ==> IsAggregateEdge(tid, aggregates[pairs[k]], edges[n + k]))
    {
      hide AttributeEdges, ChildEdges, AggregateEdges, IsAttributeEdge, IsChildEdge, IsAggregateEdge, LeadsOn;
      attributes := AttributeEdgesExactly(registry.attributes[tid]);
      children := ChildEdgesExactly(tid, registry.registered);
      pairs := AggregateEdgesExactly(tid, aggregates);
    }

    /** An edge leaves `tid` exactly if it is one of these. */
    lemma EdgeExactly(tid: TypeId, e: Edge)
      requires Valid() && tid in registry.registered
      ensures e in Edges(tid)
         <==> || (exists a :: a in registry.attributes[tid] && IsAttributeEdge(a, e))
              || (e.target in registry.registered && IsChildEdge(tid, e.target, e))
              || (exists pair :: pair in aggregates && IsAggregateEdge(tid, pair, e))
    {
      AttributeEdgeExactly(registry.attributes[tid], e);
      ChildEdgeExactly(tid, registry.registered, e);
      AggregateEdgeExactly(tid, aggregates, e);
      hide AttributeEdges, ChildEdges, AggregateEdges, IsAttributeEdge, IsChildEdge, IsAggregateEdge;
    }

    lemma {:induction false} AttributeEdgeExactly(attributes: seq<Attribute>, e: Edge)
      ensures e in AttributeEdges(attributes) <==> exists a :: a in attributes && IsAttributeEdge(a, e)
    {
      if attributes != [] {
        var front, last := attributes[..|attributes| - 1], attributes[|attributes| - 1];
        AttributeEdgeExactly(front, e);
        assert attributes == front + [last];
        assert forall a :: a in attributes <==> a in front || a == last;
        assert e in AttributeEdge(last) <==> IsAttributeEdge(last, e);
      }
    }

    lemma {:induction false} ChildEdgeExactly(tid: TypeId, types: seq<TypeId>, e: Edge)
      requires forall t <- types :: t in registry.names
      ensures e in ChildEdges(tid, types) <==> e.target in types && IsChildEdge(tid, e.target, e)
    {
      if types != [] {
        ChildEdgeExactly(tid, types[..|types| - 1], e);
        assert types == types[..|types| - 1] + [types[|types| - 1]];
      }
    }

    lemma {:induction false} AggregateEdgeExactly(tid: TypeId, pairs: seq<(TypeId, TypeId)>, e: Edge)
      requires forall p <- pairs :: p.0 in registry.names && p.1 in registry.names
      ensures e in AggregateEdges(tid, pairs) <==> exists pair :: pair in pairs && IsAggregateEdge(tid, pair, e)
    {
      if pairs != [] {
        var front, last := pairs[..|pairs| - 1], pairs[|pairs| - 1];
        AggregateEdgeExactly(tid, front, e);
        assert pairs == front + [last];
        assert forall pair :: pair in pairs <==> pair in front || pair == last;
        AggregateEdgeIs(tid, last, e);
        assert e in AggregateEdges(tid, pairs) <==> e in AggregateEdges(tid, front) || e in AggregateEdge(tid, last);
        hide AggregateEdges, AggregateEdge, IsAggregateEdge;
      }
    }

    lemma AggregateEdgeIs(tid: TypeId, pair: (TypeId, TypeId), e: Edge)
      requires pair.0 in registry.names && pair.1 in registry.names
      ensures e in AggregateEdge(tid, pair) <==> IsAggregateEdge(tid, pair, e)
    {
    }

    // Walks from a type, as lists of edge numbers.

    ghost predicate IsWalk(tid: TypeId, walk: seq<nat>)
      decreases walk
    {
      walk == [] || (walk[0] < |Edges(tid)| && IsWalk(Edges(tid)[walk[0]].target, walk[1..]))
    }

    ghost function Visited(tid: TypeId, walk: seq<nat>): seq<TypeId>
      decreases walk
    {
      [tid] + if walk == [] || walk[0] >= |Edges(tid)| then []
              else Visited(Edges(tid)[walk[0]].target, walk[1..])
    }

    ghost function Labels(tid: TypeId, walk: seq<nat>): seq<string>
      decreases walk
    {
      if walk == [] || walk[0] >= |Edges(tid)| then []
      else var e := Edges(tid)[walk[0]]; [e.name] + Labels(e.target, walk[1..])
    }

    ghost function Endpoint(tid: TypeId, walk: seq<nat>): TypeId {
      var visited := Visited(tid, walk);
      visited[|visited| - 1]
    }

    /** A simple labelled path: it follows edges and never meets a type twice. */
    ghost predicate IsSimpleWalk(tid: TypeId, walk: seq<nat>) {
      IsWalk(tid, walk) && Distinct(Visited(tid, walk))
    }

    ghost predicate IsSimpleOutside(tid: TypeId, walk: seq<nat>, stack: seq<TypeId>) {
      IsSimpleWalk(tid, walk) && Disjoint(Visited(tid, walk), stack)
    }

    /** What the search records for one walk when `prefix` is already on the path. */
    ghost function EntryFor(prefix: seq<string>, tid: TypeId, walk: seq<nat>): Entry {
      Entry(Endpoint(tid, walk), Render(prefix + Labels(tid, walk)))
    }

    ghost function EntriesFor(prefix: seq<string>, tid: TypeId, walks: seq<seq<nat>>): seq<Entry> {
      seq(|walks|, i requires 0 <= i < |walks| => EntryFor(prefix, tid, walks[i]))
    }

    // The search itself, as a list of walks.

    ghost function Remaining(stack: seq<TypeId>): nat {
      |registry.Universe() - Elements(stack)|
    }

    ghost function Search(tid: TypeId, stack: seq<TypeId>): seq<seq<nat>>
      requires Valid() && tid in registry.registered
      decreases Remaining(stack), 1, 0
    {
      if tid in stack then []
      else
        RemainingDrops(stack, tid);
        [[]] + SearchEdges(tid, |Edges(tid)|, stack + [tid])
    }

    /** The walks that leave `tid` by one of its first `n` edges. */
    ghost function SearchEdges(tid: TypeId, n: nat, stack: seq<TypeId>): seq<seq<nat>>
      requires Valid() && tid in registry.registered && n <= |Edges(tid)|
      decreases Remaining(stack), 2, n
    {
      if n == 0 then []
      else
        EdgesAreRegistered(tid);
        SearchEdges(tid, n - 1, stack) + Prepend(n - 1, Search(Edges(tid)[n - 1].target, stack))
    }

    lemma EdgesAreRegistered(tid: TypeId)
      requires Valid() && tid in registry.registered
      ensures forall e <- Edges(tid) :: e.target in registry.registered
    {
      AttributeEdgesAreRegistered(tid, |registry.attributes[tid]|);
      ChildEdgesAreRegistered(tid, |registry.registered|);
      AggregateEdgesAreRegistered(tid, |aggregates|);
      var attributes := registry.attributes[tid];
      assert attributes[..|attributes|] == attributes;
      assert registry.registered[..|registry.registered|] == registry.registered;
      assert aggregates[..|aggregates|] == aggregates;
    }

    lemma AttributeEdgesAreRegistered(tid: TypeId, n: nat)
      requires Valid() && tid in registry.registered && n <= |registry.attributes[tid]|
      ensures forall e <- AttributeEdges(registry.attributes[tid][..n]) :: e.target in registry.registered
    {
      if n > 0 {
        AttributeEdgesAreRegistered(tid, n - 1);
        assert registry.attributes[tid][..n][..n - 1] == registry.attributes[tid][..n - 1];
        assert registry.attributes[tid][n - 1] in registry.attributes[tid];
      }
    }

    lemma ChildEdgesAreRegistered(tid: TypeId, n: nat)
      requires n <= |registry.registered|
      ensures forall e <- ChildEdges(tid, registry.registered[..n]) :: e.target in registry.registered
    {
      if n > 0 {
        ChildEdgesAreRegistered(tid, n - 1);
        assert registry.registered[..n][..n - 1] == registry.registered[..n - 1];
      }
    }

    lemma AggregateEdgesAreRegistered(tid: TypeId, n: nat)
      requires Valid() && n <= |aggregates|
      ensures forall e <- AggregateEdges(tid, aggregates[..n]) :: e.target in registry.registered
    {
      if n > 0 {
        AggregateEdgesAreRegistered(tid, n - 1);
        assert aggregates[..n][..n - 1] == aggregates[..n - 1];
        assert aggregates[n - 1] in aggregates;
      }
    }

    /** The real termination measure: pushing a type that is not on the stack uses one up. */
    lemma RemainingDrops(stack: seq<TypeId>, tid: TypeId)
      requires tid in registry.registered && tid !in stack
      ensures Remaining(stack + [tid]) < Remaining(stack)
    {
      var before := registry.Universe() - Elements(stack);
      assert registry.Universe() - Elements(stack + [tid]) == before - {tid};
      assert tid in before;
    }

    // The loops of the search walk through `Edges` from front to back.

    ghost predicate EdgeAt(tid: TypeId, n: nat, e: Edge) {
      n < |Edges(tid)| && Edges(tid)[n] == e
    }

    /** A pass of a loop takes the search from edge `n` to edge `n'`, along `more`. */
    ghost predicate Steps(tid: TypeId, n: nat, n': nat, more: seq<Edge>) {
      n' == n + |more| && n' <= |Edges(tid)| && Edges(tid)[n..n'] == more
    }

    lemma StepOne(tid: TypeId, n: nat, n': nat, e: Edge)
      requires Steps(tid, n, n', [e])
      ensures n' == n + 1 && EdgeAt(tid, n, e)
    {
      assert Edges(tid)[n..n'][0] == Edges(tid)[n];
    }

    lemma {:induction false} AttributePrefix(tid: TypeId, i: nat)
      requires tid in registry.attributes && i < |registry.attributes[tid]|
      ensures var attributes := registry.attributes[tid];
              && AttributeEdges(attributes[..i + 1]) == AttributeEdges(attributes[..i]) + AttributeEdge(attributes[i])
              && AttributeEdges(attributes[..i + 1]) <= Edges(tid)
      decreases |registry.attributes[tid]| - i
    {
      var attributes := registry.attributes[tid];
      assert attributes[..i + 1][..i] == attributes[..i];
      if i + 1 < |attributes| {
        AttributePrefix(tid, i + 1);
      } else {
        assert attributes[..i + 1] == attributes;
      }
    }

    lemma AttributeStep(tid: TypeId, i: nat)
      requires Valid() && tid in registry.registered && i < |registry.attributes[tid]|
      ensures var attributes := registry.attributes[tid];
              Steps(tid, |AttributeEdges(attributes[..i])|, |AttributeEdges(attributes[..i + 1])|,
                    AttributeEdge(attributes[i]))
    {
      AttributePrefix(tid, i);
      PrefixSteps(tid, [], AttributeEdges(registry.attributes[tid][..i]), AttributeEdge(registry.attributes[tid][i]));
    }

    lemma {:induction false} ChildPrefix(tid: TypeId, j: nat)
      requires tid in registry.attributes && j < |registry.registered|
      ensures var attributes, types := registry.attributes[tid], registry.registered;
              && ChildEdges(tid, types[..j + 1]) == ChildEdges(tid, types[..j]) + ChildEdge(tid, types[j])
              && AttributeEdges(attributes) + ChildEdges(tid, types[..j + 1]) <= Edges(tid)
      decreases |registry.registered| - j
    {
      var types := registry.registered;
      assert types[..j + 1][..j] == types[..j];
      if j + 1 < |types| {
        ChildPrefix(tid, j + 1);
      } else {
        assert types[..j + 1] == types;
      }
    }

    lemma ChildStep(tid: TypeId, j: nat)
      requires Valid() && tid in registry.registered && j < |registry.registered|
      ensures registry.registered[j] in registry.names
      ensures var types, base := registry.registered, |AttributeEdges(registry.attributes[tid])|;
              Steps(tid, base + |ChildEdges(tid, types[..j])|, base + |ChildEdges(tid, types[..j + 1])|,
                    ChildEdge(tid, types[j]))
    {
      assert registry.registered[j] in registry.registered;
      ChildPrefix(tid, j);
      PrefixSteps(tid, AttributeEdges(registry.attributes[tid]),
                  ChildEdges(tid, registry.registered[..j]), ChildEdge(tid, registry.registered[j]));
    }

    lemma {:induction false} AggregatePrefix(tid: TypeId, k: nat)
      requires tid in registry.attributes && k < |aggregates|
      ensures && AggregateEdges(tid, aggregates[..k + 1])
                 == AggregateEdges(tid, aggregates[..k]) + AggregateEdge(tid, aggregates[k])
              && AttributeEdges(registry.attributes[tid]) + ChildEdges(tid, registry.registered)
                 + AggregateEdges(tid, aggregates[..k + 1]) <= Edges(tid)
      decreases |aggregates| - k
    {
      hide AttributeEdges, ChildEdges, AggregateEdge;
      assert aggregates[..k + 1][..k] == aggregates[..k];
      if k + 1 < |aggregates| {
        AggregatePrefix(tid, k + 1);
        assert aggregates[..k + 2][..k + 1] == aggregates[..k + 1];
      } else {
        assert aggregates[..k + 1] == aggregates;
      }
    }

    lemma AggregateStep(tid: TypeId, k: nat)
      requires Valid() && tid in registry.registered && k < |aggregates|
      ensures aggregates[k].0 in registry.names && aggregates[k].1 in registry.names
      ensures var base := |AttributeEdges(registry.attributes[tid])| + |ChildEdges(tid, registry.registered)|;
              Steps(tid, base + |AggregateEdges(tid, aggregates[..k])|,
                    base + |AggregateEdges(tid, aggregates[..k + 1])|, AggregateEdge(tid, aggregates[k]))
    {
      hide AttributeEdges, ChildEdges, AggregateEdges, AggregateEdge, Edges, Steps;
      assert aggregates[k] in aggregates;
      AggregatePrefix(tid, k);
      PrefixSteps(tid, AttributeEdges(registry.attributes[tid]) + ChildEdges(tid, registry.registered),
                  AggregateEdges(tid, aggregates[..k]), AggregateEdge(tid, aggregates[k]));
    }

    lemma EdgeCounts(tid: TypeId)
      requires tid in registry.attributes
      ensures AttributeEdges(registry.attributes[tid][..0]) == []
      ensures ChildEdges(tid, registry.registered[..0]) == AggregateEdges(tid, aggregates[..0]) == []
      ensures |Edges(tid)| == |AttributeEdges(registry.attributes[tid])|
                + |ChildEdges(tid, registry.registered)| + |AggregateEdges(tid, aggregates)|
    {
    }

    lemma PrefixSteps(tid: TypeId, base: seq<Edge>, done: seq<Edge>, more: seq<Edge>)
      requires base + (done + more) <= Edges(tid)
      ensures Steps(tid, |base| + |done|, |base| + |done + more|, more)
    {
      hide Edges;
      assert Edges(tid)[|base| + |done|..|base| + |done| + |more|] == more;
    }

    /** The search stands at `tid`, below the types of `stack`. */
    ghost predicate Searching(tid: TypeId, stack: seq<TypeId>) {
      Valid() && tid in registry.registered && tid !in stack
    }

    /** `output` holds, after `before`, the entry for `tid` and what lies below its first `n` edges. */
    ghost predicate Followed(output: seq<Entry>, before: seq<Entry>, prefix: seq<string>, tid: TypeId,
                             n: nat, stack: seq<TypeId>)
      requires Searching(tid, stack)
    {
      n <= |Edges(tid)| && output == before + EntriesFor(prefix, tid, [[]] + SearchEdges(tid, n, stack + [tid]))
    }

    lemma TargetIsReady(tid: TypeId, n: nat, stack: seq<TypeId>, e: Edge)
      requires Searching(tid, stack) && EdgeAt(tid, n, e)
      ensures Valid() && e.target in registry.registered && Remaining(stack + [tid]) < Remaining(stack)
    {
      EdgesAreRegistered(tid);
      RemainingDrops(stack, tid);
    }

    /** Following edge `n` appends what the search below that edge records. */
    lemma FollowOne(output: seq<Entry>, before: seq<Entry>, prefix: seq<string>, tid: TypeId, n: nat,
                    stack: seq<TypeId>, e: Edge)
      requires Searching(tid, stack) && EdgeAt(tid, n, e) && e.target in registry.registered
      requires Followed(output, before, prefix, tid, n, stack)
      ensures Followed(output + EntriesFor(prefix + [e.name], e.target, Search(e.target, stack + [tid])),
                       before, prefix, tid, n + 1, stack)
    {
      hide Search, SearchEdges, EntriesFor, Prepend, Edges, Valid;
      var down := stack + [tid];
      SearchEdgesStep(tid, n, down);
      EntriesBelow(prefix, tid, n, Search(e.target, down));
      EntriesOfConcat(prefix, tid, SearchEdges(tid, n, down), Prepend(n, Search(e.target, down)));
    }

    lemma SearchEdgesNone(tid: TypeId, stack: seq<TypeId>)
      requires Valid() && tid in registry.registered
      ensures SearchEdges(tid, 0, stack) == [] && PreorderedBelow(SearchEdges(tid, 0, stack), 0)
    {
    }

    lemma SearchEdgesStep(tid: TypeId, n: nat, stack: seq<TypeId>)
      requires Valid() && tid in registry.registered && n < |Edges(tid)|
      ensures Edges(tid)[n].target in registry.registered
      ensures SearchEdges(tid, n + 1, stack)
           == SearchEdges(tid, n, stack) + Prepend(n, Search(Edges(tid)[n].target, stack))
    {
      EdgesAreRegistered(tid);
    }

    lemma EntriesBelow(prefix: seq<string>, tid: TypeId, n: nat, below: seq<seq<nat>>)
      requires n < |Edges(tid)|
      ensures var e := Edges(tid)[n];
              EntriesFor(prefix, tid, Prepend(n, below)) == EntriesFor(prefix + [e.name], e.target, below)
    {
      var e := Edges(tid)[n];
      forall i | 0 <= i < |below|
        ensures EntryFor(prefix, tid, Prepend(n, below)[i]) == EntryFor(prefix + [e.name], e.target, below[i])
      {
        EntryStep(prefix, tid, n, below[i]);
      }
    }

    lemma EntryStep(prefix: seq<string>, tid: TypeId, n: nat, walk: seq<nat>)
      requires n < |Edges(tid)|
      ensures var e := Edges(tid)[n];
              EntryFor(prefix, tid, [n] + walk) == EntryFor(prefix + [e.name], e.target, walk)
    {
      var e := Edges(tid)[n];
      assert ([n] + walk)[1..] == walk;
      assert prefix + Labels(tid, [n] + walk) == prefix + [e.name] + Labels(e.target, walk);
      assert Visited(tid, [n] + walk) == [tid] + Visited(e.target, walk);
    }

    lemma FollowNone(before: seq<Entry>, prefix: seq<string>, tid: TypeId, stack: seq<TypeId>)
      requires Searching(tid, stack)
      ensures Followed(before + [Entry(tid, Render(prefix))], before, prefix, tid, 0, stack)
      ensures SearchEdges(tid, 0, stack + [tid]) == []
    {
      assert prefix + Labels(tid, []) == prefix;
      assert Visited(tid, []) == [tid];
    }

    lemma FollowedAll(output: seq<Entry>, before: seq<Entry>, prefix: seq<string>, tid: TypeId, stack: seq<TypeId>)
      requires Searching(tid, stack) && Followed(output, before, prefix, tid, |Edges(tid)|, stack)
      ensures output == before + EntriesFor(prefix, tid, Search(tid, stack))
    {
      RemainingDrops(stack, tid);
      assert Search(tid, stack) == [[]] + SearchEdges(tid, |Edges(tid)|, stack + [tid]);
      hide EntriesFor, Search, SearchEdges, Valid, Edges;
    }

    lemma EntriesOfConcat(prefix: seq<string>, tid: TypeId, a: seq<seq<nat>>, b: seq<seq<nat>>)
      ensures EntriesFor(prefix, tid, [[]] + (a + b))
              == EntriesFor(prefix, tid, [[]] + a) + EntriesFor(prefix, tid, b)
    {
      Regroup([[]], a, b);
      EntriesSplit(prefix, tid, [[]] + a, b);
      hide EntriesFor;
    }

    lemma EntriesSplit(prefix: seq<string>, tid: TypeId, a: seq<seq<nat>>, b: seq<seq<nat>>)
      ensures EntriesFor(prefix, tid, a + b) == EntriesFor(prefix, tid, a) + EntriesFor(prefix, tid, b)
    {
      hide EntryFor;
    }

    lemma SearchUnfolds(tid: TypeId, stack: seq<TypeId>, walk: seq<nat>)
      requires Valid() && tid in registry.registered
      ensures walk in Search(tid, stack)
         <==> tid !in stack && (walk == [] || walk in SearchEdges(tid, |Edges(tid)|, stack + [tid]))
    {
      hide Edges, SearchEdges;
      if tid !in stack {
        var below := SearchEdges(tid, |Edges(tid)|, stack + [tid]);
        assert walk in [[]] + below <==> walk == [] || walk in below;
      }
    }

    lemma OutsideUnfolds(tid: TypeId, walk: seq<nat>, stack: seq<TypeId>)
      ensures IsSimpleOutside(tid, walk, stack)
         <==> && tid !in stack
              && (walk == []
                  || (walk[0] < |Edges(tid)|
                      && IsSimpleOutside(Edges(tid)[walk[0]].target, walk[1..], stack + [tid])))
    {
      hide Edges;
      if tid in stack {
        assert Visited(tid, walk)[0] == tid;
      } else if walk == [] {
        assert Visited(tid, walk) == [tid];
      } else if walk[0] < |Edges(tid)| {
        ConsDistinct(tid, Visited(Edges(tid)[walk[0]].target, walk[1..]), stack);
      }
    }

    /** Soundness and completeness of the search below a stack. */
    lemma {:induction false} SearchIsExact(tid: TypeId, stack: seq<TypeId>, walk: seq<nat>)
      requires Valid() && tid in registry.registered
      ensures walk in Search(tid, stack)
         <==> IsSimpleOutside(tid, walk, stack)
      decreases Remaining(stack), 1, 0
    {
      hide *;
      SearchUnfolds(tid, stack, walk);
      OutsideUnfolds(tid, walk, stack);
      if tid !in stack {
        RemainingDrops(stack, tid);
        SearchEdgesIsExact(tid, |Edges(tid)|, stack + [tid], walk);
      }
    }

    lemma {:induction false} SearchEdgesIsExact(tid: TypeId, n: nat, stack: seq<TypeId>, walk: seq<nat>)
      requires Valid() && tid in registry.registered && n <= |Edges(tid)|
      ensures walk in SearchEdges(tid, n, stack)
         <==> walk != [] && walk[0] < n && IsSimpleOutside(Edges(tid)[walk[0]].target, walk[1..], stack)
      decreases Remaining(stack), 2, n
    {
      hide *;
      if n == 0 {
        SearchEdgesNone(tid, stack);
      } else {
        SearchEdgesStep(tid, n - 1, stack);
        var target := Edges(tid)[n - 1].target;
        var fewer, last := SearchEdges(tid, n - 1, stack), Prepend(n - 1, Search(target, stack));
        SearchEdgesIsExact(tid, n - 1, stack, walk);
        PrependMembers(n - 1, Search(target, stack), walk);
        if walk != [] {
          SearchIsExact(target, stack, walk[1..]);
        }
      }
    }

    /** The search meets walks in strict preorder, so it meets none twice. */
    lemma {:induction false} SearchIsPreorder(tid: TypeId, stack: seq<TypeId>)
      requires Valid() && tid in registry.registered
      ensures StrictlyPreordered(Search(tid, stack))
      decreases Remaining(stack), 1, 0
    {
      if tid !in stack {
        RemainingDrops(stack, tid);
        SearchEdgesIsPreorder(tid, |Edges(tid)|, stack + [tid]);
        RootFirst(SearchEdges(tid, |Edges(tid)|, stack + [tid]), |Edges(tid)|);
      }
    }

    lemma {:induction false} SearchEdgesIsPreorder(tid: TypeId, n: nat, stack: seq<TypeId>)
      requires Valid() && tid in registry.registered && n <= |Edges(tid)|
      ensures PreorderedBelow(SearchEdges(tid, n, stack), n)
      decreases Remaining(stack), 2, n
    {
      hide *;
      if n == 0 {
        SearchEdgesNone(tid, stack);
      } else {
        SearchEdgesStep(tid, n - 1, stack);
        SearchEdgesIsPreorder(tid, n - 1, stack);
        SearchIsPreorder(Edges(tid)[n - 1].target, stack);
        NextEdge(SearchEdges(tid, n - 1, stack), n - 1, Search(Edges(tid)[n - 1].target, stack));
      }
    }

    /** `walks` lists the simple walks from `tid`, each exactly once, parents before children. */
    ghost predicate Enumerates(walks: seq<seq<nat>>, tid: TypeId) {
      && StrictlyPreordered(walks)
      && forall walk :: walk in walks <==> IsSimpleWalk(tid, walk)
    }

    lemma SearchEnumerates(tid: TypeId)
      requires Valid() && tid in registry.registered
      ensures Enumerates(Search(tid, []), tid)
    {
      SearchIsPreorder(tid, []);
      forall walk ensures walk in Search(tid, []) <==> IsSimpleWalk(tid, walk) {
        SearchIsExact(tid, [], walk);
      }
    }

    /** What `Get` reports for `t` once `root` was gathered: the paths of the simple walks ending in `t`. */
    lemma GatheredPaths(root: TypeId, walks: seq<seq<nat>>, t: TypeId, path: string)
      requires Enumerates(walks, root)
      ensures path in PathsOf(EntriesFor([], root, walks), t)
         <==> exists walk :: IsSimpleWalk(root, walk) && EntryFor([], root, walk) == Entry(t, path)
    {
      var entries := EntriesFor([], root, walks);
      PathsOfMembers(entries, t, path);
      if Entry(t, path) in entries {
        var i :| 0 <= i < |entries| && entries[i] == Entry(t, path);
        assert walks[i] in walks;
      }
      forall walk | IsSimpleWalk(root, walk) && EntryFor([], root, walk) == Entry(t, path)
        ensures Entry(t, path) in entries
      {
        var i :| 0 <= i < |walks| && walks[i] == walk;
        assert entries[i] == Entry(t, path);
      }
    }

    /** The root is recorded without a path, and the target of each of its edges with the name of that edge. */
    lemma DirectEntries(root: TypeId, walks: seq<seq<nat>>, e: Edge)
      requires Valid() && root in registry.registered && Enumerates(walks, root)
      ensures Entry(root, "") in EntriesFor([], root, walks)
      ensures e in Edges(root) && e.target != root ==> Entry(e.target, "/" + e.name) in EntriesFor([], root, walks)
    {
      hide Edges, IsSimpleWalk;
      IsRecorded(root, walks, []);
      NoSteps(root);
      if e in Edges(root) && e.target != root {
        var n :| 0 <= n < |Edges(root)| && Edges(root)[n] == e;
        OneStep(root, n);
        IsRecorded(root, walks, [n]);
      }
    }

    lemma IsRecorded(root: TypeId, walks: seq<seq<nat>>, walk: seq<nat>)
      requires Enumerates(walks, root)
      ensures IsSimpleWalk(root, walk) ==> EntryFor([], root, walk) in EntriesFor([], root, walks)
    {
      hide EntryFor, IsSimpleWalk;
      if IsSimpleWalk(root, walk) {
        var i :| 0 <= i < |walks| && walks[i] == walk;
        assert EntriesFor([], root, walks)[i] == EntryFor([], root, walk);
      }
    }

    lemma NoSteps(root: TypeId)
      ensures IsSimpleWalk(root, []) && EntryFor([], root, []) == Entry(root, "")
    {
      assert Visited(root, []) == [root];
      assert [] + Labels(root, []) == [];
    }

    lemma OneStep(root: TypeId, n: nat)
      requires n < |Edges(root)| && Edges(root)[n].target != root
      ensures IsSimpleWalk(root, [n])
      ensures EntryFor([], root, [n]) == Entry(Edges(root)[n].target, "/" + Edges(root)[n].name)
    {
      var e := Edges(root)[n];
      OneStepWalk(root, n);
      OneStepLabels(root, n);
      RenderInTurn([], [e.name]);
      hide Edges, IsWalk, Visited, Labels, Render;
    }

    lemma OneStepWalk(root: TypeId, n: nat)
      requires n < |Edges(root)| && Edges(root)[n].target != root
      ensures IsWalk(root, [n]) && Visited(root, [n]) == [root, Edges(root)[n].target]
    {
      hide Edges;
      var e := Edges(root)[n];
      assert [n][1..] == [];
      assert IsWalk(e.target, []) && Visited(e.target, []) == [e.target];
    }

    lemma OneStepLabels(root: TypeId, n: nat)
      requires n < |Edges(root)|
      ensures [] + Labels(root, [n]) == [Edges(root)[n].name]
    {
      hide Edges;
      assert [n][1..] == [] && Labels(Edges(root)[n].target, []) == [];
    }

    /** Every registered child of the root is recorded under its own name. */
    lemma ChildrenAreRecorded(root: TypeId, walks: seq<seq<nat>>, child: TypeId)
      requires Valid() && root in registry.registered && Enumerates(walks, root)
      requires child in registry.registered && (child, root) in registry.childOf && child != root
      ensures child in registry.names && Entry(child, "/$" + registry.names[child]) in EntriesFor([], root, walks)
    {
      hide Edges, Enumerates, EntriesFor, IsAttributeEdge, IsAggregateEdge;
      var e := Edge("$" + registry.names[child], child);
      EdgeExactly(root, e);
      DirectEntries(root, walks, e);
      SlashDollar(registry.names[child]);
    }

    lemma SlashDollar(name: string)
      ensures "/" + ("$" + name) == "/$" + name
    {
    }

    lemma NearestAreRecorded(root: TypeId, walks: seq<seq<nat>>)
      requires Valid() && root in registry.registered && Enumerates(walks, root)
      ensures Entry(root, "") in EntriesFor([], root, walks)
      ensures forall child :: child in registry.registered && (child, root) in registry.childOf && child != root ==>
                child in registry.names && Entry(child, "/$" + registry.names[child]) in EntriesFor([], root, walks)
    {
      DirectEntries(root, walks, Edge("", root));
      forall child | child in registry.registered && (child, root) in registry.childOf && child != root
        ensures child in registry.names && Entry(child, "/$" + registry.names[child]) in EntriesFor([], root, walks)
      {
        ChildrenAreRecorded(root, walks, child);
      }
      hide Enumerates, EntriesFor;
    }

    /** Only one list satisfies `Enumerates`, so it determines the recorded output. */
    lemma {:induction false} EnumerationIsUnique(one: seq<seq<nat>>, two: seq<seq<nat>>, tid: TypeId)
      requires Enumerates(one, tid) && Enumerates(two, tid)
      ensures one == two
    {
      PreorderedListsAgree(one, two);
    }

    /** A simple walk is shorter than the number of registered types. */
    lemma {:induction false} SimpleWalksAreShort(tid: TypeId, walk: seq<nat>)
      requires Valid() && tid in registry.registered && IsSimpleWalk(tid, walk)
      ensures |walk| < |registry.Universe()|
    {
      VisitedIsRegistered(tid, walk);
      DistinctFits(Visited(tid, walk), registry.Universe());
    }

    lemma {:induction false} VisitedIsRegistered(tid: TypeId, walk: seq<nat>)
      requires Valid() && tid in registry.registered && IsWalk(tid, walk)
      ensures |Visited(tid, walk)| == |walk| + 1
      ensures forall t <- Visited(tid, walk) :: t in registry.registered
      decreases walk
    {
      if walk != [] {
        EdgesAreRegistered(tid);
        VisitedIsRegistered(Edges(tid)[walk[0]].target, walk[1..]);
      }
    }
  }

  // Sequences of types and walks.

  ghost function Elements<T>(s: seq<T>): set<T> { set x | x in s }

  ghost predicate Disjoint<T(!new)>(s: seq<T>, t: seq<T>) {
    forall x :: x in s ==> x !in t
  }

  lemma ConsDistinct(head: TypeId, tail: seq<TypeId>, stack: seq<TypeId>)
    requires head !in stack
    ensures Distinct([head] + tail) && Disjoint([head] + tail, stack)
       <==> Distinct(tail) && Disjoint(tail, stack + [head])
  {
    var all := [head] + tail;
    assert forall i :: 0 <= i < |tail| ==> all[i + 1] == tail[i];
    if Distinct(all) && Disjoint(all, stack) {
      forall x | x in tail ensures x !in stack + [head] {
        var i :| 0 <= i < |tail| && tail[i] == x;
        assert all[0] != all[i + 1];
        assert x in all;
      }
      forall i, j | 0 <= i < j < |tail| ensures tail[i] != tail[j] {
        assert all[i + 1] != all[j + 1];
      }
    }
    if Distinct(tail) && Disjoint(tail, stack + [head]) {
      forall i, j | 0 <= i < j < |all| ensures all[i] != all[j] {
        assert all[j] == tail[j - 1] && all[j] in tail;
        if i == 0 { assert head in stack + [head]; }
      }
      forall x | x in all ensures x !in stack {
        assert x == head || x in tail;
        assert x in stack ==> x in stack + [head];
      }
    }
  }

  /** Strict preorder on walks: a walk comes before its extensions, then edge numbers decide. */
  ghost predicate Before(a: seq<nat>, b: seq<nat>) {
    b != [] && (a == [] || a[0] < b[0] || (a[0] == b[0] && Before(a[1..], b[1..])))
  }

  ghost predicate StrictlyPreordered(walks: seq<seq<nat>>) {
    forall i, j :: 0 <= i < j < |walks| ==> Before(walks[i], walks[j])
  }

  /** Preordered walks that all start with an edge numbered below `n`. */
  ghost predicate PreorderedBelow(walks: seq<seq<nat>>, n: nat) {
    StrictlyPreordered(walks) && forall i :: 0 <= i < |walks| ==> walks[i] != [] && walks[i][0] < n
  }

  lemma RootFirst(walks: seq<seq<nat>>, n: nat)
    requires PreorderedBelow(walks, n)
    ensures StrictlyPreordered([[]] + walks)
  {
  }

  lemma NextEdge(walks: seq<seq<nat>>, n: nat, deeper: seq<seq<nat>>)
    requires PreorderedBelow(walks, n) && StrictlyPreordered(deeper)
    ensures PreorderedBelow(walks + Prepend(n, deeper), n + 1)
  {
    var all := walks + Prepend(n, deeper);
    forall i, j | 0 <= i < j < |all| ensures Before(all[i], all[j]) {
      if |walks| <= i {
        var a, b := deeper[i - |walks|], deeper[j - |walks|];
        assert all[i][1..] == a && all[j][1..] == b;
      }
    }
  }

  lemma {:induction false} BeforeIsAsymmetric(a: seq<nat>, b: seq<nat>)
    requires Before(a, b)
    ensures a != b && !Before(b, a)
  {
    if a != [] && a[0] == b[0] {
      BeforeIsAsymmetric(a[1..], b[1..]);
    }
  }

  lemma {:induction false} PreorderedListsAgree(one: seq<seq<nat>>, two: seq<seq<nat>>)
    requires StrictlyPreordered(one) && StrictlyPreordered(two)
    requires forall w :: w in one <==> w in two
    ensures one == two
  {
    if one == [] {
      HeadIsMember(two);
    } else {
      assert one[0] in one && one[0] in two;
      assert two[0] in two && two[0] in one;
      var j :| 0 <= j < |two| && two[j] == one[0];
      var i :| 0 <= i < |one| && one[i] == two[0];
      if i > 0 && j > 0 { BeforeIsAsymmetric(one[0], one[i]); }
      assert one[0] == two[0];
      forall w ensures w in one[1..] <==> w in two[1..] {
        TailMembers(one, w);
        TailMembers(two, w);
      }
      PreorderedListsAgree(one[1..], two[1..]);
      assert one == [one[0]] + one[1..] && two == [two[0]] + two[1..];
    }
  }

  lemma Regroup<T>(a: seq<T>, b: seq<T>, c: seq<T>)
    ensures a + (b + c) == (a + b) + c
  {
  }

  lemma HeadIsMember(walks: seq<seq<nat>>)
    ensures walks == [] || walks[0] in walks
  {
  }

  lemma TailMembers(walks: seq<seq<nat>>, w: seq<nat>)
    requires StrictlyPreordered(walks) && walks != []
    ensures w in walks[1..] <==> w in walks && w != walks[0]
  {
    if w in walks[1..] {
      var i :| 1 <= i < |walks| && walks[i] == w;
      BeforeIsAsymmetric(walks[0], walks[i]);
    }
  }

  ghost function Prepend(edge: nat, walks: seq<seq<nat>>): seq<seq<nat>> {
    seq(|walks|, i requires 0 <= i < |walks| => [edge] + walks[i])
  }

  lemma PrependMembers(edge: nat, walks: seq<seq<nat>>, walk: seq<nat>)
    ensures walk in Prepend(edge, walks) <==> walk != [] && walk[0] == edge && walk[1..] in walks
  {
    if walk != [] && walk[0] == edge && walk[1..] in walks {
      var i :| 0 <= i < |walks| && walks[i] == walk[1..];
      assert Prepend(edge, walks)[i] == walk;
    }
    if walk in Prepend(edge, walks) {
      var i :| 0 <= i < |walks| && Prepend(edge, walks)[i] == walk;
      assert walk[1..] == walks[i];
    }
  }

  function Render(path: seq<string>): string {
    if path == [] then "" else Render(path[..|path| - 1]) + "/" + path[|path| - 1]
  }

  /** A path is rendered component by component, a slash in front of each. */
  lemma {:induction false} RenderInTurn(path: seq<string>, more: seq<string>)
    ensures Render(path + more) == Render(path) + Render(more)
    ensures forall name :: Render([name]) == "/" + name
  {
    forall name ensures Render([name]) == "/" + name {
      assert [name][..0] == [];
    }
    if more == [] {
      assert path + more == path;
    } else {
      var front, last := more[..|more| - 1], more[|more| - 1];
      RenderInTurn(path, front);
      assert (path + more)[..|path + more| - 1] == path + front;
    }
  }

  /** The collector.  Its registry never changes; the three vectors do. */
  class StaticInformation {
    const registry: Registry
    var output: seq<Entry>
    var currentPath: seq<string>
    var alreadyProcessed: seq<TypeId>
    var aggregates: seq<(TypeId, TypeId)>
    var noTids: seq<string>

    constructor (registry: Registry)
      requires registry.Valid()
      ensures this.registry == registry && Idle()
      ensures output == [] && aggregates == [] && noTids == []
    {
      this.registry := registry;
      output, currentPath, alreadyProcessed, aggregates, noTids := [], [], [], [], [];
    }

    ghost function TypeGraph(): Graph reads this { Graph(registry, aggregates) }

    /** Between public calls nothing is on the stack. */
    ghost predicate Idle() reads this {
      TypeGraph().Valid() && currentPath == [] && alreadyProcessed == []
    }

    /** A name that no registered type has is noted instead, the first one if both are unknown. */
    method RecordAggregationInfo(a: string, b: string)
      requires Idle()
      modifies this`aggregates, this`noTids
      ensures Idle()
      ensures var aTid, bTid := registry.LookupByName(a), registry.LookupByName(b);
              if aTid.None? then noTids == old(noTids) + [a] && aggregates == old(aggregates)
              else if bTid.None? then noTids == old(noTids) + [b] && aggregates == old(aggregates)
              else noTids == old(noTids) && aggregates == old(aggregates) + [(aTid.value, bTid.value)]
    {
      var aTid := registry.LookupByName(a);
      if aTid.None? {
        noTids := noTids + [a];
        return;
      }
      var bTid := registry.LookupByName(b);
      if bTid.None? {
        noTids := noTids + [b];
        return;
      }
      aggregates := aggregates + [(aTid.value, bTid.value)];
    }

    method GetCurrentPath() returns (path: string)
      ensures path == Render(currentPath)
    {
      path := "";
      for i := 0 to |currentPath|
        invariant path == Render(currentPath[..i])
      {
        path := path + "/" + currentPath[i];
        assert currentPath[..i + 1][..i] == currentPath[..i];
      }
      assert currentPath[..|currentPath|] == currentPath;
    }

    method RecordOutput(tid: TypeId)
      modifies this`output
      ensures output == old(output) + [Entry(tid, Render(currentPath))]
    {
      var path := GetCurrentPath();
      output := output + [Entry(tid, path)];
    }

    method HasAlreadyBeenProcessed(tid: TypeId) returns (found: bool)
      ensures found <==> tid in alreadyProcessed
    {
      for i := 0 to |alreadyProcessed|
        invariant tid !in alreadyProcessed[..i]
      {
        if alreadyProcessed[i] == tid {
          return true;
        }
      }
      return false;
    }

    /** Records every simple walk from `tid`, once each and in preorder, below what was there. */
    method Gather(tid: TypeId)
      requires Idle() && tid in registry.registered
      modifies this`output, this`currentPath, this`alreadyProcessed
      ensures Idle() && aggregates == old(aggregates)
      ensures exists walks :: TypeGraph().Enumerates(walks, tid)
                && output == old(output) + TypeGraph().EntriesFor([], tid, walks)
      ensures Entry(tid, "") in output
      ensures forall child :: child in registry.registered && (child, tid) in registry.childOf && child != tid ==>
                child in registry.names && Entry(child, "/$" + registry.names[child]) in output
    {
      DoGather(tid, TypeGraph());
      TypeGraph().SearchEnumerates(tid);
      TypeGraph().NearestAreRecorded(tid, TypeGraph().Search(tid, []));
    }

    /** The search proper: it extends the output by its walks and restores path and stack. */
    method DoGather(tid: TypeId, ghost g: Graph)
      requires g == Graph(registry, aggregates) && g.Valid() && tid in registry.registered
      modifies this`output, this`currentPath, this`alreadyProcessed
      ensures currentPath == old(currentPath) && alreadyProcessed == old(alreadyProcessed)
      ensures aggregates == old(aggregates)
      ensures output == old(output) + g.EntriesFor(currentPath, tid, g.Search(tid, alreadyProcessed))
      decreases g.Remaining(alreadyProcessed), 2
    {
      var found := HasAlreadyBeenProcessed(tid);
      if found {
        return;
      }
      RecordOutput(tid);
      g.FollowNone(old(output), currentPath, tid, alreadyProcessed);
      hide *;
      ghost var n := GatherAttributes(tid, g, old(output));
      n := GatherChildren(tid, g, old(output), n);
      n := GatherAggregates(tid, g, old(output), n);
      g.FollowedAll(output, old(output), currentPath, tid, alreadyProcessed);
    }

    method GatherAttributes(tid: TypeId, ghost g: Graph, ghost before: seq<Entry>) returns (ghost n: nat)
      requires g == Graph(registry, aggregates) && g.Searching(tid, alreadyProcessed)
      requires g.Followed(output, before, currentPath, tid, 0, alreadyProcessed)
      modifies this`output, this`currentPath, this`alreadyProcessed
      ensures currentPath == old(currentPath) && alreadyProcessed == old(alreadyProcessed)
      ensures aggregates == old(aggregates)
      ensures n == |g.AttributeEdges(registry.attributes[tid])|
      ensures g.Followed(output, before, currentPath, tid, n, alreadyProcessed)
      decreases g.Remaining(alreadyProcessed), 1
    {
      hide Graph.Followed, Graph.Edges, Graph.AttributeEdges, Graph.ChildEdges, Graph.AggregateEdges;
      g.EdgeCounts(tid);
      n := 0;
      var attributes := registry.attributes[tid];
      for i := 0 to |attributes|
        invariant aggregates == old(aggregates)
        invariant currentPath == old(currentPath) && alreadyProcessed == old(alreadyProcessed)
        invariant g.Followed(output, before, currentPath, tid, n, alreadyProcessed)
        invariant n == |g.AttributeEdges(attributes[..i])|
      {
        g.AttributeStep(tid, i);
        match attributes[i].checker {
          case PointerChecker(pointee) =>
            if pointee == registry.objectTypeId {
              continue;
            }
            g.StepOne(tid, n, n + 1, Edge(attributes[i].name, pointee));
            Follow(tid, attributes[i].name, pointee, g, before, n);
            n := n + 1;
          case ObjectPtrContainerChecker(item) =>
            g.StepOne(tid, n, n + 1, Edge(attributes[i].name + "/[i]", item));
            Follow(tid, attributes[i].name + "/[i]", item, g, before, n);
            n := n + 1;
          case OtherChecker =>
        }
      }
      assert attributes[..|attributes|] == attributes;
    }

    method GatherChildren(tid: TypeId, ghost g: Graph, ghost before: seq<Entry>, ghost first: nat)
      returns (ghost n: nat)
      requires g == Graph(registry, aggregates) && g.Searching(tid, alreadyProcessed)
      requires first == |g.AttributeEdges(registry.attributes[tid])|
      requires g.Followed(output, before, currentPath, tid, first, alreadyProcessed)
      modifies this`output, this`currentPath, this`alreadyProcessed
      ensures currentPath == old(currentPath) && alreadyProcessed == old(alreadyProcessed)
      ensures aggregates == old(aggregates)
      ensures n == first + |g.ChildEdges(tid, registry.registered)|
      ensures g.Followed(output, before, currentPath, tid, n, alreadyProcessed)
      decreases g.Remaining(alreadyProcessed), 1
    {
      hide Graph.Followed, Graph.Edges, Graph.AttributeEdges, Graph.ChildEdges, Graph.AggregateEdges;
      g.EdgeCounts(tid);
      n := first;
      for j := 0 to |registry.registered|
        invariant aggregates == old(aggregates)
        invariant currentPath == old(currentPath) && alreadyProcessed == old(alreadyProcessed)
        invariant g.Followed(output, before, currentPath, tid, n, alreadyProcessed)
        invariant n == first + |g.ChildEdges(tid, registry.registered[..j])|
      {
        g.ChildStep(tid, j);
        var child := registry.registered[j];
        if (child, tid) in registry.childOf {
          g.StepOne(tid, n, n + 1, Edge("$" + registry.names[child], child));
          Follow(tid, "$" + registry.names[child], child, g, before, n);
          n := n + 1;
        }
      }
      assert registry.registered[..|registry.registered|] == registry.registered;
    }

    method GatherAggregates(tid: TypeId, ghost g: Graph, ghost before: seq<Entry>, ghost first: nat)
      returns (ghost n: nat)
      requires g == Graph(registry, aggregates) && g.Searching(tid, alreadyProcessed)
      requires first == |g.AttributeEdges(registry.attributes[tid])| + |g.ChildEdges(tid, registry.registered)|
      requires g.Followed(output, before, currentPath, tid, first, alreadyProcessed)
      modifies this`output, this`currentPath, this`alreadyProcessed
      ensures currentPath == old(currentPath) && alreadyProcessed == old(alreadyProcessed)
      ensures aggregates == old(aggregates)
      ensures n == |g.Edges(tid)|
      ensures g.Followed(output, before, currentPath, tid, n, alreadyProcessed)
      decreases g.Remaining(alreadyProcessed), 1
    {
      hide Graph.Followed, Graph.Edges, Graph.AttributeEdges, Graph.ChildEdges, Graph.AggregateEdges;
      g.EdgeCounts(tid);
      n := first;
      for k := 0 to |aggregates|
        invariant aggregates == old(aggregates)
        invariant currentPath == old(currentPath) && alreadyProcessed == old(alreadyProcessed)
        invariant g.Followed(output, before, currentPath, tid, n, alreadyProcessed)
        invariant n == first + |g.AggregateEdges(tid, aggregates[..k])|
      {
        g.AggregateStep(tid, k);
        var item := aggregates[k];
        if item.0 == tid || item.1 == tid {
          var other := item.1;
          if item.1 == tid {
            other := item.0;
          }
          g.StepOne(tid, n, n + 1, Edge("$" + registry.names[other], other));
          Follow(tid, "$" + registry.names[other], other, g, before, n);
          n := n + 1;
        }
      }
      assert aggregates[..|aggregates|] == aggregates;
    }

    /** One edge: push the component and the type, search below, pop both again. */
    method Follow(tid: TypeId, name: string, target: TypeId,
                  ghost g: Graph, ghost before: seq<Entry>, ghost n: nat)
      requires g == Graph(registry, aggregates) && g.Searching(tid, alreadyProcessed)
      requires g.EdgeAt(tid, n, Edge(name, target))
      requires g.Followed(output, before, currentPath, tid, n, alreadyProcessed)
      modifies this`output, this`currentPath, this`alreadyProcessed
      ensures currentPath == old(currentPath) && alreadyProcessed == old(alreadyProcessed)
      ensures aggregates == old(aggregates)
      ensures g.Followed(output, before, currentPath, tid, n + 1, alreadyProcessed)
      decreases g.Remaining(alreadyProcessed), 0
    {
      hide *;
      g.TargetIsReady(tid, n, alreadyProcessed, Edge(name, target));
      g.FollowOne(output, before, currentPath, tid, n, alreadyProcessed, Edge(name, target));
      currentPath := currentPath + [name];
      alreadyProcessed := alreadyProcessed + [tid];
      DoGather(target, g);
      alreadyProcessed := alreadyProcessed[..|alreadyProcessed| - 1];
      currentPath := currentPath[..|currentPath| - 1];
    }

    /** The paths recorded for one type, in the order of recording. */
    method Get(tid: TypeId) returns (paths: seq<string>)
      ensures paths == PathsOf(output, tid)
    {
      paths := [];
      for i := 0 to |output|
        invariant paths == PathsOf(output[..i], tid)
      {
        if output[i].tid == tid {
          paths := paths + [output[i].path];
        }
        assert output[..i + 1][..i] == output[..i];
      }
      assert output[..|output|] == output;
    }
  }

  function PathsOf(entries: seq<Entry>, tid: TypeId): seq<string> {
    if entries == [] then []
    else
      var last := entries[|entries| - 1];
      PathsOf(entries[..|entries| - 1], tid) + if last.tid == tid then [last.path] else []
  }

  ghost function RecordedFor(entries: seq<Entry>, tid: TypeId): set<nat> {
    set i: nat | i < |entries| && entries[i].tid == tid
  }

  lemma NextRecorded(entries: seq<Entry>, tid: TypeId)
    requires entries != []
    ensures var n := |entries| - 1;
            && RecordedFor(entries, tid)
               == (if entries[n].tid == tid then RecordedFor(entries[..n], tid) + {n}
                   else RecordedFor(entries[..n], tid))
            && forall i :: i in RecordedFor(entries[..n], tid) ==> i < n
  {
    var n := |entries| - 1;
    assert forall i :: 0 <= i < n ==> entries[i].tid == entries[..n][i].tid;
  }

  /** The paths are those of the entries for the type, in the order of recording, as often as they were recorded. */
  lemma {:induction false} PathsOfExactly(entries: seq<Entry>, tid: TypeId) returns (at: seq<nat>)
    ensures Positions(at, RecordedFor(entries, tid)) && |PathsOf(entries, tid)| == |at|
    ensures forall k :: 0 <= k < |at| ==> at[k] < |entries| && PathsOf(entries, tid)[k] == entries[at[k]].path
  {
    hide Positions;
    at := [];
    if entries == [] {
      NoPositions(RecordedFor(entries, tid));
    } else {
      var n := |entries| - 1;
      var front := entries[..n];
      at := PathsOfExactly(front, tid);
      NextRecorded(entries, tid);
      hide RecordedFor;
      assert forall k :: 0 <= k < |at| ==> entries[at[k]] == front[at[k]];
      if entries[n].tid == tid {
        NextPosition(at, RecordedFor(front, tid), n);
        at := at + [n];
      }
    }
  }

  lemma {:induction false} PathsOfMembers(entries: seq<Entry>, tid: TypeId, path: string)
    ensures path in PathsOf(entries, tid) <==> Entry(tid, path) in entries
  {
    if entries != [] {
      var front, last := entries[..|entries| - 1], entries[|entries| - 1];
      PathsOfMembers(front, tid, path);
      assert entries == front + [last];
    }
  }
}
