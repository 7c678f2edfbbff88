/** The kinship graph as the store holds it, and the meaning of every
    query and write the store adapter issues against it, stated as graph
    functions and predicates (the Cypher text itself is not modelled). */
module KinGraph {
  import opened Kinship
  import opened Reach

  /** An edge from top to bottom carrying a relation kind. */
  datatype Edge = Edge(top: Id, bottom: Id, kind: string)

  /** People by identity with their names, and the typed edges between them.
      Edges form a set: two parallel edges with the same kind collapse. */
  datatype Graph = Graph(people: map<Id, string>, edges: set<Edge>)

  const ParentLabel := ParentRelation.name
  const SpouseLabel := SpouseRelation.name

  function ParentEdge(p: Id, c: Id): (e: Edge)
  {
    Edge(p, c, ParentLabel)
  }

  function SpouseEdge(a: Id, b: Id): (e: Edge)
  {
    Edge(a, b, SpouseLabel)
  }

  // ---------------------------------------------------------------------
  // Neighbourhoods

  /** The parents of c: sources of PARENT edges into c. */
  function ParentsOf(g: Graph, c: Id): (r: set<Id>)
    ensures forall p :: p in r <==> ParentEdge(p, c) in g.edges
  {
    var r := set e | e in g.edges && e.kind == ParentLabel && e.bottom == c :: e.top;
    assert forall p :: ParentEdge(p, c) in g.edges ==> p in r by {
      forall p | ParentEdge(p, c) in g.edges
        ensures p in r
      {
        var e := ParentEdge(p, c);
        assert e in g.edges && e.kind == ParentLabel && e.bottom == c;
      }
    }
    r
  }

  /** The children of p: targets of PARENT edges out of p. */
  function ChildrenOf(g: Graph, p: Id): (r: set<Id>)
    ensures forall c :: c in r <==> ParentEdge(p, c) in g.edges
  {
    var r := set e | e in g.edges && e.kind == ParentLabel && e.top == p :: e.bottom;
    assert forall c :: ParentEdge(p, c) in g.edges ==> c in r by {
      forall c | ParentEdge(p, c) in g.edges
        ensures c in r
      {
        var e := ParentEdge(p, c);
        assert e in g.edges && e.kind == ParentLabel && e.top == p;
      }
    }
    r
  }

  /** The SPOUSE edges that touch x, in either direction. */
  function SpouseEdgesAt(g: Graph, x: Id): (es: set<Edge>)
  {
    set e | e in g.edges && e.kind == SpouseLabel && (e.top == x || e.bottom == x)
  }

  /** Everyone joined to x by a SPOUSE edge, whichever way it points. */
  function SpousesOf(g: Graph, x: Id): (r: set<Id>)
    ensures forall y :: y in r <==> SpouseEdge(x, y) in g.edges || SpouseEdge(y, x) in g.edges
  {
    var r := (set e | e in g.edges && e.kind == SpouseLabel && e.top == x :: e.bottom)
      + (set e | e in g.edges && e.kind == SpouseLabel && e.bottom == x :: e.top);
    assert forall y :: SpouseEdge(x, y) in g.edges || SpouseEdge(y, x) in g.edges ==> y in r by {
      forall y | SpouseEdge(x, y) in g.edges || SpouseEdge(y, x) in g.edges
        ensures y in r
      {
        if SpouseEdge(x, y) in g.edges {
          var e := SpouseEdge(x, y);
          assert e in g.edges && e.kind == SpouseLabel && e.top == x;
        } else {
          var e := SpouseEdge(y, x);
          assert e in g.edges && e.kind == SpouseLabel && e.bottom == x;
        }
      }
    }
    r
  }

  /** A person with no spouse edge has no spouse. */
  lemma NoSpouseEdgeNoSpouse(g: Graph, x: Id)
    requires SpouseEdgesAt(g, x) == {}
    ensures SpousesOf(g, x) == {}
  {
    assert forall y :: SpouseEdge(x, y) in g.edges ==> SpouseEdge(x, y) in SpouseEdgesAt(g, x);
    assert forall y :: SpouseEdge(y, x) in g.edges ==> SpouseEdge(y, x) in SpouseEdgesAt(g, x);
  }

  /** A person with no spouse has no spouse edge. */
  lemma NoSpouseNoSpouseEdge(g: Graph, x: Id)
    requires SpousesOf(g, x) == {}
    ensures SpouseEdgesAt(g, x) == {}
  {
    assert forall e :: e in SpouseEdgesAt(g, x) && e.top == x ==> e == SpouseEdge(x, e.bottom);
    assert forall e :: e in SpouseEdgesAt(g, x) && e.bottom == x ==> e == SpouseEdge(e.top, x);
  }

  // ---------------------------------------------------------------------
  // Ancestry

  /** One upward PARENT hop: from a child to each of its parents. */
  function UpRel(g: Graph): (rel: Rel)
  {
    set e | e in g.edges && e.kind == ParentLabel :: (e.bottom, e.top)
  }

  lemma UpRelStep(g: Graph, x: Id, y: Id)
    ensures (x, y) in UpRel(g) <==> ParentEdge(y, x) in g.edges
  {
    if ParentEdge(y, x) in g.edges {
      var e := ParentEdge(y, x);
      assert e in g.edges && e.kind == ParentLabel;
    }
  }

  /** p is x itself or one of x's ancestors (PARENT*0.. upward). */
  ghost predicate IsAncestor(g: Graph, x: Id, p: Id)
  {
    Reaches(UpRel(g), x, p)
  }

  /** The upward closures of a and b intersect. */
  ghost predicate CommonAncestor(g: Graph, a: Id, b: Id)
  {
    exists p :: IsAncestor(g, a, p) && IsAncestor(g, b, p)
  }

  /** Sharing an ancestor does not depend on the order of the two people. */
  lemma CommonAncestorSymmetric(g: Graph, a: Id, b: Id)
    ensures CommonAncestor(g, a, b) <==> CommonAncestor(g, b, a)
  {
  }

  /** Because the closure includes the person, an ancestor (or the person
      itself) is always a common ancestor. */
  lemma AncestorIsCommon(g: Graph, a: Id, b: Id)
    requires IsAncestor(g, a, b)
    ensures CommonAncestor(g, a, b) && CommonAncestor(g, b, a)
  {
    ReachesRefl(UpRel(g), b);
  }

  /** t is n hops up from a, and no ancestor of b is fewer hops up from a:
      t is a common ancestor nearest to a. */
  ghost predicate NearestCommon(g: Graph, a: Id, b: Id, t: Id)
  {
    exists n: nat :: Walk(UpRel(g), a, t, n)
      && forall q: Id, j: nat :: IsAncestor(g, b, q) && j < n ==> !Walk(UpRel(g), a, q, j)
  }

  /** The nearest common ancestor of a and b, counted in hops up from a;
      None when either is missing or their upward closures are disjoint. */
  method LowestCommonAncestor(g: Graph, a: Id, b: Id) returns (r: Option<Id>)
    ensures r.Some? <==> a in g.people && b in g.people && CommonAncestor(g, a, b)
    ensures r.Some? ==> IsAncestor(g, a, r.value) && IsAncestor(g, b, r.value)
    ensures r.Some? ==> NearestCommon(g, a, b, r.value)
  {
    if a !in g.people || b !in g.people {
      return None;
    }
    var up := UpRel(g);
    var above := Closure(up, b);
    var nearest := Nearest(up, a, above);
    if nearest.None? {
      assert !CommonAncestor(g, a, b);
      return None;
    }
    var t := nearest.value.0;
    assert Walk(up, a, t, nearest.value.1);
    assert IsAncestor(g, a, t) && IsAncestor(g, b, t);
    r := Some(t);
  }

  // ---------------------------------------------------------------------
  // Common children and marital siblings

  /** The children a and b have in common. */
  function CommonChildren(g: Graph, a: Id, b: Id): (r: set<Id>)
    ensures forall c :: c in r <==> ParentEdge(a, c) in g.edges && ParentEdge(b, c) in g.edges
  {
    ChildrenOf(g, a) * ChildrenOf(g, b)
  }

  /** Two distinct existing people are both parents of some child. The two
      PARENT edges of the pattern must be different relationships, so a
      person never shares a child with itself. */
  function HasCommonChild(g: Graph, a: Id, b: Id): (r: bool)
    ensures r <==> a in g.people && b in g.people && a != b
                   && exists c :: ParentEdge(a, c) in g.edges && ParentEdge(b, c) in g.edges
  {
    a in g.people && b in g.people && a != b && CommonChildren(g, a, b) != {}
  }

  lemma HasCommonChildSymmetric(g: Graph, a: Id, b: Id)
    ensures HasCommonChild(g, a, b) == HasCommonChild(g, b, a)
  {
  }

  /** The rows of the marital-sibling query for c: a father and mother who
      are both parents of c, a SPOUSE edge from father to mother, and each
      child the two share (c included). */
  function MaritalRows(g: Graph, c: Id): (rows: set<(Id, Id, Id)>)
  {
    if c !in g.people then {}
    else
      var ps := ParentsOf(g, c);
      set f, m, s | f in ps && m in ps && f != m && SpouseEdge(f, m) in g.edges
                    && s in ChildrenOf(g, f) && s in ChildrenOf(g, m) :: (f, m, s)
  }

  /** How many children c's parents share, counted through their marriage;
      zero when the parents are not married to each other. */
  function MaritalChildCount(g: Graph, c: Id): (n: nat)
  {
    |MaritalRows(g, c)|
  }

  /** When c's parents are exactly a married pair joined by one SPOUSE edge,
      the count is the number of children the pair shares. */
  lemma MaritalCountIsSharedChildren(g: Graph, c: Id, f: Id, m: Id)
    requires c in g.people && f != m
    requires ParentsOf(g, c) == {f, m}
    requires SpouseEdge(f, m) in g.edges && SpouseEdge(m, f) !in g.edges
    ensures MaritalChildCount(g, c) == |CommonChildren(g, f, m)|
  {
    var rows := MaritalRows(g, c);
    var shared := CommonChildren(g, f, m);
    assert rows == RowsFor(f, m, shared);
    RowsForCard(f, m, shared);
  }

  /** The query rows for a fixed father and mother, one per shared child. */
  function RowsFor(f: Id, m: Id, s: set<Id>): (rows: set<(Id, Id, Id)>)
  {
    set x | x in s :: (f, m, x)
  }

  lemma {:induction false} RowsForCard(f: Id, m: Id, s: set<Id>)
    ensures |RowsFor(f, m, s)| == |s|
    decreases |s|
  {
    if s != {} {
      var z :| z in s;
      var rest := s - {z};
      RowsForCard(f, m, rest);
      assert (f, m, z) !in RowsFor(f, m, rest);
      assert RowsFor(f, m, s) == RowsFor(f, m, rest) + {(f, m, z)};
    }
  }

  /** Without a SPOUSE edge between c's parents the count is zero. */
  lemma UnmarriedParentsCountZero(g: Graph, c: Id)
    requires forall f, m :: f in ParentsOf(g, c) && m in ParentsOf(g, c) ==> SpouseEdge(f, m) !in g.edges
    ensures MaritalChildCount(g, c) == 0
  {
    assert MaritalRows(g, c) == {};
  }

  // ---------------------------------------------------------------------
  // Shortest path (Bacon's number)

  /** Every edge of any type, walked in either direction. */
  function UndirectedRel(g: Graph): (r: Rel)
    ensures forall x, y :: (x, y) in r ==> (y, x) in r
  {
    var r := (set e | e in g.edges :: (e.top, e.bottom)) + (set e | e in g.edges :: (e.bottom, e.top));
    assert forall x, y :: (x, y) in r ==> (y, x) in r by {
      forall x, y | (x, y) in r
        ensures (y, x) in r
      {
        var e :| e in g.edges && ((e.top, e.bottom) == (x, y) || (e.bottom, e.top) == (x, y));
      }
    }
    r
  }

  /** Walks in a symmetric relation can be reversed. */
  lemma {:induction false} WalkReverse(rel: Rel, a: Id, b: Id, k: nat)
    requires forall x, y :: (x, y) in rel ==> (y, x) in rel
    requires Walk(rel, a, b, k)
    ensures Walk(rel, b, a, k)
    decreases k
  {
    if k > 0 {
      var m: Id :| Walk(rel, a, m, k - 1) && (m, b) in rel;
      WalkReverse(rel, a, m, k - 1);
      StepThenWalk(rel, b, m, a, k - 1);
    }
  }

  /** Length of a shortest undirected path between a and b over all edge
      types; (0, false) when either is missing or no path exists. */
  method ShortestPathLength(g: Graph, a: Id, b: Id) returns (n: nat, found: bool)
    ensures found <==> a in g.people && b in g.people && Reaches(UndirectedRel(g), a, b)
    ensures found ==> Walk(UndirectedRel(g), a, b, n)
    ensures found ==> forall j: nat :: j < n ==> !Walk(UndirectedRel(g), a, b, j)
    ensures !found ==> n == 0
  {
    if a !in g.people || b !in g.people {
      return 0, false;
    }
    var r := Nearest(UndirectedRel(g), a, {b});
    if r.None? {
      return 0, false;
    }
    n, found := r.value.1, true;
  }

  /** Degrees of separation are symmetric. */
  lemma SeparationSymmetric(g: Graph, a: Id, b: Id, k: nat)
    requires Walk(UndirectedRel(g), a, b, k)
    ensures Walk(UndirectedRel(g), b, a, k)
  {
    WalkReverse(UndirectedRel(g), a, b, k);
  }

  // ---------------------------------------------------------------------
  // Writes

  /** Creating a relation adds an edge from top to bottom labelled with the
      relation's name; if either person is missing nothing matches and the
      graph is unchanged. */
  function SaveRelation(g: Graph, top: Id, bottom: Id, rt: RelationType): (r: Graph)
    ensures r.people == g.people
    ensures top in g.people && bottom in g.people ==> Edge(top, bottom, rt.name) in r.edges
    ensures r.edges - {Edge(top, bottom, rt.name)} == g.edges - {Edge(top, bottom, rt.name)}
  {
    if top in g.people && bottom in g.people then g.(edges := g.edges + {Edge(top, bottom, rt.name)})
    else g
  }

  /** The edges a delete of (a, b, rt) matches: a->b only for a directional
      type, both a->b and b->a otherwise. */
  function MatchedEdges(g: Graph, a: Id, b: Id, rt: RelationType): (es: set<Edge>)
  {
    if a !in g.people || b !in g.people then {}
    else
      set e | e in g.edges && e.kind == rt.name
              && ((e.top == a && e.bottom == b) || (!rt.directional && e.top == b && e.bottom == a))
  }

  /** Deleting a relation removes every matched edge and reports whether
      at least one was removed. */
  function DeleteRelationship(g: Graph, a: Id, b: Id, rt: RelationType): (r: (Graph, bool))
    ensures r.0.people == g.people
    ensures a in g.people && b in g.people && rt.directional ==>
              r.0.edges == g.edges - {Edge(a, b, rt.name)}
    ensures a in g.people && b in g.people && !rt.directional ==>
              r.0.edges == g.edges - {Edge(a, b, rt.name), Edge(b, a, rt.name)}
    ensures a !in g.people || b !in g.people ==> r.0 == g
    ensures r.1 <==> a in g.people && b in g.people
                     && (Edge(a, b, rt.name) in g.edges || (!rt.directional && Edge(b, a, rt.name) in g.edges))
  {
    var matched := MatchedEdges(g, a, b, rt);
    assert Edge(a, b, rt.name) in g.edges && a in g.people && b in g.people ==> Edge(a, b, rt.name) in matched;
    assert !rt.directional && Edge(b, a, rt.name) in g.edges && a in g.people && b in g.people ==> Edge(b, a, rt.name) in matched;
    (g.(edges := g.edges - matched), |matched| > 0)
  }

  /** A PARENT edge that was not there before is saved and deleted again
      without a trace, and the delete reports that it removed something. */
  lemma SaveThenDeleteParent(g: Graph, p: Id, c: Id)
    requires p in g.people && c in g.people
    requires ParentEdge(p, c) !in g.edges
    ensures DeleteRelationship(SaveRelation(g, p, c, ParentRelation), p, c, ParentRelation) == (g, true)
  {
  }

  /** Deleting a SPOUSE relation matches it from either side. */
  lemma SpouseDeleteEitherSide(g: Graph, a: Id, b: Id)
    requires a in g.people && b in g.people
    requires SpouseEdge(b, a) in g.edges
    ensures DeleteRelationship(g, a, b, SpouseRelation).1
    ensures SpouseEdge(b, a) !in DeleteRelationship(g, a, b, SpouseRelation).0.edges
  {
  }

  /** A PARENT delete only matches from parent to child. */
  lemma ParentDeleteOneSide(g: Graph, a: Id, b: Id)
    requires a in g.people && b in g.people && a != b
    requires ParentEdge(a, b) !in g.edges && ParentEdge(b, a) in g.edges
    ensures !DeleteRelationship(g, a, b, ParentRelation).1
    ensures DeleteRelationship(g, a, b, ParentRelation).0 == g
  {
  }

  /** Every edge that touches x. */
  function EdgesAt(g: Graph, x: Id): (es: set<Edge>)
  {
    set e | e in g.edges && (e.top == x || e.bottom == x)
  }

  /** Deleting a person the store still holds relations for is refused with
      PersonStillHasRelations; otherwise the person (if present) is gone. */
  function DeletePerson(g: Graph, x: Id): (r: Result<Graph>)
    ensures r.Failure? <==> exists e :: e in g.edges && (e.top == x || e.bottom == x)
    ensures r.Failure? ==> r.error == PersonStillHasRelations
    ensures r.Success? ==> x !in r.value.people && r.value.edges == g.edges
                           && forall y :: y in g.people && y != x ==> y in r.value.people && r.value.people[y] == g.people[y]
  {
    if EdgesAt(g, x) != {} then Failure(PersonStillHasRelations)
    else
      assert forall e :: e in g.edges && (e.top == x || e.bottom == x) ==> e in EdgesAt(g, x);
      Success(g.(people := g.people - {x}))
  }

  /** Looking a person up yields None, not an error, when it is absent. */
  function GetPerson(g: Graph, id: Id): (r: Option<Person>)
    ensures r.None? <==> id !in g.people
    ensures r.Some? ==> r.value.id == id && r.value.name == g.people[id]
  {
    if id in g.people then Some(Person(id, g.people[id])) else None
  }

  /** Go's int is 64 bits wide: its values lie in [-2^63, 2^63). */
  const Int64Bound: int := 0x8000_0000_0000_0000

  /** The int64 value of x after Go's wrap-around: the one value in range
      that differs from x by a multiple of 2^64. */
  function WrapInt64(x: int): (r: int)
    ensures -Int64Bound <= r < Int64Bound
    ensures (x - r) % (2 * Int64Bound) == 0
    ensures -Int64Bound <= x < Int64Bound ==> r == x
  {
    var m := 2 * Int64Bound;
    var r := (x + Int64Bound) % m - Int64Bound;
    assert x - r == m * ((x + Int64Bound) / m);
    r
  }

  /** The SKIP of the page query: page * size computed in Go's int, so a
      huge page wraps around, possibly to a negative skip. */
  function PageSkip(page: int, size: int): (skip: int)
    ensures -Int64Bound <= skip < Int64Bound
    ensures (page * size - skip) % (2 * Int64Bound) == 0
    ensures -Int64Bound <= page * size < Int64Bound ==> skip == page * size
  {
    WrapInt64(page * size)
  }

  /** Page 2^62 of four people skips nothing, and page 2^62 of two people
      skips a negative number of entries. */
  lemma HugePagesWrap()
    ensures PageSkip(0x4000_0000_0000_0000, 4) == 0
    ensures PageSkip(0x4000_0000_0000_0000, 2) == -Int64Bound
  {
    assert 0x4000_0000_0000_0000 * 4 == 2 * Int64Bound;
    assert 0x4000_0000_0000_0000 * 2 == Int64Bound;
  }

  /** A page of the store's people in its enumeration order: skip entries
      are passed over, then at most size are taken. */
  function PeoplePage(g: Graph, order: seq<Id>, skip: int, size: int): (r: seq<Person>)
    requires skip >= 0 && size >= 1
    requires forall i :: 0 <= i < |order| ==> order[i] in g.people
    ensures |r| <= size
    ensures skip >= |order| ==> r == []
    ensures skip < |order| ==> |r| == if |order| - skip < size then |order| - skip else size
    ensures forall i :: 0 <= i < |r| ==> skip + i < |order| && r[i] == Person(order[skip + i], g.people[order[skip + i]])
  {
    if skip >= |order| then []
    else
      var end := if |order| - skip < size then |order| else skip + size;
      seq(end - skip, i requires 0 <= i < end - skip => Person(order[skip + i], g.people[order[skip + i]]))
  }
}
