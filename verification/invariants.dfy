/** What the validator chains buy: a kinship graph built only through the
    use cases stays a plausible family. Every edge joins existing people,
    nobody has more than two parents, nobody is their own ancestor, nobody
    has more than one SPOUSE edge, and every married pair shares a child.
    Each successful write preserves this; a failed one changes nothing. */
module KinshipInvariants {
  import opened Kinship
  import opened Reach
  import opened KinGraph
  import opened FamilyTreeRepo
  import opened RelationshipUseCase
  import opened PersonUseCase

  // ---------------------------------------------------------------------
  // The invariant

  ghost predicate Integrity(g: Graph)
  {
    forall e :: e in g.edges ==>
      e.top in g.people && e.bottom in g.people && (e.kind == ParentLabel || e.kind == SpouseLabel)
  }

  ghost predicate ParentCap(g: Graph)
  {
    forall c :: |ParentsOf(g, c)| <= MaxParents
  }

  /** No upward PARENT walk of one or more steps returns to its start. */
  ghost predicate Acyclic(g: Graph)
  {
    forall x, k: nat :: k > 0 ==> !Walk(UpRel(g), x, x, k)
  }

  ghost predicate OneSpouse(g: Graph)
  {
    forall x :: |SpouseEdgesAt(g, x)| <= 1
  }

  ghost predicate MarriedShareChild(g: Graph)
  {
    forall e :: e in g.edges && e.kind == SpouseLabel ==> HasCommonChild(g, e.top, e.bottom)
  }

  ghost predicate Plausible(g: Graph)
  {
    Integrity(g) && ParentCap(g) && Acyclic(g) && OneSpouse(g) && MarriedShareChild(g)
  }

  lemma EmptyPlausible()
    ensures Plausible(Graph(map[], {}))
  {
    var g := Graph(map[], {});
    forall c ensures |ParentsOf(g, c)| <= MaxParents {
      assert ParentsOf(g, c) == {};
    }
    forall x ensures |SpouseEdgesAt(g, x)| <= 1 {
      assert SpouseEdgesAt(g, x) == {};
    }
    forall x, k: nat | k > 0 ensures !Walk(UpRel(g), x, x, k) {
      assert UpRel(g) == {};
    }
  }

  // ---------------------------------------------------------------------
  // Finite-set facts

  lemma CardTwo<T>(s: set<T>, x: T, y: T)
    requires x in s && y in s && x != y
    ensures |s| >= 2
  {
    SubsetCard({x, y}, s);
  }

  lemma CardAddOne<T>(s: set<T>, x: T)
    ensures |s + {x}| <= |s| + 1
  {
    if x !in s {
      assert |s + {x}| == |s| + 1;
    } else {
      assert s + {x} == s;
    }
  }

  /** A set of at least two elements holds something besides c. */
  lemma AnotherMember<T>(s: set<T>, c: T) returns (d: T)
    requires |s| >= 2
    ensures d in s && d != c
  {
    var x :| x in s;
    if x != c {
      return x;
    }
    assert |s - {c}| >= 1;
    d :| d in s - {c};
  }

  /** With at most one SPOUSE edge at x, x has at most one spouse. */
  lemma AtMostOneSpouse(g: Graph, x: Id, y: Id, z: Id)
    requires |SpouseEdgesAt(g, x)| <= 1
    requires y in SpousesOf(g, x) && z in SpousesOf(g, x)
    ensures y == z
  {
    if y != z {
      var ey := if SpouseEdge(x, y) in g.edges then SpouseEdge(x, y) else SpouseEdge(y, x);
      var ez := if SpouseEdge(x, z) in g.edges then SpouseEdge(x, z) else SpouseEdge(z, x);
      assert ey in SpouseEdgesAt(g, x) && ez in SpouseEdgesAt(g, x);
      CardTwo(SpouseEdgesAt(g, x), ey, ez);
    }
  }

  // ---------------------------------------------------------------------
  // Walks through one added edge

  /** A walk in rel plus the edge (u, v) either avoids that edge, or goes
      from a to u in rel and from v to b in rel. */
  lemma {:induction false} WalkWithExtraEdge(rel: Rel, u: Id, v: Id, a: Id, b: Id, k: nat)
    requires Walk(rel + {(u, v)}, a, b, k)
    ensures Walk(rel, a, b, k) || (Reaches(rel, a, u) && Reaches(rel, v, b))
    decreases k
  {
    if k > 0 {
      var rel' := rel + {(u, v)};
      var m: Id :| Walk(rel', a, m, k - 1) && (m, b) in rel';
      WalkWithExtraEdge(rel, u, v, a, m, k - 1);
      if (m, b) in rel {
        if !Walk(rel, a, m, k - 1) {
          var j: nat :| Walk(rel, v, m, j);
          assert Walk(rel, v, b, j + 1);
        }
      } else {
        assert m == u && b == v;
        ReachesRefl(rel, v);
        if Walk(rel, a, m, k - 1) {
          assert Reaches(rel, a, u);
        }
      }
    }
  }

  lemma UpRelSaveParent(g: Graph, p: Id, c: Id)
    requires p in g.people && c in g.people
    ensures UpRel(SaveRelation(g, p, c, ParentRelation)) == UpRel(g) + {(c, p)}
  {
    var g' := SaveRelation(g, p, c, ParentRelation);
    assert g'.edges == g.edges + {ParentEdge(p, c)};
    UpRelStep(g', c, p);
  }

  /** Removing edges or adding a SPOUSE edge never adds an upward step. */
  lemma UpRelNoNewParent(g: Graph, g': Graph)
    requires forall e :: e in g'.edges && e.kind == ParentLabel ==> e in g.edges
    ensures UpRel(g') <= UpRel(g)
  {
  }

  lemma AcyclicShrinks(g: Graph, g': Graph)
    requires Acyclic(g)
    requires forall e :: e in g'.edges && e.kind == ParentLabel ==> e in g.edges
    ensures Acyclic(g')
  {
    UpRelNoNewParent(g, g');
    forall x, k: nat | k > 0 ensures !Walk(UpRel(g'), x, x, k) {
      if Walk(UpRel(g'), x, x, k) {
        WalkMonotone(UpRel(g'), UpRel(g), x, x, k);
      }
    }
  }

  /** A PARENT edge from p to c closes a cycle only if c was already an
      ancestor of p, which the incest check refuses. */
  lemma AcyclicAfterParent(g: Graph, p: Id, c: Id)
    requires Acyclic(g) && p in g.people && c in g.people
    requires !CommonAncestor(g, p, c)
    ensures Acyclic(SaveRelation(g, p, c, ParentRelation))
  {
    var g' := SaveRelation(g, p, c, ParentRelation);
    var rel := UpRel(g);
    UpRelSaveParent(g, p, c);
    forall x, k: nat | k > 0 ensures !Walk(UpRel(g'), x, x, k) {
      if Walk(UpRel(g'), x, x, k) {
        WalkWithExtraEdge(rel, c, p, x, x, k);
        if !Walk(rel, x, x, k) {
          ReachesTrans(rel, p, x, c);
          AncestorIsCommon(g, p, c);
        }
      }
    }
  }

  // ---------------------------------------------------------------------
  // Preservation, one write at a time

  /** An allowed PARENT edge keeps the family plausible. */
  lemma CreateParentPreserves(g: Graph, p: Id, c: Id)
    requires Plausible(g)
    requires CreateParentVerdict(g, p, c).None?
    ensures Plausible(SaveRelation(g, p, c, ParentRelation))
  {
    assert p in g.people && c in g.people && |ParentsOf(g, c)| != MaxParents;
    ParentEdgeKeepsIntegrity(g, p, c);
    ParentEdgeKeepsCap(g, p, c);
    ParentEdgeKeepsOneSpouse(g, p, c);
    ParentEdgeKeepsSharedChildren(g, p, c);
    AcyclicAfterParent(g, p, c);
  }

  /** A PARENT edge between two people of the graph keeps every edge's
      ends in the graph. */
  lemma ParentEdgeKeepsIntegrity(g: Graph, p: Id, c: Id)
    requires Integrity(g) && p in g.people && c in g.people
    ensures Integrity(SaveRelation(g, p, c, ParentRelation))
  {
    var g' := SaveRelation(g, p, c, ParentRelation);
    assert g'.edges == g.edges + {ParentEdge(p, c)};
  }

  /** A PARENT edge to a child below the parent cap leaves every child
      within it. */
  lemma ParentEdgeKeepsCap(g: Graph, p: Id, c: Id)
    requires ParentCap(g) && p in g.people && c in g.people
    requires |ParentsOf(g, c)| != MaxParents
    ensures ParentCap(SaveRelation(g, p, c, ParentRelation))
  {
    var g' := SaveRelation(g, p, c, ParentRelation);
    assert g'.edges == g.edges + {ParentEdge(p, c)};
    forall x ensures |ParentsOf(g', x)| <= MaxParents {
      if x == c {
        assert ParentsOf(g', c) == ParentsOf(g, c) + {p};
        CardAddOne(ParentsOf(g, c), p);
      } else {
        assert ParentsOf(g', x) == ParentsOf(g, x);
      }
    }
  }

  /** A PARENT edge touches nobody's SPOUSE edges. */
  lemma ParentEdgeKeepsOneSpouse(g: Graph, p: Id, c: Id)
    requires OneSpouse(g) && p in g.people && c in g.people
    ensures OneSpouse(SaveRelation(g, p, c, ParentRelation))
  {
    var g' := SaveRelation(g, p, c, ParentRelation);
    assert g'.edges == g.edges + {ParentEdge(p, c)};
    forall x ensures |SpouseEdgesAt(g', x)| <= 1 {
      assert SpouseEdgesAt(g', x) == SpouseEdgesAt(g, x);
    }
  }

  /** Adding a PARENT edge takes no shared child away from a married pair. */
  lemma ParentEdgeKeepsSharedChildren(g: Graph, p: Id, c: Id)
    requires MarriedShareChild(g) && p in g.people && c in g.people
    ensures MarriedShareChild(SaveRelation(g, p, c, ParentRelation))
  {
    var g' := SaveRelation(g, p, c, ParentRelation);
    assert g'.edges == g.edges + {ParentEdge(p, c)};
    forall e | e in g'.edges && e.kind == SpouseLabel
      ensures HasCommonChild(g', e.top, e.bottom)
    {
      assert HasCommonChild(g, e.top, e.bottom);
      var d :| ParentEdge(e.top, d) in g.edges && ParentEdge(e.bottom, d) in g.edges;
      assert ParentEdge(e.top, d) in g'.edges && ParentEdge(e.bottom, d) in g'.edges;
    }
  }

  /** An allowed marriage keeps the family plausible. */
  lemma CreateSpousePreserves(g: Graph, a: Id, b: Id)
    requires Plausible(g)
    requires CreateSpouseVerdict(g, a, b, None)
    ensures Plausible(SaveRelation(g, a, b, SpouseRelation))
  {
    var g' := SaveRelation(g, a, b, SpouseRelation);
    SpouseAllowedIff(g, a, b);
    assert g'.edges == g.edges + {SpouseEdge(a, b)};
    assert Integrity(g');
    forall x ensures |ParentsOf(g', x)| <= MaxParents {
      assert ParentsOf(g', x) == ParentsOf(g, x);
    }
    MarriageKeepsOneSpouse(g, a, b);
    AcyclicShrinks(g, g');
    forall e | e in g'.edges && e.kind == SpouseLabel
      ensures HasCommonChild(g', e.top, e.bottom)
    {
      assert HasCommonChild(g, e.top, e.bottom);
      var d :| ParentEdge(e.top, d) in g.edges && ParentEdge(e.bottom, d) in g.edges;
      assert ParentEdge(e.top, d) in g'.edges && ParentEdge(e.bottom, d) in g'.edges;
    }
  }

  /** Marrying two unmarried, distinct people gives each exactly one
      SPOUSE edge and leaves everyone else's alone. */
  lemma MarriageKeepsOneSpouse(g: Graph, a: Id, b: Id)
    requires OneSpouse(g) && a != b && a in g.people && b in g.people
    requires SpousesOf(g, a) == {} && SpousesOf(g, b) == {}
    ensures OneSpouse(SaveRelation(g, a, b, SpouseRelation))
  {
    var g' := SaveRelation(g, a, b, SpouseRelation);
    assert g'.edges == g.edges + {SpouseEdge(a, b)};
    NoSpouseNoSpouseEdge(g, a);
    NoSpouseNoSpouseEdge(g, b);
    forall x ensures |SpouseEdgesAt(g', x)| <= 1 {
      if x == a || x == b {
        assert SpouseEdgesAt(g', x) == {SpouseEdge(a, b)};
      } else {
        assert SpouseEdgesAt(g', x) == SpouseEdgesAt(g, x);
      }
    }
  }

  /** Detaching a child keeps the family plausible: a married pair loses a
      shared child only when it has another, because the only child of a
      married couple cannot be detached. */
  lemma DeleteParentPreserves(g: Graph, p: Id, c: Id)
    requires Plausible(g)
    requires DeleteParentVerdict(g, p, c).None?
    ensures Plausible(g.(edges := g.edges - {ParentEdge(p, c)}))
  {
    var g' := g.(edges := g.edges - {ParentEdge(p, c)});
    forall x ensures |ParentsOf(g', x)| <= MaxParents {
      SubsetCard(ParentsOf(g', x), ParentsOf(g, x));
    }
    forall x ensures |SpouseEdgesAt(g', x)| <= 1 {
      assert SpouseEdgesAt(g', x) == SpouseEdgesAt(g, x);
    }
    AcyclicShrinks(g, g');
    forall e | e in g'.edges && e.kind == SpouseLabel
      ensures HasCommonChild(g', e.top, e.bottom)
    {
      SharedChildSurvives(g, p, c, e);
    }
  }

  lemma SharedChildSurvives(g: Graph, p: Id, c: Id, e: Edge)
    requires Plausible(g)
    requires DeleteParentVerdict(g, p, c).None?
    requires e in g.edges && e.kind == SpouseLabel
    ensures HasCommonChild(g.(edges := g.edges - {ParentEdge(p, c)}), e.top, e.bottom)
  {
    var g' := g.(edges := g.edges - {ParentEdge(p, c)});
    var a, b := e.top, e.bottom;
    assert HasCommonChild(g, a, b);
    var shared := CommonChildren(g, a, b);
    var d :| d in shared;
    if (p == a || p == b) && d == c {
      MarriedParentsCount(g, c, a, b);
      d := AnotherMember(shared, c);
    }
    assert ParentEdge(a, d) in g'.edges && ParentEdge(b, d) in g'.edges;
  }

  /** In a plausible family, a child of a married pair has exactly those
      two parents, and its marital-sibling count is the number of children
      the pair shares. */
  lemma MarriedParentsCount(g: Graph, c: Id, a: Id, b: Id)
    requires Plausible(g)
    requires SpouseEdge(a, b) in g.edges && a != b && c in g.people
    requires ParentEdge(a, c) in g.edges && ParentEdge(b, c) in g.edges
    ensures MaritalChildCount(g, c) == |CommonChildren(g, a, b)|
  {
    assert ParentsOf(g, c) == {a, b} by {
      assert {a, b} <= ParentsOf(g, c);
      if ParentsOf(g, c) != {a, b} {
        var z :| z in ParentsOf(g, c) && z != a && z != b;
        SubsetCard({a, b, z}, ParentsOf(g, c));
      }
    }
    if SpouseEdge(b, a) in g.edges {
      assert SpouseEdge(a, b) in SpouseEdgesAt(g, a) && SpouseEdge(b, a) in SpouseEdgesAt(g, a);
      CardTwo(SpouseEdgesAt(g, a), SpouseEdge(a, b), SpouseEdge(b, a));
    }
    MaritalCountIsSharedChildren(g, c, a, b);
  }

  /** A divorce keeps the family plausible. */
  lemma DeleteSpousePreserves(g: Graph, a: Id, b: Id)
    requires Plausible(g)
    ensures Plausible(g.(edges := g.edges - {SpouseEdge(a, b), SpouseEdge(b, a)}))
  {
    var g' := g.(edges := g.edges - {SpouseEdge(a, b), SpouseEdge(b, a)});
    assert Integrity(g');
    forall x ensures |ParentsOf(g', x)| <= MaxParents {
      assert ParentsOf(g', x) == ParentsOf(g, x);
    }
    forall x ensures |SpouseEdgesAt(g', x)| <= 1 {
      SubsetCard(SpouseEdgesAt(g', x), SpouseEdgesAt(g, x));
    }
    AcyclicShrinks(g, g');
    forall e | e in g'.edges && e.kind == SpouseLabel
      ensures HasCommonChild(g', e.top, e.bottom)
    {
      assert HasCommonChild(g, e.top, e.bottom);
      var d :| ParentEdge(e.top, d) in g.edges && ParentEdge(e.bottom, d) in g.edges;
      assert ParentEdge(e.top, d) in g'.edges && ParentEdge(e.bottom, d) in g'.edges;
    }
  }

  /** A new person with no relations keeps the family plausible. */
  lemma CreatePersonPreserves(g: Graph, id: Id, name: string)
    requires Plausible(g) && id !in g.people
    ensures Plausible(g.(people := g.people[id := name]))
  {
    var g' := g.(people := g.people[id := name]);
    forall x ensures ParentsOf(g', x) == ParentsOf(g, x) {
    }
    forall x ensures SpouseEdgesAt(g', x) == SpouseEdgesAt(g, x) {
    }
    AcyclicShrinks(g, g');
    forall e | e in g'.edges && e.kind == SpouseLabel
      ensures HasCommonChild(g', e.top, e.bottom)
    {
      assert HasCommonChild(g, e.top, e.bottom);
    }
  }

  /** Removing a person nobody is related to keeps the family plausible. */
  lemma DeletePersonPreserves(g: Graph, id: Id)
    requires Plausible(g) && EdgesAt(g, id) == {}
    ensures Plausible(g.(people := g.people - {id}))
  {
    var g' := g.(people := g.people - {id});
    forall e | e in g.edges ensures e.top != id && e.bottom != id {
      assert e !in EdgesAt(g, id);
    }
    forall x ensures ParentsOf(g', x) == ParentsOf(g, x) {
    }
    forall x ensures SpouseEdgesAt(g', x) == SpouseEdgesAt(g, x) {
    }
    AcyclicShrinks(g, g');
    forall e | e in g'.edges && e.kind == SpouseLabel
      ensures HasCommonChild(g', e.top, e.bottom)
    {
      assert HasCommonChild(g, e.top, e.bottom);
    }
  }

  /** In a plausible family the spouse checks have one outcome: nobody has
      two spouses for the store to choose between. */
  lemma SpouseVerdictDeterministic(g: Graph, a: Id, b: Id, e1: Option<Error>, e2: Option<Error>)
    requires Plausible(g)
    requires CreateSpouseVerdict(g, a, b, e1) && CreateSpouseVerdict(g, a, b, e2)
    ensures e1 == e2
  {
    if a in g.people && b in g.people && HasCommonChild(g, a, b) {
      if SpousesOf(g, a) != {} {
        var y1 :| y1 in SpousesOf(g, a) && e1 == SpouseExists(Some(y1), b);
        var y2 :| y2 in SpousesOf(g, a) && e2 == SpouseExists(Some(y2), b);
        AtMostOneSpouse(g, a, y1, y2);
      } else if SpousesOf(g, b) != {} {
        var z1 :| z1 in SpousesOf(g, b) && e1 == SpouseExists(Some(z1), a);
        var z2 :| z2 in SpousesOf(g, b) && e2 == SpouseExists(Some(z2), a);
        AtMostOneSpouse(g, b, z1, z2);
      }
    }
  }

  // ---------------------------------------------------------------------
  // The service as a state machine

  datatype Command =
    | CreatePersonCmd(name: Option<string>, newId: Id)
    | DeletePersonCmd(id: Id)
    | CreateParentCmd(parent: Id, child: Id)
    | CreateSpouseCmd(first: Id, second: Id)
    | DeleteParentCmd(parent: Id, child: Id)
    | DeleteSpouseCmd(first: Id, second: Id)

  /** Runs one write use case. Whatever the outcome, the session ends
      closed and the family stays plausible. */
  method Apply(s: Store, cmd: Command) returns (s': Store, err: Option<Error>)
    requires s.session.Idle? && Plausible(s.graph)
    requires cmd.CreatePersonCmd? ==> cmd.newId !in s.graph.people && cmd.newId != NilId
    ensures s'.session.Idle? && s'.faults == s.faults
    ensures Plausible(s'.graph)
    ensures err.Some? ==> s'.graph == s.graph
  {
    match cmd
    case CreatePersonCmd(name, newId) =>
      var r;
      s', r := CreatePerson(s, name, newId);
      err := if r.Failure? then Some(r.error) else None;
      if r.Success? {
        CreatePersonPreserves(s.graph, newId, TrimSpace(name.value));
      }
    case DeletePersonCmd(id) =>
      s', err := PersonUseCase.DeletePerson(s, id);
      if err.None? {
        DeletePersonPreserves(s.graph, id);
      }
    case CreateParentCmd(p, c) =>
      s', err := CreateParentRelation(s, p, c);
      if err.None? {
        CreateParentPreserves(s.graph, p, c);
      }
    case CreateSpouseCmd(a, b) =>
      s', err := CreateSpouseRelation(s, a, b);
      if err.None? {
        CreateSpousePreserves(s.graph, a, b);
      }
    case DeleteParentCmd(p, c) =>
      s', err := DeleteParentRelation(s, p, c);
      if err.None? {
        DeleteParentPreserves(s.graph, p, c);
      }
    case DeleteSpouseCmd(a, b) =>
      s', err := DeleteSpouseRelation(s, a, b);
      if err.None? {
        DeleteSpousePreserves(s.graph, a, b);
      }
  }

  // ---------------------------------------------------------------------
  // A worked family

  /** Alice (1) and Bob (2) are Carol's (3) parents and Carol is Dave's (4)
      mother. */
  function Family(): (g: Graph)
  {
    Graph(map[1 := "Alice", 2 := "Bob", 3 := "Carol", 4 := "Dave"],
          {ParentEdge(1, 3), ParentEdge(2, 3), ParentEdge(3, 4)})
  }

  /** Alice and Bob share Carol and neither is married. */
  lemma FamilyMayMarry()
    ensures CreateSpouseVerdict(Family(), 1, 2, None)
  {
    var g := Family();
    assert ParentEdge(1, 3) in g.edges && ParentEdge(2, 3) in g.edges;
    assert HasCommonChild(g, 1, 2);
    assert SpousesOf(g, 1) == {};
    assert SpousesOf(g, 2) == {};
    SpouseAllowedIff(g, 1, 2);
  }

  /** Once married, Alice may still not become Dave's parent: Dave has one
      parent, but Alice is his grandmother. */
  lemma MarriedFamilyRefusesAdoption()
    ensures CreateParentVerdict(SaveRelation(Family(), 1, 2, SpouseRelation), 1, 4) == Some(IncestuousRelation)
  {
    var g := SaveRelation(Family(), 1, 2, SpouseRelation);
    assert g.edges == {ParentEdge(1, 3), ParentEdge(2, 3), ParentEdge(3, 4), SpouseEdge(1, 2)};
    assert ParentsOf(g, 4) == {3};
    assert IsAncestor(g, 4, 1) by {
      UpRelStep(g, 4, 3);
      UpRelStep(g, 3, 1);
      assert Walk(UpRel(g), 4, 4, 0);
      assert Walk(UpRel(g), 4, 3, 1);
      assert Walk(UpRel(g), 4, 1, 2);
    }
    AncestorIsCommon(g, 4, 1);
    CommonAncestorSymmetric(g, 1, 4);
  }

  /** Marrying Alice and Bob succeeds; making Alice a parent of Dave then
      fails, because Alice is already Dave's ancestor. */
  method AliceAndDave() returns (marry: Option<Error>, adopt: Option<Error>)
    ensures marry == None
    ensures adopt == Some(IncestuousRelation)
  {
    var s := Store(Family(), Idle, [], {});
    FamilyMayMarry();
    MarriedFamilyRefusesAdoption();
    s, marry := CreateSpouseRelation(s, 1, 2);
    s, adopt := CreateParentRelation(s, 1, 4);
  }
}
