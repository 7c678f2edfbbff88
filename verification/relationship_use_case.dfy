/** The relationship use cases: creating and deleting PARENT and SPOUSE
    relations, and reading the family tree around a person. Each one opens
    a session, runs an ordered chain of checks against the store, writes
    only when every check passed, and closes the session on every exit.

    What each operation decides is stated twice: once as a verdict over the
    kinship graph (which error wins, or None), and once as the method that
    talks to the store. On a store without faults the method returns exactly
    the verdict; with faults it returns the verdict or StoreFailure. */
module RelationshipUseCase {
  import opened Kinship
  import opened Reach
  import opened KinGraph
  import opened RepoEntities
  import opened FamilyTreeRepo

  // ---------------------------------------------------------------------
  // Verdicts over the graph

  /** The checks on a new PARENT edge from p to c, in the order they run:
      a child that already has two parents, a self relation, an existing
      relation, and any shared ancestor (each person is its own ancestor). */
  ghost function ChildRelationVerdict(g: Graph, p: Id, c: Id): (v: Option<Error>)
  {
    if |ParentsOf(g, c)| == MaxParents then Some(MaxParentsReached)
    else if p == c then Some(SameParentChildId)
    else if p in ParentsOf(g, c) then Some(DuplicateRelation)
    else if CommonAncestor(g, p, c) then Some(IncestuousRelation)
    else None
  }

  /** Both people must exist before the relation checks run. */
  ghost function CreateParentVerdict(g: Graph, p: Id, c: Id): (v: Option<Error>)
  {
    if p !in g.people || c !in g.people then Some(PersonNotFound)
    else ChildRelationVerdict(g, p, c)
  }

  /** The check of one side of a new marriage against the spouse the store
      found for it: nobody is fine, the other party is a duplicate, anyone
      else is a spouse already. */
  function SpouseExists(found: Option<Id>, newSpouse: Id): (r: Option<Error>)
    ensures r.None? <==> found.None?
    ensures r == Some(DuplicateRelation) <==> found == Some(newSpouse)
    ensures r == Some(HasSpouseAlready) <==> found.Some? && found.value != newSpouse
  {
    if found.None? then None
    else if found.value == newSpouse then Some(DuplicateRelation)
    else Some(HasSpouseAlready)
  }

  /** e is what checking a side whose spouses are spouses can report; the
      store returns any one of them. */
  ghost predicate SpouseFound(spouses: set<Id>, other: Id, e: Option<Error>)
  {
    exists y :: y in spouses && e == SpouseExists(Some(y), other)
  }

  /** The checks on a new SPOUSE edge between a and b, in order: they must
      share a child, then a's spouse is checked, then b's. */
  ghost predicate SpouseRelationVerdict(g: Graph, a: Id, b: Id, e: Option<Error>)
  {
    if !HasCommonChild(g, a, b) then e == Some(CoupleHasNoChild)
    else if SpousesOf(g, a) != {} then SpouseFound(SpousesOf(g, a), b, e)
    else if SpousesOf(g, b) != {} then SpouseFound(SpousesOf(g, b), a, e)
    else e.None?
  }

  ghost predicate CreateSpouseVerdict(g: Graph, a: Id, b: Id, e: Option<Error>)
  {
    if a !in g.people || b !in g.people then e == Some(PersonNotFound)
    else SpouseRelationVerdict(g, a, b, e)
  }

  /** Detaching c from p: both must exist, c must not be the only child of
      its married parents, and the PARENT edge from p to c must exist. */
  ghost function DeleteParentVerdict(g: Graph, p: Id, c: Id): (v: Option<Error>)
  {
    if p !in g.people || c !in g.people then Some(PersonNotFound)
    else if MaritalChildCount(g, c) == 1 then Some(OnlyChildFromSpouseCouple)
    else if ParentEdge(p, c) !in g.edges then Some(RelationNotFound)
    else None
  }

  /** Divorcing a and b: both must exist and be joined by a SPOUSE edge in
      either direction. */
  ghost function DeleteSpouseVerdict(g: Graph, a: Id, b: Id): (v: Option<Error>)
  {
    if a !in g.people || b !in g.people then Some(PersonNotFound)
    else if b !in SpousesOf(g, a) then Some(RelationNotFound)
    else None
  }

  // ---------------------------------------------------------------------
  // Facts about the verdicts

  /** A child with two parents is refused with MaxParentsReached whatever
      else is wrong with the request, duplicates and self relations
      included. */
  lemma MaxParentsWins(g: Graph, p: Id, c: Id)
    requires p in g.people && c in g.people
    requires |ParentsOf(g, c)| == MaxParents
    ensures CreateParentVerdict(g, p, c) == Some(MaxParentsReached)
  {
  }

  /** A new parent relation is allowed exactly when the child has fewer or
      more than two parents, the two people differ, p is not yet a parent
      of c, and their ancestries are disjoint. */
  lemma ParentAllowedIff(g: Graph, p: Id, c: Id)
    ensures CreateParentVerdict(g, p, c).None? <==>
              && p in g.people && c in g.people
              && |ParentsOf(g, c)| != MaxParents && p != c
              && ParentEdge(p, c) !in g.edges
              && !(exists q :: IsAncestor(g, p, q) && IsAncestor(g, c, q))
  {
  }

  /** A parent may never be attached to its own descendant: c is an
      ancestor of itself, so a c that is an ancestor of p shares an
      ancestor with p. */
  lemma NoParentFromDescendant(g: Graph, p: Id, c: Id)
    requires IsAncestor(g, p, c)
    ensures CreateParentVerdict(g, p, c).Some?
  {
    AncestorIsCommon(g, p, c);
  }

  /** A marriage is allowed exactly when the two share a child and neither
      has a spouse yet; each spouse check reports an error whenever it
      finds someone. */
  lemma SpouseAllowedIff(g: Graph, a: Id, b: Id)
    ensures CreateSpouseVerdict(g, a, b, None) <==>
              && a in g.people && b in g.people
              && HasCommonChild(g, a, b)
              && SpousesOf(g, a) == {} && SpousesOf(g, b) == {}
  {
    if HasCommonChild(g, a, b) && SpousesOf(g, a) != {} {
      assert !SpouseFound(SpousesOf(g, a), b, None);
    }
    if HasCommonChild(g, a, b) && SpousesOf(g, a) == {} && SpousesOf(g, b) != {} {
      assert !SpouseFound(SpousesOf(g, b), a, None);
    }
  }

  /** The common-child check runs first: a childless couple is refused with
      CoupleHasNoChild even when one of them is married already. */
  lemma ChildlessCoupleRefused(g: Graph, a: Id, b: Id, e: Option<Error>)
    requires a in g.people && b in g.people
    requires !HasCommonChild(g, a, b)
    requires CreateSpouseVerdict(g, a, b, e)
    ensures e == Some(CoupleHasNoChild)
  {
  }

  /** When a is married to exactly one person, a's check alone decides:
      DuplicateRelation if that is b, HasSpouseAlready otherwise, whatever
      b's marriages are. */
  lemma FirstSpouseDecides(g: Graph, a: Id, b: Id, y: Id, e: Option<Error>)
    requires HasCommonChild(g, a, b)
    requires SpousesOf(g, a) == {y}
    requires CreateSpouseVerdict(g, a, b, e)
    ensures e == (if y == b then Some(DuplicateRelation) else Some(HasSpouseAlready))
  {
  }

  /** The second party's marriage is found when the first is unmarried. */
  lemma SecondSpouseChecked(g: Graph, a: Id, b: Id, z: Id, e: Option<Error>)
    requires HasCommonChild(g, a, b)
    requires SpousesOf(g, a) == {} && SpousesOf(g, b) == {z}
    requires CreateSpouseVerdict(g, a, b, e)
    ensures e == (if z == a then Some(DuplicateRelation) else Some(HasSpouseAlready))
  {
  }

  /** The only-child check runs before the edge is looked for, so it wins
      even when p is not a parent of c at all. */
  lemma OnlyChildWins(g: Graph, p: Id, c: Id)
    requires p in g.people && c in g.people
    requires MaritalChildCount(g, c) == 1
    ensures DeleteParentVerdict(g, p, c) == Some(OnlyChildFromSpouseCouple)
  {
  }

  /** A child whose parents are a married pair joined by one SPOUSE edge
      can be detached only when the pair shares another child. */
  lemma SharedChildMayLeave(g: Graph, c: Id, f: Id, m: Id)
    requires c in g.people && f in g.people && f != m
    requires ParentsOf(g, c) == {f, m}
    requires SpouseEdge(f, m) in g.edges && SpouseEdge(m, f) !in g.edges
    ensures DeleteParentVerdict(g, f, c).None? <==> |CommonChildren(g, f, m)| >= 2
  {
    MaritalCountIsSharedChildren(g, c, f, m);
    assert c in CommonChildren(g, f, m);
  }

  /** Unmarried parents never block a delete: the only error left is a
      missing edge. */
  lemma UnmarriedParentsDetach(g: Graph, p: Id, c: Id)
    requires p in g.people && c in g.people
    requires forall f, m :: f in ParentsOf(g, c) && m in ParentsOf(g, c) ==> SpouseEdge(f, m) !in g.edges
    ensures DeleteParentVerdict(g, p, c).None? <==> ParentEdge(p, c) in g.edges
  {
    UnmarriedParentsCountZero(g, c);
  }

  /** A divorce is symmetric: the verdict does not depend on which side
      asks. */
  lemma DeleteSpouseSymmetric(g: Graph, a: Id, b: Id)
    ensures DeleteSpouseVerdict(g, a, b) == DeleteSpouseVerdict(g, b, a)
  {
  }

  // ---------------------------------------------------------------------
  // Validators against the store

  /** The parent-relation checks of an open session, querying the store for
      the child's parents and then, only if those pass, for a common
      ancestor. */
  method ValidateCreateChildRelation(s: Store, p: Id, c: Id) returns (s': Store, err: Option<Error>)
    requires s.session.Active?
    requires p in s.graph.people && c in s.graph.people
    ensures s'.graph == s.graph && s'.session == s.session && s'.faults == s.faults
    ensures err == ChildRelationVerdict(s.graph, p, c) || err == Some(StoreFailure)
    ensures s.faults == {} ==> err == ChildRelationVerdict(s.graph, p, c)
  {
    var parents;
    s', parents := GetParents(s, c);
    if parents.Failure? {
      return s', Some(parents.error);
    }
    assert parents.value == ParentsOf(s.graph, c);
    if |parents.value| == MaxParents {
      return s', Some(MaxParentsReached);
    }
    if p == c {
      return s', Some(SameParentChildId);
    }
    if p in parents.value {
      return s', Some(DuplicateRelation);
    }
    var ancestor;
    s', ancestor := GetLowestCommonAncestor(s', p, c);
    if ancestor.Failure? {
      return s', Some(ancestor.error);
    }
    if ancestor.value.Some? {
      return s', Some(IncestuousRelation);
    }
    err := None;
  }

  /** The spouse checks of an open session: common child first, then the
      first party's spouse, then the second's. */
  method ValidateCreateSpouseRelation(s: Store, a: Id, b: Id) returns (s': Store, err: Option<Error>)
    requires s.session.Active?
    requires a in s.graph.people && b in s.graph.people
    ensures s'.graph == s.graph && s'.session == s.session && s'.faults == s.faults
    ensures err == Some(StoreFailure) || SpouseRelationVerdict(s.graph, a, b, err)
    ensures s.faults == {} ==> SpouseRelationVerdict(s.graph, a, b, err)
  {
    var hasChild;
    s', hasChild := HasCommonChildQuery(s, a, b);
    if hasChild.Failure? {
      return s', Some(hasChild.error);
    }
    if !hasChild.value {
      return s', Some(CoupleHasNoChild);
    }
    var first;
    s', first := GetSpouse(s', a);
    if first.Failure? {
      return s', Some(first.error);
    }
    err := SpouseExists(first.value, b);
    if err.Some? {
      assert SpouseFound(SpousesOf(s.graph, a), b, err) by {
        assert first.value.value in SpousesOf(s.graph, a);
      }
      return;
    }
    var second;
    s', second := GetSpouse(s', b);
    if second.Failure? {
      return s', Some(second.error);
    }
    err := SpouseExists(second.value, a);
    if err.Some? {
      assert SpouseFound(SpousesOf(s.graph, b), a, err) by {
        assert second.value.value in SpousesOf(s.graph, b);
      }
    }
  }

  // ---------------------------------------------------------------------
  // The operations within an open session

  /** Looks both people up, each missing one refused with PersonNotFound,
      the first before the second. */
  method FindBoth(s: Store, first: Id, second: Id) returns (s': Store, err: Option<Error>)
    requires s.session.Active?
    ensures s'.graph == s.graph && s'.session == s.session && s'.faults == s.faults
    ensures err.None? ==> first in s.graph.people && second in s.graph.people
    ensures err.Some? ==> err == Some(StoreFailure)
                          || (err == Some(PersonNotFound) && (first !in s.graph.people || second !in s.graph.people))
    ensures s.faults == {} ==>
              err == (if first !in s.graph.people || second !in s.graph.people then Some(PersonNotFound) else None)
  {
    var found;
    s', found := FamilyTreeRepo.GetPerson(s, first);
    if found.Failure? {
      return s', Some(found.error);
    }
    if found.value.None? {
      return s', Some(PersonNotFound);
    }
    s', found := FamilyTreeRepo.GetPerson(s', second);
    if found.Failure? {
      return s', Some(found.error);
    }
    if found.value.None? {
      return s', Some(PersonNotFound);
    }
    err := None;
  }

  method CreateParentSteps(s: Store, p: Id, c: Id) returns (s': Store, err: Option<Error>)
    requires s.session.Active?
    ensures s'.session == s.session && s'.faults == s.faults
    ensures err.Some? ==> s'.graph == s.graph
    ensures err.None? ==> s'.graph == SaveRelation(s.graph, p, c, ParentRelation)
    ensures err == CreateParentVerdict(s.graph, p, c) || err == Some(StoreFailure)
    ensures s.faults == {} ==> err == CreateParentVerdict(s.graph, p, c)
  {
    s', err := FindBoth(s, p, c);
    if err.Some? {
      return;
    }
    s', err := ValidateCreateChildRelation(s', p, c);
    if err.Some? {
      return;
    }
    s', err := SaveRelationOp(s', p, c, ParentRelation);
  }

  method CreateSpouseSteps(s: Store, a: Id, b: Id) returns (s': Store, err: Option<Error>)
    requires s.session.Active?
    ensures s'.session == s.session && s'.faults == s.faults
    ensures err.Some? ==> s'.graph == s.graph
    ensures err.None? ==> s'.graph == SaveRelation(s.graph, a, b, SpouseRelation)
    ensures err == Some(StoreFailure) || CreateSpouseVerdict(s.graph, a, b, err)
    ensures s.faults == {} ==> CreateSpouseVerdict(s.graph, a, b, err)
  {
    s', err := FindBoth(s, a, b);
    if err.Some? {
      return;
    }
    s', err := ValidateCreateSpouseRelation(s', a, b);
    if err.Some? {
      return;
    }
    s', err := SaveRelationOp(s', a, b, SpouseRelation);
  }

  method DeleteParentSteps(s: Store, p: Id, c: Id) returns (s': Store, err: Option<Error>)
    requires s.session.Active?
    ensures s'.session == s.session && s'.faults == s.faults
    ensures err.Some? ==> s'.graph == s.graph
    ensures err.None? ==> s'.graph == s.graph.(edges := s.graph.edges - {ParentEdge(p, c)})
    ensures err == DeleteParentVerdict(s.graph, p, c) || err == Some(StoreFailure)
    ensures s.faults == {} ==> err == DeleteParentVerdict(s.graph, p, c)
  {
    s', err := FindBoth(s, p, c);
    if err.Some? {
      return;
    }
    var count;
    s', count := GetParentMaritalChildCount(s', c);
    if count.Failure? {
      return s', Some(count.error);
    }
    if count.value == 1 {
      return s', Some(OnlyChildFromSpouseCouple);
    }
    var ok;
    s', ok := DeleteRelationshipOp(s', p, c, ParentRelation);
    if ok.Failure? {
      return s', Some(ok.error);
    }
    if !ok.value {
      return s', Some(RelationNotFound);
    }
    err := None;
  }

  method DeleteSpouseSteps(s: Store, a: Id, b: Id) returns (s': Store, err: Option<Error>)
    requires s.session.Active?
    ensures s'.session == s.session && s'.faults == s.faults
    ensures err.Some? ==> s'.graph == s.graph
    ensures err.None? ==> s'.graph == s.graph.(edges := s.graph.edges - {SpouseEdge(a, b), SpouseEdge(b, a)})
    ensures err == DeleteSpouseVerdict(s.graph, a, b) || err == Some(StoreFailure)
    ensures s.faults == {} ==> err == DeleteSpouseVerdict(s.graph, a, b)
  {
    s', err := FindBoth(s, a, b);
    if err.Some? {
      return;
    }
    var ok;
    s', ok := DeleteRelationshipOp(s', a, b, SpouseRelation);
    if ok.Failure? {
      return s', Some(ok.error);
    }
    if !ok.value {
      return s', Some(RelationNotFound);
    }
    err := None;
  }

  // ---------------------------------------------------------------------
  // The operations

  /** Makes parentId a parent of childId. The session is closed on every
      exit, and the graph changes only when every check passed. */
  method CreateParentRelation(s: Store, parentId: Id, childId: Id) returns (s': Store, err: Option<Error>)
    requires s.session.Idle?
    ensures s'.session.Idle? && s'.faults == s.faults
    ensures err.Some? ==> s'.graph == s.graph
    ensures err.None? ==> s'.graph == SaveRelation(s.graph, parentId, childId, ParentRelation)
    ensures err.None? ==> ParentEdge(parentId, childId) in s'.graph.edges
    ensures err == CreateParentVerdict(s.graph, parentId, childId) || err == Some(StoreFailure)
    ensures s.faults == {} ==> err == CreateParentVerdict(s.graph, parentId, childId)
    ensures OpenCall(AccessWrite) in s.faults ==> s'.log == s.log + [OpenCall(AccessWrite)] && err == Some(StoreFailure)
  {
    var open;
    s', open := OpenSession(s, SessionWrite);
    if open.Some? {
      return s', open;
    }
    s', err := CreateParentSteps(s', parentId, childId);
    s' := CloseSession(s');
  }

  /** Marries firstId to secondId, the edge pointing from the first. */
  method CreateSpouseRelation(s: Store, firstId: Id, secondId: Id) returns (s': Store, err: Option<Error>)
    requires s.session.Idle?
    ensures s'.session.Idle? && s'.faults == s.faults
    ensures err.Some? ==> s'.graph == s.graph
    ensures err.None? ==> s'.graph == SaveRelation(s.graph, firstId, secondId, SpouseRelation)
    ensures err.None? ==> SpouseEdge(firstId, secondId) in s'.graph.edges
    ensures err == Some(StoreFailure) || CreateSpouseVerdict(s.graph, firstId, secondId, err)
    ensures s.faults == {} ==> CreateSpouseVerdict(s.graph, firstId, secondId, err)
    ensures OpenCall(AccessWrite) in s.faults ==> s'.log == s.log + [OpenCall(AccessWrite)] && err == Some(StoreFailure)
  {
    var open;
    s', open := OpenSession(s, SessionWrite);
    if open.Some? {
      return s', open;
    }
    s', err := CreateSpouseSteps(s', firstId, secondId);
    s' := CloseSession(s');
  }

  /** Detaches childId from parentId. */
  method DeleteParentRelation(s: Store, parentId: Id, childId: Id) returns (s': Store, err: Option<Error>)
    requires s.session.Idle?
    ensures s'.session.Idle? && s'.faults == s.faults
    ensures err.Some? ==> s'.graph == s.graph
    ensures err.None? ==> s'.graph == s.graph.(edges := s.graph.edges - {ParentEdge(parentId, childId)})
    ensures err == DeleteParentVerdict(s.graph, parentId, childId) || err == Some(StoreFailure)
    ensures s.faults == {} ==> err == DeleteParentVerdict(s.graph, parentId, childId)
    ensures OpenCall(AccessWrite) in s.faults ==> s'.log == s.log + [OpenCall(AccessWrite)] && err == Some(StoreFailure)
  {
    var open;
    s', open := OpenSession(s, SessionWrite);
    if open.Some? {
      return s', open;
    }
    s', err := DeleteParentSteps(s', parentId, childId);
    s' := CloseSession(s');
  }

  /** Divorces the two, removing the SPOUSE edge whichever way it points. */
  method DeleteSpouseRelation(s: Store, firstId: Id, secondId: Id) returns (s': Store, err: Option<Error>)
    requires s.session.Idle?
    ensures s'.session.Idle? && s'.faults == s.faults
    ensures err.Some? ==> s'.graph == s.graph
    ensures err.None? ==> s'.graph == s.graph.(edges := s.graph.edges - {SpouseEdge(firstId, secondId), SpouseEdge(secondId, firstId)})
    ensures err == DeleteSpouseVerdict(s.graph, firstId, secondId) || err == Some(StoreFailure)
    ensures s.faults == {} ==> err == DeleteSpouseVerdict(s.graph, firstId, secondId)
    ensures OpenCall(AccessWrite) in s.faults ==> s'.log == s.log + [OpenCall(AccessWrite)] && err == Some(StoreFailure)
  {
    var open;
    s', open := OpenSession(s, SessionWrite);
    if open.Some? {
      return s', open;
    }
    s', err := DeleteSpouseSteps(s', firstId, secondId);
    s' := CloseSession(s');
  }

  /** The family tree around personId, built from the fragment h the store
      hydrates for it; a missing person is PersonNotFound. Reading never
      changes the graph. */
  method GetFamilyTree(s: Store, personId: Id, h: Fragment) returns (s': Store, r: Result<FamilyTree>)
    requires s.session.Idle?
    requires LinksClosed(h) && Hydrates(s.graph, h)
    requires personId in s.graph.people ==> personId in h
    ensures s'.session.Idle? && s'.graph == s.graph && s'.faults == s.faults
    ensures r.Failure? ==> r.error in {PersonNotFound, InvalidUuid, StoreFailure}
    ensures s.faults == {} && personId !in s.graph.people ==> r == Failure(PersonNotFound)
    ensures s.faults == {} && personId in s.graph.people ==> (r.Success? <==> !Broken(h, personId))
    ensures r.Success? ==> personId in s.graph.people
    ensures r.Success? ==> forall z :: InTree(r.value, z) <==> z in h && Reaches(LinkRel(h), personId, z)
    ensures r.Success? ==> DistinctPeople(r.value) && SpouseOnOneSide(r.value) && SpouseShownOnce(h, r.value)
    ensures r.Success? ==> exists rank :: ShownInOrder(h, r.value, rank) && personId in rank && rank[personId] == 0
    ensures r.Success? ==> forall i :: 0 <= i < |r.value.people| ==> ShowsStoredEdges(s.graph, r.value.people[i])
    ensures OpenCall(AccessRead) in s.faults ==> s'.log == s.log + [OpenCall(AccessRead)] && r == Failure(StoreFailure)
  {
    var open;
    s', open := OpenSession(s, SessionRead);
    if open.Some? {
      return s', Failure(open.value);
    }
    var found;
    s', found := FamilyTreeRepo.GetPerson(s', personId);
    if found.Failure? {
      s' := CloseSession(s');
      return s', Failure(found.error);
    }
    if found.value.None? {
      s' := CloseSession(s');
      return s', Failure(PersonNotFound);
    }
    s', r := FamilyTreeRepo.GetFamilyTree(s', personId, h);
    assert r.Failure? ==> r.error == StoreFailure || r.error == InvalidUuid;
    s' := CloseSession(s');
  }
}
