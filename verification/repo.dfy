/** The store adapter: a session over the kinship graph, and every store
    operation the use cases call. Each operation first looks up the session
    the caller opened; without one it fails with InvalidSessionValue. Any
    call the store itself fails (connection loss, driver errors) is named
    in the store's fault set and fails with StoreFailure, leaving the graph
    as it was. Every call issued is appended to the store's log. */
module FamilyTreeRepo {
  import opened Kinship
  import opened Reach
  import opened KinGraph
  import opened RepoEntities

  datatype Session = Idle | Active(mode: AccessMode)

  /** The store calls the use cases can issue. */
  datatype Call =
    | OpenCall(access: AccessMode)
    | SavePersonCall(name: string)
    | GetPersonCall(id: Id)
    | GetParentsCall(child: Id)
    | SaveRelationCall(top: Id, bottom: Id, relationType: RelationType)
    | LowestCommonAncestorCall(first: Id, second: Id)
    | CountPeopleCall
    | PeoplePageCall(page: int, size: int)
    | FamilyTreeCall(root: Id)
    | ShortestPathCall(first: Id, second: Id)
    | HasCommonChildCall(first: Id, second: Id)
    | GetSpouseCall(id: Id)
    | MaritalChildCountCall(child: Id)
    | DeleteRelationshipCall(first: Id, second: Id, relationType: RelationType)
    | DeletePersonCall(id: Id)

  datatype Store = Store(graph: Graph, session: Session, log: seq<Call>, faults: set<Call>)

  /** The error a call meets before it reaches the graph, if any. */
  function Refusal(s: Store, c: Call): (e: Option<Error>)
    ensures e.None? <==> s.session.Active? && c !in s.faults
    ensures s.session.Idle? ==> e == Some(InvalidSessionValue)
    ensures s.session.Active? && c in s.faults ==> e == Some(StoreFailure)
  {
    if s.session.Idle? then Some(InvalidSessionValue)
    else if c in s.faults then Some(StoreFailure)
    else None
  }

  function Issue(s: Store, c: Call): (r: Store)
    ensures r.graph == s.graph && r.session == s.session && r.faults == s.faults
    ensures r.log == s.log + [c]
  {
    s.(log := s.log + [c])
  }

  // ---------------------------------------------------------------------
  // Sessions

  /** Opening a session maps the mode and asks the driver for a session;
      an unknown mode is refused before the driver is asked. */
  method OpenSession(s: Store, mode: SessionMode) returns (s': Store, err: Option<Error>)
    requires s.session.Idle?
    ensures s'.graph == s.graph && s'.faults == s.faults
    ensures SessionMapper(mode).Failure? ==> err == Some(InvalidSessionMode) && s' == s
    ensures SessionMapper(mode).Success? ==> s'.log == s.log + [OpenCall(SessionMapper(mode).value)]
    ensures err.None? <==> SessionMapper(mode).Success? && OpenCall(SessionMapper(mode).value) !in s.faults
    ensures err.None? ==> s'.session == Active(SessionMapper(mode).value)
    ensures err.Some? ==> s'.session.Idle?
    ensures err.Some? && SessionMapper(mode).Success? ==> err == Some(StoreFailure)
  {
    var access := SessionMapper(mode);
    if access.Failure? {
      return s, Some(access.error);
    }
    var c := OpenCall(access.value);
    s' := s.(log := s.log + [c]);
    if c in s.faults {
      return s', Some(StoreFailure);
    }
    s' := s'.(session := Active(access.value));
    err := None;
  }

  /** Closing ends the session; without a session it does nothing. */
  function CloseSession(s: Store): (r: Store)
    ensures r.session.Idle?
    ensures r.graph == s.graph && r.log == s.log && r.faults == s.faults
  {
    s.(session := Idle)
  }

  // ---------------------------------------------------------------------
  // Reads

  /** A missing person is not an error: the result is None. */
  method GetPerson(s: Store, id: Id) returns (s': Store, r: Result<Option<Person>>)
    ensures s' == Issue(s, GetPersonCall(id))
    ensures Refusal(s, GetPersonCall(id)).Some? ==> r == Failure(Refusal(s, GetPersonCall(id)).value)
    ensures Refusal(s, GetPersonCall(id)).None? ==> r.Success?
    ensures r.Success? ==> (r.value.None? <==> id !in s.graph.people)
    ensures r.Success? && r.value.Some? ==> r.value.value == Person(id, s.graph.people[id])
  {
    s' := Issue(s, GetPersonCall(id));
    var refused := Refusal(s, GetPersonCall(id));
    if refused.Some? {
      return s', Failure(refused.value);
    }
    r := Success(KinGraph.GetPerson(s.graph, id));
  }

  /** The parents of child: empty, not an error, when it has none. */
  method GetParents(s: Store, child: Id) returns (s': Store, r: Result<set<Id>>)
    ensures s' == Issue(s, GetParentsCall(child))
    ensures Refusal(s, GetParentsCall(child)).Some? ==> r == Failure(Refusal(s, GetParentsCall(child)).value)
    ensures Refusal(s, GetParentsCall(child)).None? ==> r.Success?
    ensures r.Success? ==> forall p :: p in r.value <==> ParentEdge(p, child) in s.graph.edges
  {
    s' := Issue(s, GetParentsCall(child));
    var refused := Refusal(s, GetParentsCall(child));
    if refused.Some? {
      return s', Failure(refused.value);
    }
    r := Success(ParentsOf(s.graph, child));
  }

  /** The nearest common ancestor of first and second (either may be the
      other, or the ancestor of itself), None when their ancestries are
      disjoint. */
  method GetLowestCommonAncestor(s: Store, first: Id, second: Id) returns (s': Store, r: Result<Option<Id>>)
    ensures s' == Issue(s, LowestCommonAncestorCall(first, second))
    ensures Refusal(s, LowestCommonAncestorCall(first, second)).Some? ==>
              r == Failure(Refusal(s, LowestCommonAncestorCall(first, second)).value)
    ensures Refusal(s, LowestCommonAncestorCall(first, second)).None? ==> r.Success?
    ensures r.Success? ==> (r.value.Some? <==> first in s.graph.people && second in s.graph.people
                                                && CommonAncestor(s.graph, first, second))
    ensures r.Success? && r.value.Some? ==>
              IsAncestor(s.graph, first, r.value.value) && IsAncestor(s.graph, second, r.value.value)
    ensures r.Success? && r.value.Some? ==> NearestCommon(s.graph, first, second, r.value.value)
  {
    s' := Issue(s, LowestCommonAncestorCall(first, second));
    var refused := Refusal(s, LowestCommonAncestorCall(first, second));
    if refused.Some? {
      return s', Failure(refused.value);
    }
    var lca := LowestCommonAncestor(s.graph, first, second);
    r := Success(lca);
  }

  /** Length of a shortest path over edges of any type and direction;
      (0, false) when there is none. The database refuses a shortest path
      whose two ends are one stored node, so asking about a stored person
      and itself fails; for an unknown person the match yields no row. */
  method GetShortestPathLength(s: Store, first: Id, second: Id) returns (s': Store, r: Result<(nat, bool)>)
    ensures s' == Issue(s, ShortestPathCall(first, second))
    ensures Refusal(s, ShortestPathCall(first, second)).Some? ==>
              r == Failure(Refusal(s, ShortestPathCall(first, second)).value)
    ensures Refusal(s, ShortestPathCall(first, second)).None? ==>
              (r.Success? <==> first != second || first !in s.graph.people)
    ensures Refusal(s, ShortestPathCall(first, second)).None? && first == second && first in s.graph.people ==>
              r == Failure(StoreFailure)
    ensures r.Success? ==>
              (r.value.1 <==> (first in s.graph.people && second in s.graph.people
                               && Reaches(UndirectedRel(s.graph), first, second)))
    ensures r.Success? && r.value.1 ==>
              && Walk(UndirectedRel(s.graph), first, second, r.value.0)
              && forall j: nat :: j < r.value.0 ==> !Walk(UndirectedRel(s.graph), first, second, j)
    ensures r.Success? && !r.value.1 ==> r.value.0 == 0
  {
    s' := Issue(s, ShortestPathCall(first, second));
    var refused := Refusal(s, ShortestPathCall(first, second));
    if refused.Some? {
      return s', Failure(refused.value);
    }
    if first == second && first in s.graph.people {
      return s', Failure(StoreFailure);
    }
    var n, found := ShortestPathLength(s.graph, first, second);
    r := Success((n, found));
  }

  /** Whether two existing people share a child. The query indexes its
      first result row, which exists only when both people do, so callers
      must pass existing people. */
  method HasCommonChildQuery(s: Store, first: Id, second: Id) returns (s': Store, r: Result<bool>)
    requires first in s.graph.people && second in s.graph.people
    ensures s' == Issue(s, HasCommonChildCall(first, second))
    ensures Refusal(s, HasCommonChildCall(first, second)).Some? ==>
              r == Failure(Refusal(s, HasCommonChildCall(first, second)).value)
    ensures Refusal(s, HasCommonChildCall(first, second)).None? ==> r.Success?
    ensures r.Success? ==> (r.value <==> first != second && CommonChildren(s.graph, first, second) != {})
  {
    s' := Issue(s, HasCommonChildCall(first, second));
    var refused := Refusal(s, HasCommonChildCall(first, second));
    if refused.Some? {
      return s', Failure(refused.value);
    }
    r := Success(HasCommonChild(s.graph, first, second));
  }

  /** Someone joined to id by a SPOUSE edge in either direction, None when
      there is nobody. */
  method GetSpouse(s: Store, id: Id) returns (s': Store, r: Result<Option<Id>>)
    ensures s' == Issue(s, GetSpouseCall(id))
    ensures Refusal(s, GetSpouseCall(id)).Some? ==> r == Failure(Refusal(s, GetSpouseCall(id)).value)
    ensures Refusal(s, GetSpouseCall(id)).None? ==> r.Success?
    ensures r.Success? ==> (r.value.None? <==> SpousesOf(s.graph, id) == {})
    ensures r.Success? && r.value.Some? ==> r.value.value in SpousesOf(s.graph, id)
  {
    s' := Issue(s, GetSpouseCall(id));
    var refused := Refusal(s, GetSpouseCall(id));
    if refused.Some? {
      return s', Failure(refused.value);
    }
    var spouses := SpousesOf(s.graph, id);
    if spouses == {} {
      return s', Success(None);
    }
    var y :| y in spouses;
    r := Success(Some(y));
  }

  /** How many children child's married parents share (child included). */
  method GetParentMaritalChildCount(s: Store, child: Id) returns (s': Store, r: Result<nat>)
    ensures s' == Issue(s, MaritalChildCountCall(child))
    ensures Refusal(s, MaritalChildCountCall(child)).Some? ==>
              r == Failure(Refusal(s, MaritalChildCountCall(child)).value)
    ensures Refusal(s, MaritalChildCountCall(child)).None? ==> r == Success(MaritalChildCount(s.graph, child))
  {
    s' := Issue(s, MaritalChildCountCall(child));
    var refused := Refusal(s, MaritalChildCountCall(child));
    if refused.Some? {
      return s', Failure(refused.value);
    }
    r := Success(MaritalChildCount(s.graph, child));
  }

  /** Whether the page query fails: the driver call fails, or the skip
      page * size has wrapped around to a negative number, which the
      database refuses as a SKIP. */
  predicate PageQueryFails(s: Store, page: int, size: int)
  {
    PeoplePageCall(page, size) in s.faults || PageSkip(page, size) < 0
  }

  /** The total number of people, then one page of them in the store's
      enumeration order. As written, a failure of the page query is
      ignored: the call succeeds with an empty page. */
  method GetPeopleAsWritten(s: Store, order: seq<Id>, page: int, size: int) returns (s': Store, r: Result<PeopleList>)
    requires page >= 0 && size >= 1
    requires Enumerates(order, s.graph.people.Keys)
    ensures s'.graph == s.graph && s'.session == s.session && s'.faults == s.faults
    ensures r.Success? ==> r.value.metadata == ListMetadata(page, |s.graph.people|)
    ensures r.Success? && !PageQueryFails(s, page, size) ==>
              r.value.content == PeoplePage(s.graph, order, PageSkip(page, size), size)
    ensures r.Success? && PageQueryFails(s, page, size) ==> r.value.content == []
    ensures r.Failure? <==> Refusal(s, CountPeopleCall).Some?
  {
    s' := Issue(s, CountPeopleCall);
    var refused := Refusal(s, CountPeopleCall);
    if refused.Some? {
      return s', Failure(refused.value);
    }
    var total := |s.graph.people|;
    var skip := PageSkip(page, size);
    s' := Issue(s', PeoplePageCall(page, size));
    var content := [];
    if PeoplePageCall(page, size) !in s.faults && skip >= 0 {
      content := PeoplePage(s.graph, order, skip, size);
    }
    r := Success(PeopleList(content, ListMetadata(page, total)));
  }

  /** The same, with a failure of the page query reported as an error. */
  method GetPeople(s: Store, order: seq<Id>, page: int, size: int) returns (s': Store, r: Result<PeopleList>)
    requires page >= 0 && size >= 1
    requires Enumerates(order, s.graph.people.Keys)
    ensures s'.graph == s.graph && s'.session == s.session && s'.faults == s.faults
    ensures r.Success? ==> PageSkip(page, size) >= 0
    ensures r.Success? ==> r.value == PeopleList(PeoplePage(s.graph, order, PageSkip(page, size), size), ListMetadata(page, |s.graph.people|))
    ensures r.Failure? <==> Refusal(s, CountPeopleCall).Some? || PageQueryFails(s, page, size)
    ensures Refusal(s, CountPeopleCall).Some? ==> r == Failure(Refusal(s, CountPeopleCall).value)
    ensures Refusal(s, CountPeopleCall).None? && PageQueryFails(s, page, size) ==> r == Failure(StoreFailure)
  {
    s' := Issue(s, CountPeopleCall);
    var refused := Refusal(s, CountPeopleCall);
    if refused.Some? {
      return s', Failure(refused.value);
    }
    var total := |s.graph.people|;
    var skip := PageSkip(page, size);
    s' := Issue(s', PeoplePageCall(page, size));
    refused := Refusal(s', PeoplePageCall(page, size));
    if refused.Some? || skip < 0 {
      return s', Failure(StoreFailure);
    }
    r := Success(PeopleList(PeoplePage(s.graph, order, skip, size), ListMetadata(page, total)));
  }

  /** Page 2^62 of size two wraps to a negative skip: the corrected
      adapter reports the failure, the code as written answers an empty
      page. Page 2^62 of size four wraps to a skip of zero and answers the
      first page. */
  method HugePage() returns (negAsWritten: Result<PeopleList>, negCorrected: Result<PeopleList>, zero: Result<PeopleList>)
    ensures negAsWritten == Success(PeopleList([], ListMetadata(0x4000_0000_0000_0000, 1)))
    ensures negCorrected == Failure(StoreFailure)
    ensures zero == Success(PeopleList([Person(1, "Alice")], ListMetadata(0x4000_0000_0000_0000, 1)))
  {
    var g := Graph(map[1 := "Alice"], {});
    var s := Store(g, Active(AccessRead), [], {});
    assert Enumerates([1], s.graph.people.Keys);
    HugePagesWrap();
    assert PeoplePage(g, [1], 0, 4) == [Person(1, "Alice")];
    var s';
    s', negAsWritten := GetPeopleAsWritten(s, [1], 0x4000_0000_0000_0000, 2);
    s', negCorrected := GetPeople(s, [1], 0x4000_0000_0000_0000, 2);
    s', zero := GetPeople(s, [1], 0x4000_0000_0000_0000, 4);
  }

  /** The hydrated fragment h describes the store: every person in it
      exists with the stored name, and every link is a stored edge. */
  ghost predicate Hydrates(g: Graph, h: Fragment)
  {
    forall x :: x in h ==>
      && x in g.people && h[x].name == g.people[x]
      && (forall i :: 0 <= i < |h[x].children| ==> ParentEdge(x, h[x].children[i]) in g.edges)
      && (forall i :: 0 <= i < |h[x].parents| ==> ParentEdge(h[x].parents[i], x) in g.edges)
      && (h[x].spouse.Some? ==> h[x].spouse.value in SpousesOf(g, x))
  }

  /** The family tree around root, mapped from the fragment the store
      hydrated for it (the query that selects the fragment is not part of
      this model). Every relation shown is a stored edge. */
  method GetFamilyTree(s: Store, root: Id, h: Fragment) returns (s': Store, r: Result<FamilyTree>)
    requires LinksClosed(h) && root in h && Hydrates(s.graph, h)
    ensures s' == Issue(s, FamilyTreeCall(root))
    ensures Refusal(s, FamilyTreeCall(root)).Some? ==> r == Failure(Refusal(s, FamilyTreeCall(root)).value)
    ensures Refusal(s, FamilyTreeCall(root)).None? ==> (r.Success? <==> !Broken(h, root))
    ensures Refusal(s, FamilyTreeCall(root)).None? && r.Failure? ==> r.error == InvalidUuid
    ensures r.Success? ==> forall z :: InTree(r.value, z) <==> z in h && Reaches(LinkRel(h), root, z)
    ensures r.Success? ==> DistinctPeople(r.value) && SpouseOnOneSide(r.value) && SpouseShownOnce(h, r.value)
    ensures r.Success? ==> exists rank :: ShownInOrder(h, r.value, rank) && root in rank && rank[root] == 0
    ensures r.Success? ==> forall i :: 0 <= i < |r.value.people| ==> ShowsStoredEdges(s.graph, r.value.people[i])
  {
    s' := Issue(s, FamilyTreeCall(root));
    var refused := Refusal(s, FamilyTreeCall(root));
    if refused.Some? {
      return s', Failure(refused.value);
    }
    r := FamilyTreeMapper(h, root);
    if r.Success? {
      forall i | 0 <= i < |r.value.people|
        ensures ShowsStoredEdges(s.graph, r.value.people[i])
      {
        FaithfulNodeShowsEdges(s.graph, h, r.value.people[i]);
      }
    }
  }

  /** A node's person exists with its stored name, each PARENT relation on
      it is a stored PARENT edge down to the named child, and each SPOUSE
      relation is a stored SPOUSE edge. */
  ghost predicate ShowsStoredEdges(g: Graph, n: FamilyTreeNode)
  {
    var x := n.person.id;
    && x in g.people && n.person.name == g.people[x]
    && forall k :: 0 <= k < |n.relations| ==>
         if n.relations[k].relationType == ParentRelation then ParentEdge(x, n.relations[k].personId) in g.edges
         else n.relations[k].relationType == SpouseRelation && n.relations[k].personId in SpousesOf(g, x)
  }

  lemma FaithfulNodeShowsEdges(g: Graph, h: Fragment, n: FamilyTreeNode)
    requires Hydrates(g, h) && NodeFaithful(h, n)
    ensures ShowsStoredEdges(g, n)
  {
    var x := n.person.id;
    var kids := ParentRelations(h[x].children);
    RelationTypesDistinct();
    forall k | 0 <= k < |n.relations|
      ensures if n.relations[k].relationType == ParentRelation then ParentEdge(x, n.relations[k].personId) in g.edges
              else n.relations[k].relationType == SpouseRelation && n.relations[k].personId in SpousesOf(g, x)
    {
      if n.relations == kids {
        assert n.relations[k] == FamilyTreeRelation(h[x].children[k], ParentRelation);
      } else if k == 0 {
        assert n.relations[0] == FamilyTreeRelation(h[x].spouse.value, SpouseRelation);
      } else {
        assert n.relations[k] == kids[k - 1];
      }
    }
  }

  // ---------------------------------------------------------------------
  // Writes

  /** A new person gets the identity the store assigns (newId here). */
  method SavePerson(s: Store, name: string, newId: Id) returns (s': Store, r: Result<Id>)
    requires newId !in s.graph.people && newId != NilId
    ensures s'.session == s.session && s'.faults == s.faults && s'.log == s.log + [SavePersonCall(name)]
    ensures Refusal(s, SavePersonCall(name)).Some? ==>
              r == Failure(Refusal(s, SavePersonCall(name)).value) && s'.graph == s.graph
    ensures Refusal(s, SavePersonCall(name)).None? ==>
              r == Success(newId) && s'.graph == s.graph.(people := s.graph.people[newId := name])
  {
    s' := Issue(s, SavePersonCall(name));
    var refused := Refusal(s, SavePersonCall(name));
    if refused.Some? {
      return s', Failure(refused.value);
    }
    s' := s'.(graph := s.graph.(people := s.graph.people[newId := name]));
    r := Success(newId);
  }

  /** Creates an edge of the given type from top to bottom. */
  method SaveRelationOp(s: Store, top: Id, bottom: Id, rt: RelationType) returns (s': Store, err: Option<Error>)
    ensures s'.session == s.session && s'.faults == s.faults && s'.log == s.log + [SaveRelationCall(top, bottom, rt)]
    ensures err == Refusal(s, SaveRelationCall(top, bottom, rt))
    ensures err.Some? ==> s'.graph == s.graph
    ensures err.None? ==> s'.graph == SaveRelation(s.graph, top, bottom, rt)
  {
    s' := Issue(s, SaveRelationCall(top, bottom, rt));
    err := Refusal(s, SaveRelationCall(top, bottom, rt));
    if err.None? {
      s' := s'.(graph := SaveRelation(s.graph, top, bottom, rt));
    }
  }

  /** Deletes the matched edges and reports whether any was deleted. */
  method DeleteRelationshipOp(s: Store, first: Id, second: Id, rt: RelationType) returns (s': Store, r: Result<bool>)
    ensures s'.session == s.session && s'.faults == s.faults
    ensures s'.log == s.log + [DeleteRelationshipCall(first, second, rt)]
    ensures Refusal(s, DeleteRelationshipCall(first, second, rt)).Some? ==>
              r == Failure(Refusal(s, DeleteRelationshipCall(first, second, rt)).value) && s'.graph == s.graph
    ensures Refusal(s, DeleteRelationshipCall(first, second, rt)).None? ==>
              r == Success(DeleteRelationship(s.graph, first, second, rt).1)
              && s'.graph == DeleteRelationship(s.graph, first, second, rt).0
  {
    s' := Issue(s, DeleteRelationshipCall(first, second, rt));
    var refused := Refusal(s, DeleteRelationshipCall(first, second, rt));
    if refused.Some? {
      return s', Failure(refused.value);
    }
    var (g', deleted) := DeleteRelationship(s.graph, first, second, rt);
    s' := s'.(graph := g');
    r := Success(deleted);
  }

  /** Deletes a person; the store refuses while relations remain, and that
      refusal is reported as PersonStillHasRelations. */
  method DeletePersonOp(s: Store, id: Id) returns (s': Store, err: Option<Error>)
    ensures s'.session == s.session && s'.faults == s.faults && s'.log == s.log + [DeletePersonCall(id)]
    ensures Refusal(s, DeletePersonCall(id)).Some? ==> err == Refusal(s, DeletePersonCall(id)) && s'.graph == s.graph
    ensures Refusal(s, DeletePersonCall(id)).None? && DeletePerson(s.graph, id).Failure? ==>
              err == Some(PersonStillHasRelations) && s'.graph == s.graph
    ensures Refusal(s, DeletePersonCall(id)).None? && DeletePerson(s.graph, id).Success? ==>
              err.None? && s'.graph == DeletePerson(s.graph, id).value
  {
    s' := Issue(s, DeletePersonCall(id));
    err := Refusal(s, DeletePersonCall(id));
    if err.Some? {
      return;
    }
    var deleted := DeletePerson(s.graph, id);
    if deleted.Failure? {
      return s', Some(deleted.error);
    }
    s' := s'.(graph := deleted.value);
  }

  // ---------------------------------------------------------------------
  // The page-query finding

  /** A store holding one person whose page query fails: as written, the
      adapter reports success with an empty first page while counting one
      person; the corrected adapter reports the failure. */
  method SwallowedPageFailure() returns (asWritten: Result<PeopleList>, corrected: Result<PeopleList>)
    ensures asWritten == Success(PeopleList([], ListMetadata(0, 1)))
    ensures corrected == Failure(StoreFailure)
  {
    var g := Graph(map[1 := "Alice"], {});
    var s := Store(g, Active(AccessRead), [], {PeoplePageCall(0, 10)});
    var s';
    s', asWritten := GetPeopleAsWritten(s, [1], 0, 10);
    s', corrected := GetPeople(s, [1], 0, 10);
  }
}
