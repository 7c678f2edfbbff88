/** The person use cases: creating a person under a trimmed name, paging
    through people, looking one up, measuring the degree of separation
    between two people, and deleting a person. Each opens a session and
    closes it on every exit after a successful open. */
module PersonUseCase {
  import opened Kinship
  import opened Reach
  import opened KinGraph
  import opened RepoEntities
  import opened FamilyTreeRepo

  // ---------------------------------------------------------------------
  // Whitespace trimming

  /** The characters Go's unicode.IsSpace accepts: the ASCII spaces, NEL,
      NO-BREAK SPACE, and the Unicode White_Space characters above them. */
  const Spaces: set<char> :=
    {'\t', '\n', '\U{000B}', '\U{000C}', '\r', ' ', '\U{0085}', '\U{00A0}', '\U{1680}',
     '\U{2000}', '\U{2001}', '\U{2002}', '\U{2003}', '\U{2004}', '\U{2005}', '\U{2006}',
     '\U{2007}', '\U{2008}', '\U{2009}', '\U{200A}',
     '\U{2028}', '\U{2029}', '\U{202F}', '\U{205F}', '\U{3000}'}

  predicate IsSpace(c: char)
  {
    c in Spaces
  }

  predicate AllSpace(s: string)
  {
    forall i :: 0 <= i < |s| ==> IsSpace(s[i])
  }

  /** s without its leading white space. */
  function TrimLeft(s: string): (r: string)
    ensures |r| <= |s| && r == s[|s| - |r|..]
    ensures AllSpace(s[..|s| - |r|])
    ensures r != [] ==> !IsSpace(r[0])
  {
    if s == [] || !IsSpace(s[0]) then s
    else
      var rest := TrimLeft(s[1..]);
      assert s[..|s| - |rest|] == [s[0]] + s[1..][..|s| - 1 - |rest|];
      rest
  }

  /** s without its trailing white space. */
  function TrimRight(s: string): (r: string)
    ensures |r| <= |s| && r == s[..|r|]
    ensures AllSpace(s[|r|..])
    ensures r != [] ==> !IsSpace(r[|r| - 1])
  {
    if s == [] || !IsSpace(s[|s| - 1]) then s
    else
      var rest := TrimRight(s[..|s| - 1]);
      assert s[|rest|..] == s[..|s| - 1][|rest|..] + [s[|s| - 1]];
      rest
  }

  /** Go's strings.TrimSpace: s without its leading and trailing white
      space. */
  function TrimSpace(s: string): (r: string)
    ensures |r| <= |s|
    ensures r != [] ==> !IsSpace(r[0]) && !IsSpace(r[|r| - 1])
  {
    var left := TrimLeft(s);
    var r := TrimRight(left);
    assert r != [] ==> r[0] == left[0];
    r
  }

  /** The trimmed name r is the slice of s at some offset k, and only white
      space lies before and after it. */
  lemma TrimSpaceIsSlice(s: string) returns (k: nat, r: string)
    ensures r == TrimSpace(s)
    ensures k + |r| <= |s|
    ensures r == s[k..k + |r|]
    ensures AllSpace(s[..k]) && AllSpace(s[k + |r|..])
  {
    var left := TrimLeft(s);
    r := TrimRight(left);
    k := TrimmedSlice(s, left, r);
  }

  /** Cutting white space from the front of s (leaving left) and then from
      the back of left (leaving r) leaves r as the slice of s at k, with
      white space only before and after it. */
  lemma TrimmedSlice(s: string, left: string, r: string) returns (k: nat)
    requires |left| <= |s| && left == s[|s| - |left|..] && AllSpace(s[..|s| - |left|])
    requires |r| <= |left| && r == left[..|r|] && AllSpace(left[|r|..])
    ensures k + |r| <= |s|
    ensures r == s[k..k + |r|]
    ensures AllSpace(s[..k]) && AllSpace(s[k + |r|..])
  {
    k := |s| - |left|;
    assert left[|r|..] == s[k + |r|..];
  }

  /** A name trims to nothing exactly when it is all white space. */
  lemma TrimEmptyIff(s: string)
    ensures TrimSpace(s) == [] <==> AllSpace(s)
  {
    var k, r := TrimSpaceIsSlice(s);
    if r == [] {
      forall i | 0 <= i < |s|
        ensures IsSpace(s[i])
      {
        if i < k {
          assert s[i] == s[..k][i];
        } else {
          assert s[i] == s[k..][i - k];
        }
      }
    } else {
      assert r[0] == s[k];
    }
  }

  /** Trimming an already trimmed name changes nothing. */
  lemma TrimIdempotent(s: string)
    ensures TrimSpace(TrimSpace(s)) == TrimSpace(s)
  {
    var r := TrimSpace(s);
    TrimNothingToTrim(r);
  }

  /** A name that neither starts nor ends with white space is its own
      trimming. */
  lemma TrimNothingToTrim(r: string)
    requires r != [] ==> !IsSpace(r[0]) && !IsSpace(r[|r| - 1])
    ensures TrimSpace(r) == r
  {
    assert TrimLeft(r) == r;
    assert TrimRight(r) == r;
  }

  // ---------------------------------------------------------------------
  // Pagination

  /** A negative page becomes the first page; a non-positive size becomes
      the default size; a size above the maximum becomes the maximum. */
  function ClampPagination(p: PaginationDetails): (r: PaginationDetails)
    ensures ValidPagination(r)
    ensures p.page >= 0 ==> r.page == p.page
    ensures p.page < 0 ==> r.page == DefaultPage
    ensures 1 <= p.pageSize <= MaxPageSize ==> r.pageSize == p.pageSize
    ensures p.pageSize <= 0 ==> r.pageSize == DefaultPageSize
    ensures p.pageSize > MaxPageSize ==> r.pageSize == MaxPageSize
  {
    var page := if p.page < 0 then DefaultPage else p.page;
    var size := if p.pageSize <= 0 then DefaultPageSize else p.pageSize;
    var size' := if size > MaxPageSize then MaxPageSize else size;
    PaginationDetails(page, size')
  }

  predicate ValidPagination(p: PaginationDetails)
  {
    0 <= p.page && 1 <= p.pageSize <= MaxPageSize
  }

  /** Clamping leaves valid pagination alone, and only valid pagination;
      so clamping twice is clamping once. */
  lemma ClampFixesExactlyValid(p: PaginationDetails)
    ensures ClampPagination(p) == p <==> ValidPagination(p)
    ensures ClampPagination(ClampPagination(p)) == ClampPagination(p)
  {
  }

  /** An unparsable page or size reaches the clamp as zero: the first
      page of the default size. */
  lemma UnparsedPagingDefaults()
    ensures ClampPagination(PaginationDetails(0, 0)) == PaginationDetails(DefaultPage, DefaultPageSize)
  {
  }

  // ---------------------------------------------------------------------
  // Calls issued

  /** The store log only grows, and c is not among the calls added. */
  ghost predicate NotIssued(s: Store, s': Store, c: Call)
  {
    |s.log| <= |s'.log| && s'.log[..|s.log|] == s.log && c !in s'.log[|s.log|..]
  }

  // ---------------------------------------------------------------------
  // The operations

  /** Creates a person (None plays Go's nil) under its trimmed name; the
      store assigns newId. A missing or blank name is refused after the
      session opens, and nothing is saved. */
  method CreatePerson(s: Store, person: Option<string>, newId: Id) returns (s': Store, r: Result<Person>)
    requires s.session.Idle?
    requires newId !in s.graph.people && newId != NilId
    ensures s'.session.Idle? && s'.faults == s.faults
    ensures r.Failure? ==> s'.graph == s.graph
    ensures r.Failure? ==> r.error in {CreateNilPerson, EmptyPersonName, StoreFailure}
    ensures r.Success? ==> person.Some? && r.value == Person(newId, TrimSpace(person.value))
                           && TrimSpace(person.value) != []
                           && s'.graph == s.graph.(people := s.graph.people[newId := TrimSpace(person.value)])
    ensures OpenCall(AccessWrite) !in s.faults && person.None? ==> r == Failure(CreateNilPerson)
    ensures OpenCall(AccessWrite) !in s.faults && person.Some? && AllSpace(person.value) ==> r == Failure(EmptyPersonName)
    ensures s.faults == {} ==> (r.Success? <==> person.Some? && !AllSpace(person.value))
    ensures s'.log == s.log + [OpenCall(AccessWrite)]
            || (person.Some? && !AllSpace(person.value)
                && s'.log == s.log + [OpenCall(AccessWrite), SavePersonCall(TrimSpace(person.value))])
  {
    var open;
    s', open := OpenSession(s, SessionWrite);
    if open.Some? {
      r := Failure(open.value);
    } else {
      s', r := CreateSteps(s', person, newId);
      s' := CloseSession(s');
    }
  }

  /** The part of CreatePerson that runs inside the open session. */
  method CreateSteps(s: Store, person: Option<string>, newId: Id) returns (s': Store, r: Result<Person>)
    requires s.session.Active?
    requires newId !in s.graph.people && newId != NilId
    ensures s'.session == s.session && s'.faults == s.faults
    ensures r.Failure? ==> s'.graph == s.graph
    ensures r.Failure? ==> r.error in {CreateNilPerson, EmptyPersonName, StoreFailure}
    ensures r.Success? ==> person.Some? && r.value == Person(newId, TrimSpace(person.value))
                           && TrimSpace(person.value) != []
                           && s'.graph == s.graph.(people := s.graph.people[newId := TrimSpace(person.value)])
    ensures person.None? ==> r == Failure(CreateNilPerson)
    ensures person.Some? && AllSpace(person.value) ==> r == Failure(EmptyPersonName)
    ensures s.faults == {} ==> (r.Success? <==> person.Some? && !AllSpace(person.value))
    ensures s'.log == s.log
            || (person.Some? && !AllSpace(person.value)
                && s'.log == s.log + [SavePersonCall(TrimSpace(person.value))])
  {
    if person.None? {
      return s, Failure(CreateNilPerson);
    }
    var trimmed := TrimSpace(person.value);
    TrimEmptyIff(person.value);
    if trimmed == "" {
      return s, Failure(EmptyPersonName);
    }
    var saved;
    s', saved := SavePerson(s, trimmed, newId);
    if saved.Failure? {
      return s', Failure(saved.error);
    }
    r := Success(Person(saved.value, trimmed));
  }

  /** One page of people after clamping the requested pagination, with the
      total count. The page query's failure is reported (see the
      adapter's GetPeople). */
  method GetPeople(s: Store, order: seq<Id>, pagination: PaginationDetails) returns (s': Store, r: Result<PeopleList>)
    requires s.session.Idle?
    requires Enumerates(order, s.graph.people.Keys)
    ensures s'.session.Idle? && s'.graph == s.graph && s'.faults == s.faults
    ensures r.Success? ==>
              var q := ClampPagination(pagination);
              && PageSkip(q.page, q.pageSize) >= 0
              && r.value.metadata == ListMetadata(q.page, |s.graph.people|)
              && r.value.content == PeoplePage(s.graph, order, PageSkip(q.page, q.pageSize), q.pageSize)
              && |r.value.content| <= MaxPageSize
    ensures r.Failure? ==> r.error == StoreFailure
    ensures s.faults == {} ==>
              (r.Success? <==> PageSkip(ClampPagination(pagination).page, ClampPagination(pagination).pageSize) >= 0)
    ensures OpenCall(AccessRead) in s.faults ==> s'.log == s.log + [OpenCall(AccessRead)] && r == Failure(StoreFailure)
  {
    var open;
    s', open := OpenSession(s, SessionRead);
    if open.Some? {
      return s', Failure(open.value);
    }
    var q := ClampPagination(pagination);
    s', r := FamilyTreeRepo.GetPeople(s', order, q.page, q.pageSize);
    s' := CloseSession(s');
  }

  /** Looks one person up; a missing person is None, not an error. */
  method GetPerson(s: Store, id: Id) returns (s': Store, r: Result<Option<Person>>)
    requires s.session.Idle?
    ensures s'.session.Idle? && s'.graph == s.graph && s'.faults == s.faults
    ensures r.Success? ==> (r.value.None? <==> id !in s.graph.people)
    ensures r.Success? && r.value.Some? ==> r.value.value == Person(id, s.graph.people[id])
    ensures r.Failure? ==> r.error == StoreFailure
    ensures s.faults == {} ==> r.Success?
    ensures OpenCall(AccessRead) in s.faults ==> s'.log == s.log + [OpenCall(AccessRead)] && r == Failure(StoreFailure)
  {
    var open;
    s', open := OpenSession(s, SessionRead);
    if open.Some? {
      return s', Failure(open.value);
    }
    s', r := FamilyTreeRepo.GetPerson(s', id);
    s' := CloseSession(s');
  }

  /** The degree of separation between two people: the length of a
      shortest path over relations of any type and direction, with a flag
      saying whether one exists. A person is at distance zero from itself,
      answered without asking the store for a path. */
  method GetBaconsNumber(s: Store, firstId: Id, secondId: Id) returns (s': Store, r: Result<(nat, bool)>)
    requires s.session.Idle?
    ensures s'.session.Idle? && s'.graph == s.graph && s'.faults == s.faults
    ensures r.Failure? ==> r.error in {PersonNotFound, StoreFailure}
    ensures r.Failure? && r.error == PersonNotFound ==> firstId !in s.graph.people || secondId !in s.graph.people
    ensures s.faults == {} ==> (r.Success? <==> firstId in s.graph.people && secondId in s.graph.people)
    ensures r.Success? ==> firstId in s.graph.people && secondId in s.graph.people
    ensures r.Success? ==> (r.value.1 <==> Reaches(UndirectedRel(s.graph), firstId, secondId))
    ensures r.Success? && r.value.1 ==>
              && Walk(UndirectedRel(s.graph), firstId, secondId, r.value.0)
              && forall j: nat :: j < r.value.0 ==> !Walk(UndirectedRel(s.graph), firstId, secondId, j)
    ensures r.Success? && !r.value.1 ==> r.value.0 == 0
    ensures r.Success? && firstId == secondId ==> r.value == (0, true)
    ensures firstId == secondId ==> NotIssued(s, s', ShortestPathCall(firstId, secondId))
    ensures OpenCall(AccessRead) in s.faults ==> s'.log == s.log + [OpenCall(AccessRead)] && r == Failure(StoreFailure)
  {
    var open;
    s', open := OpenSession(s, SessionRead);
    if open.Some? {
      return s', Failure(open.value);
    }
    var found;
    s', found := FamilyTreeRepo.GetPerson(s', firstId);
    if found.Failure? {
      return CloseSession(s'), Failure(found.error);
    }
    if found.value.None? {
      return CloseSession(s'), Failure(PersonNotFound);
    }
    s', found := FamilyTreeRepo.GetPerson(s', secondId);
    if found.Failure? {
      return CloseSession(s'), Failure(found.error);
    }
    if found.value.None? {
      return CloseSession(s'), Failure(PersonNotFound);
    }
    if firstId == secondId {
      assert Walk(UndirectedRel(s.graph), firstId, secondId, 0);
      return CloseSession(s'), Success((0, true));
    }
    s', r := GetShortestPathLength(s', firstId, secondId);
    s' := CloseSession(s');
  }

  /** Deletes a person. A missing person is PersonNotFound and no delete
      is issued; a person with relations is refused by the store. */
  method DeletePerson(s: Store, id: Id) returns (s': Store, err: Option<Error>)
    requires s.session.Idle?
    ensures s'.session.Idle? && s'.faults == s.faults
    ensures err.Some? ==> s'.graph == s.graph
    ensures err.None? ==> id in s.graph.people && EdgesAt(s.graph, id) == {}
                          && s'.graph == s.graph.(people := s.graph.people - {id})
    ensures err.Some? ==> err.value in {PersonNotFound, PersonStillHasRelations, StoreFailure}
    ensures s.faults == {} ==>
              err == (if id !in s.graph.people then Some(PersonNotFound)
                      else if EdgesAt(s.graph, id) != {} then Some(PersonStillHasRelations)
                      else None)
    ensures id !in s.graph.people ==> NotIssued(s, s', DeletePersonCall(id))
    ensures OpenCall(AccessWrite) in s.faults ==> s'.log == s.log + [OpenCall(AccessWrite)] && err == Some(StoreFailure)
  {
    var open;
    s', open := OpenSession(s, SessionWrite);
    if open.Some? {
      return s', open;
    }
    var found;
    s', found := FamilyTreeRepo.GetPerson(s', id);
    if found.Failure? {
      return CloseSession(s'), Some(found.error);
    }
    if found.value.None? {
      return CloseSession(s'), Some(PersonNotFound);
    }
    s', err := DeletePersonOp(s', id);
    s' := CloseSession(s');
  }
}
