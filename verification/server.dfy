/** The HTTP layer's pure parts: request validation, the mapping of domain
    results to response bodies, the error-to-status table, and the choice
    of body encoding from the Accept header values. */
module Server {
  import opened Kinship

  // ---------------------------------------------------------------------
  // Requests

  /** The four relationship requests; each names two people. */
  datatype Request =
    | PostCreateParentRelationship(parentId: Id, childId: Id)
    | DeleteParentRelationship(parentId: Id, childId: Id)
    | PostCreateSpouseRelationship(firstSpouseId: Id, secondSpouseId: Id)
    | DeleteSpouseRelationship(firstSpouseId: Id, secondSpouseId: Id)

  /** The two ids of a request in the order it checks them. */
  function Ids(r: Request): (ids: (Id, Id))
  {
    match r
    case PostCreateParentRelationship(p, c) => (p, c)
    case DeleteParentRelationship(p, c) => (p, c)
    case PostCreateSpouseRelationship(a, b) => (a, b)
    case DeleteSpouseRelationship(a, b) => (a, b)
  }

  /** A request is refused with NotUuid when either id is the nil UUID. */
  function Validate(r: Request): (e: Option<Error>)
    ensures e.Some? <==> Ids(r).0 == NilId || Ids(r).1 == NilId
    ensures e.Some? ==> e.value == NotUuid
  {
    match r
    case PostCreateParentRelationship(p, c) =>
      if p == NilId then Some(NotUuid) else if c == NilId then Some(NotUuid) else None
    case DeleteParentRelationship(p, c) =>
      if p == NilId then Some(NotUuid) else if c == NilId then Some(NotUuid) else None
    case PostCreateSpouseRelationship(a, b) =>
      if a == NilId then Some(NotUuid) else if b == NilId then Some(NotUuid) else None
    case DeleteSpouseRelationship(a, b) =>
      if a == NilId then Some(NotUuid) else if b == NilId then Some(NotUuid) else None
  }

  /** The order of the two ids does not matter to validation, and the
      request kind does not either. */
  lemma ValidateIgnoresKind(p: Id, c: Id)
    ensures Validate(PostCreateParentRelationship(p, c)) == Validate(DeleteParentRelationship(c, p))
    ensures Validate(PostCreateParentRelationship(p, c)) == Validate(PostCreateSpouseRelationship(p, c))
    ensures Validate(PostCreateParentRelationship(p, c)) == Validate(DeleteSpouseRelationship(p, c))
    ensures Validate(PostCreateParentRelationship(p, c)).None? <==> p != NilId && c != NilId
  {
  }

  // ---------------------------------------------------------------------
  // Status codes

  const StatusOK := 200
  const StatusBadRequest := 400
  const StatusNotFound := 404
  const StatusInternalServerError := 500

  /** The domain errors the server knows, with their statuses. */
  function StatusTable(): (table: map<Error, int>)
  {
    map[
      CreateNilPerson := StatusBadRequest,
      EmptyPersonName := StatusBadRequest,
      DuplicateRelation := StatusBadRequest,
      MaxParentsReached := StatusBadRequest,
      SameParentChildId := StatusBadRequest,
      IncestuousRelation := StatusBadRequest,
      PersonNotFound := StatusNotFound,
      CoupleHasNoChild := StatusBadRequest,
      HasSpouseAlready := StatusBadRequest,
      RelationNotFound := StatusNotFound,
      OnlyChildFromSpouseCouple := StatusBadRequest,
      PersonStillHasRelations := StatusBadRequest
    ]
  }

  /** The errors a client can cause: everything but the store's and the
      session's own failures and identity-format errors. */
  predicate ClientError(e: Error)
  {
    !(e.InvalidSessionMode? || e.InvalidSessionValue? || e.InvalidQueryResult?
      || e.InvalidUuid? || e.NotUuid? || e.StoreFailure?)
  }

  /** The table holds exactly the client errors: the two lookup misses
      are 404 and every other client error is 400. */
  lemma StatusTableMeaning(e: Error)
    ensures e in StatusTable() <==> ClientError(e)
    ensures e in StatusTable() ==>
              StatusTable()[e] == (if e == PersonNotFound || e == RelationNotFound then StatusNotFound else StatusBadRequest)
  {
  }

  /** The status for an error, scanning the table in the given order (the
      table is a Go map, so the order is unspecified) and falling back to
      500. The answer does not depend on the order. */
  method ErrorStatus(e: Error, order: seq<Error>) returns (status: int)
    requires forall x :: x in order <==> x in StatusTable()
    ensures status == StatusNotFound <==> e == PersonNotFound || e == RelationNotFound
    ensures status == StatusBadRequest <==> ClientError(e) && e != PersonNotFound && e != RelationNotFound
    ensures status == StatusInternalServerError <==> !ClientError(e)
  {
    var table := StatusTable();
    StatusTableMeaning(e);
    var i := 0;
    while i < |order|
      invariant 0 <= i <= |order|
      invariant forall j :: 0 <= j < i ==> order[j] != e
    {
      if order[i] == e {
        return table[order[i]];
      }
      i := i + 1;
    }
    status := StatusInternalServerError;
  }

  // ---------------------------------------------------------------------
  // Response encodings

  datatype Format = Gob | Xml | Json

  /** The writer the handler answers with: an encoding and a status. */
  datatype Writer = Writer(format: Format, status: int)

  /** The format an Accept value asks for, if the server knows it. */
  function Recognise(accept: string): (f: Option<Format>)
  {
    if accept == "binary" || accept == "application/octet-stream" then Some(Gob)
    else if accept == "application/xml" then Some(Xml)
    else if accept == "application/json" then Some(Json)
    else None
  }

  /** The values the server knows and what each selects. */
  lemma RecogniseTable(accept: string)
    ensures Recognise(accept) == Some(Gob) <==> accept == "binary" || accept == "application/octet-stream"
    ensures Recognise(accept) == Some(Xml) <==> accept == "application/xml"
    ensures Recognise(accept) == Some(Json) <==> accept == "application/json"
  {
  }

  /** The first recognised Accept value decides the encoding; unknown
      values are skipped; with none recognised the answer is JSON. The
      requested status is kept whatever the encoding. */
  method ResponseStrategy(accept: seq<string>, status: int) returns (w: Writer)
    ensures w.status == status
    ensures (forall i :: 0 <= i < |accept| ==> Recognise(accept[i]).None?) ==> w.format == Json
    ensures forall i :: 0 <= i < |accept| && Recognise(accept[i]).Some?
                        && (forall j :: 0 <= j < i ==> Recognise(accept[j]).None?)
                        ==> w.format == Recognise(accept[i]).value
  {
    var i := 0;
    while i < |accept|
      invariant 0 <= i <= |accept|
      invariant forall j :: 0 <= j < i ==> Recognise(accept[j]).None?
    {
      var f := Recognise(accept[i]);
      if f.Some? {
        return Writer(f.value, status);
      }
      i := i + 1;
    }
    w := Writer(Json, status);
  }

  // ---------------------------------------------------------------------
  // Response bodies

  datatype PersonBody = PersonBody(id: Id, name: string)
  datatype RelationBody = RelationBody(relativeId: Id, relation: string)
  datatype NodeBody = NodeBody(person: PersonBody, relations: seq<RelationBody>)
  datatype TreeBody = TreeBody(people: seq<NodeBody>)

  function PersonMapper(p: Person): (b: PersonBody)
    ensures b.id == p.id && b.name == p.name
  {
    PersonBody(p.id, p.name)
  }

  /** Every person in order, each copied unchanged. */
  function PeopleMapper(ps: seq<Person>): (bs: seq<PersonBody>)
    ensures |bs| == |ps|
    ensures forall i :: 0 <= i < |ps| ==> bs[i].id == ps[i].id && bs[i].name == ps[i].name
  {
    if ps == [] then [] else [PersonMapper(ps[0])] + PeopleMapper(ps[1..])
  }

  /** Every relation in order, its type rendered as its name. */
  function RelationsMapper(rs: seq<FamilyTreeRelation>): (bs: seq<RelationBody>)
    ensures |bs| == |rs|
    ensures forall i :: 0 <= i < |rs| ==>
              bs[i].relativeId == rs[i].personId && bs[i].relation == rs[i].relationType.String()
  {
    if rs == [] then []
    else [RelationBody(rs[0].personId, rs[0].relationType.String())] + RelationsMapper(rs[1..])
  }

  function NodesMapper(ns: seq<FamilyTreeNode>): (bs: seq<NodeBody>)
    ensures |bs| == |ns|
    ensures forall i :: 0 <= i < |ns| ==>
              bs[i].person == PersonMapper(ns[i].person) && bs[i].relations == RelationsMapper(ns[i].relations)
  {
    if ns == [] then []
    else [NodeBody(PersonMapper(ns[0].person), RelationsMapper(ns[0].relations))] + NodesMapper(ns[1..])
  }

  /** No tree maps to no body; otherwise the same nodes in the same order. */
  function FamilyTreeMapper(t: Option<FamilyTree>): (b: Option<TreeBody>)
    ensures b.None? <==> t.None?
    ensures t.Some? ==> |b.value.people| == |t.value.people|
    ensures t.Some? ==> forall i :: 0 <= i < |t.value.people| ==>
              && b.value.people[i].person.id == t.value.people[i].person.id
              && b.value.people[i].person.name == t.value.people[i].person.name
              && |b.value.people[i].relations| == |t.value.people[i].relations|
  {
    if t.None? then None else Some(TreeBody(NodesMapper(t.value.people)))
  }

  // ---------------------------------------------------------------------
  // Reading a body back

  /** The relation type a rendered name stands for. */
  function ParseRelation(name: string): (rt: Option<RelationType>)
  {
    if name == ParentRelation.name then Some(ParentRelation)
    else if name == SpouseRelation.name then Some(SpouseRelation)
    else None
  }

  /** Only the two relation types the service knows appear in trees. */
  ghost predicate KnownTypes(t: FamilyTree)
  {
    forall i, k :: 0 <= i < |t.people| && 0 <= k < |t.people[i].relations| ==>
      t.people[i].relations[k].relationType in {ParentRelation, SpouseRelation}
  }

  function UnmapRelations(bs: seq<RelationBody>): (rs: Option<seq<FamilyTreeRelation>>)
  {
    if bs == [] then Some([])
    else
      match ParseRelation(bs[0].relation)
      case None => None
      case Some(rt) =>
        match UnmapRelations(bs[1..])
        case None => None
        case Some(rest) => Some([FamilyTreeRelation(bs[0].relativeId, rt)] + rest)
  }

  function UnmapNodes(bs: seq<NodeBody>): (ns: Option<seq<FamilyTreeNode>>)
  {
    if bs == [] then Some([])
    else
      match UnmapRelations(bs[0].relations)
      case None => None
      case Some(rels) =>
        match UnmapNodes(bs[1..])
        case None => None
        case Some(rest) => Some([FamilyTreeNode(Person(bs[0].person.id, bs[0].person.name), rels)] + rest)
  }

  lemma {:induction false} RelationsRoundTrip(rs: seq<FamilyTreeRelation>)
    requires forall k :: 0 <= k < |rs| ==> rs[k].relationType in {ParentRelation, SpouseRelation}
    ensures UnmapRelations(RelationsMapper(rs)) == Some(rs)
  {
    if rs != [] {
      RelationTypesDistinct();
      RelationsRoundTrip(rs[1..]);
      assert RelationsMapper(rs)[1..] == RelationsMapper(rs[1..]);
      assert [rs[0]] + rs[1..] == rs;
    }
  }

  lemma {:induction false} NodesRoundTrip(ns: seq<FamilyTreeNode>)
    requires forall i, k :: 0 <= i < |ns| && 0 <= k < |ns[i].relations| ==>
               ns[i].relations[k].relationType in {ParentRelation, SpouseRelation}
    ensures UnmapNodes(NodesMapper(ns)) == Some(ns)
  {
    if ns != [] {
      RelationsRoundTrip(ns[0].relations);
      NodesRoundTrip(ns[1..]);
      assert NodesMapper(ns)[1..] == NodesMapper(ns[1..]);
      assert [ns[0]] + ns[1..] == ns;
    }
  }

  /** Mapping a tree to its response body loses nothing: the body reads
      back as the same tree, so every person, relation and relation type
      is carried over in order. */
  lemma TreeRoundTrip(t: FamilyTree)
    requires KnownTypes(t)
    ensures FamilyTreeMapper(Some(t)).Some?
    ensures UnmapNodes(FamilyTreeMapper(Some(t)).value.people) == Some(t.people)
  {
    NodesRoundTrip(t.people);
  }
}
