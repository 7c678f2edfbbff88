/** The kinship domain: person identities, relation types, session modes,
    the error kinds every layer reports, and the fixed limits of the
    service (at most two parents, page sizes). */
module Kinship {

  /** Person identities are opaque values compared only for equality;
      the value 0 plays the role of the nil UUID. */
  type Id = nat

  const NilId: Id := 0

  datatype Option<T> = None | Some(value: T)

  datatype Person = Person(id: Id, name: string)

  datatype PaginationDetails = PaginationDetails(page: int, pageSize: int)

  datatype ListMetadata = ListMetadata(page: int, totalItems: int)

  datatype PeopleList = PeopleList(content: seq<Person>, metadata: ListMetadata)

  /** One relation recorded on a family-tree node: the other person and
      the type of the relation. */
  datatype FamilyTreeRelation = FamilyTreeRelation(personId: Id, relationType: RelationType)

  datatype FamilyTreeNode = FamilyTreeNode(person: Person, relations: seq<FamilyTreeRelation>)

  datatype FamilyTree = FamilyTree(people: seq<FamilyTreeNode>)

  /** A relation type: its label in the graph and whether the edge has a
      direction that matters when it is looked up again. */
  datatype RelationType = RelationType(name: string, directional: bool) {

    /** The textual form of a relation type, as rendered to clients. */
    function String(): (s: string)
      ensures s == name
    {
      name
    }
  }

  const ParentRelation := RelationType("PARENT", true)
  const SpouseRelation := RelationType("SPOUSE", false)

  /** The two relation types the service knows: PARENT points from parent
      to child, SPOUSE is matched from either side. */
  lemma RelationTypesDistinct()
    ensures ParentRelation.directional && !SpouseRelation.directional
    ensures ParentRelation.String() == "PARENT" && SpouseRelation.String() == "SPOUSE"
    ensures ParentRelation.name != SpouseRelation.name
  {
  }

  /** Session modes are free-form strings; only READ and WRITE are meaningful. */
  datatype SessionMode = SessionMode(name: string)

  const SessionRead := SessionMode("READ")
  const SessionWrite := SessionMode("WRITE")

  const MaxParents: nat := 2
  const MaxPageSize: int := 50
  const DefaultPageSize: int := 10
  const DefaultPage: int := 0

  datatype Error =
    | CreateNilPerson
    | EmptyPersonName
    | DuplicateRelation
    | MaxParentsReached
    | SameParentChildId
    | IncestuousRelation
    | PersonNotFound
    | CoupleHasNoChild
    | HasSpouseAlready
    | OnlyChildFromSpouseCouple
    | RelationNotFound
    | PersonStillHasRelations
    | InvalidSessionMode
    | InvalidSessionValue
    | InvalidQueryResult
    | InvalidUuid
    | NotUuid
    | StoreFailure

  datatype Result<T> = Success(value: T) | Failure(error: Error)

  /** The number a string of decimal digits denotes, most significant
      digit first. */
  function DigitsValue(s: string): (v: int)
    requires forall i :: 0 <= i < |s| ==> '0' <= s[i] <= '9'
  {
    if s == [] then 0
    else DigitsValue(s[..|s| - 1]) * 10 + (s[|s| - 1] as int - '0' as int)
  }

  /** Decimal rendering of a natural number (Go's %d), used to build
      messages: a non-empty string of digits that denotes n. */
  function DecimalString(n: nat): (s: string)
    ensures |s| >= 1
    ensures forall i :: 0 <= i < |s| ==> '0' <= s[i] <= '9'
    ensures DigitsValue(s) == n
  {
    if n < 10 then [(48 + n) as char]
    else
      var prefix := DecimalString(n / 10);
      var s := prefix + [(48 + n % 10) as char];
      assert s[..|s| - 1] == prefix;
      s
  }

  /** The human-readable message of each error kind. A failing driver call
      and a UUID that does not parse carry the text of the library that
      raised them, which is not part of this model. */
  function Message(e: Error): (m: Option<string>)
    ensures m.None? <==> e == StoreFailure || e == InvalidUuid
  {
    match e
    case CreateNilPerson => Some("can't create nil person")
    case EmptyPersonName => Some("person name can't be empty")
    case DuplicateRelation => Some("relation already exists")
    case MaxParentsReached => Some("child already has " + DecimalString(MaxParents) + " parents")
    case SameParentChildId => Some("child and parent ids can't be the same")
    case IncestuousRelation => Some("child and parent are already relatives")
    case PersonNotFound => Some("person not found")
    case CoupleHasNoChild => Some("couple has no common child")
    case HasSpouseAlready => Some("person has spouse already")
    case OnlyChildFromSpouseCouple => Some("can't delete only child relation of spouse coupe")
    case RelationNotFound => Some("relation not found")
    case PersonStillHasRelations => Some("person still has relations")
    case InvalidSessionMode => Some("invalid session mode")
    case InvalidSessionValue => Some("invalid session value")
    case InvalidQueryResult => Some("invalid query result")
    case InvalidUuid => None
    case NotUuid => Some("invalid uuid")
    case StoreFailure => None
  }

  /** The limit on parents is two, and the max-parents message carries it. */
  lemma MaxParentsMessageEmbedsLimit()
    ensures MaxParents == 2
    ensures Message(MaxParentsReached) == Some("child already has 2 parents")
  {
    assert DecimalString(2) == "2";
    assert "child already has " + "2" + " parents" == "child already has 2 parents";
  }

  /** Paging defaults: first page 0, ten items, never more than fifty. */
  lemma PagingConstants()
    ensures DefaultPage == 0 && DefaultPageSize == 10 && MaxPageSize == 50
    ensures 1 <= DefaultPageSize <= MaxPageSize
  {
  }
}
