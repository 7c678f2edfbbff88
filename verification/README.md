# Family tree service — a Dafny model

The service keeps people and two kinds of relationship between them in a
graph store:

- a directed PARENT edge, from parent to child;
- an undirected SPOUSE edge.

It answers family queries over HTTP: a person's family tree, the degree of
separation between two people (their "Bacon's number"), and a paged list of
people. Before the store is touched, the use cases enforce the rules of a
plausible family:

- a child has at most two parents;
- nobody is their own parent;
- a relationship is not recorded twice;
- no one becomes the parent of a relative;
- only a couple with a common child may marry;
- a person has at most one spouse;
- a married couple cannot lose their only shared child;
- a person with relationships cannot be deleted.

The model is split into modules that follow the program's layers.

| module | file | what it holds |
|---|---|---|
| `Kinship` | kinship.dfy | the domain entities, the relation types, the limits and the errors |
| `Reach` | reach.dfy | walks over a finite relation, with a layered closure and a nearest-target search |
| `KinGraph` | graph.dfy | the stored graph, and the meaning of every graph query the repository runs, stated over that graph |
| `RepoEntities` | repo_entities.dfy | the repository's mappers, and the recursive traversal and reduction that turn a hydrated person into a family tree |
| `FamilyTreeRepo` | repo.dfy | the repository as a store: session handling, a call log, calls that may fail, and each repository operation |
| `RelationshipUseCase` | relationship_use_case.dfy | the relationship use cases, each with a verdict function giving the error the rules demand |
| `PersonUseCase` | person_use_case.dfy | the person use cases: name trimming, pagination clamping, separation, deletion |
| `KinshipInvariants` | invariants.dfy | the plausible-family invariant, and the proof that every successful use case preserves it |
| `Server` | server.dfy | request validation, the error-to-status table, the Accept-header choice, and the response-body mappers with their round trip |

How the store is modelled:

- A store is a value: a graph, a session flag (idle or active in a mode), a log of the calls issued, and the set of calls that fail.
- A failing call stands for any store or driver error. It surfaces as `StoreFailure`.
- Every use case is proved to do three things:
  - end with the session closed;
  - leave the graph untouched when it reports an error;
  - report exactly the error its verdict function gives, when no call fails.
- Go's map iteration order appears as an explicit order parameter. This covers the family-tree reduction and the error-status scan. The status chosen for an error, the set of people in the reduced tree and every property proved about the tree do not depend on that order. The order of the tree's nodes follows it.

## Model

| member | source | states |
|---|---|---|
| Kinship.RelationTypesDistinct | internal/core/familytree/entities.go:10-17 | PARENT is directional and SPOUSE is not; each type prints as its name; the two names differ |
| Kinship.MaxParentsMessageEmbedsLimit | internal/core/familytree/entities.go:22-38 | the max-parents error message is built from the limit, which is two |
| Kinship.PagingConstants | internal/core/familytree/entities.go:27-29 | default page 0, default size 10, maximum size 50, and the default size lies within the allowed range |
| Kinship.DecimalString | internal/core/familytree/entities.go:38 | the %d rendering of a count is a non-empty string of decimal digits whose value is the count |
| KinGraph.ParentsOf | internal/adapters/familytreerepo/repo.go:107-126 | the parents query returns exactly the people with a PARENT edge into the child |
| KinGraph.ChildrenOf | internal/adapters/familytreerepo/entities.go:20-27 | a person's children are exactly the targets of their outgoing PARENT edges |
| KinGraph.SpousesOf | internal/adapters/familytreerepo/repo.go:308-335 | a person's spouses are the people joined to them by a SPOUSE edge in either direction |
| KinGraph.NoSpouseNoSpouseEdge | internal/adapters/familytreerepo/repo.go:308-335 | an empty spouse query means no SPOUSE edge touches the person |
| KinGraph.LowestCommonAncestor | internal/adapters/familytreerepo/repo.go:148-174 | an answer exists iff both people exist and share an ancestor, counting each person as their own; the answer is an ancestor of both and is nearest to the first person |
| KinGraph.CommonAncestorSymmetric | internal/adapters/familytreerepo/repo.go:148-174 | sharing an ancestor does not depend on the order of the two people |
| KinGraph.AncestorIsCommon | internal/adapters/familytreerepo/repo.go:148-174 | when one person descends from the other, the pair shares an ancestor |
| KinGraph.CommonChildren | internal/adapters/familytreerepo/repo.go:282-306 | the common children are exactly those with a PARENT edge from both people |
| KinGraph.HasCommonChild | internal/adapters/familytreerepo/repo.go:282-306 | true iff both people exist, are distinct, and some child has a PARENT edge from each |
| KinGraph.HasCommonChildSymmetric | internal/adapters/familytreerepo/repo.go:282-306 | having a common child does not depend on the order of the couple |
| KinGraph.MaritalCountIsSharedChildren | internal/adapters/familytreerepo/repo.go:337-363 | when the child's two parents are married, the marital child count is the number of children the couple shares |
| KinGraph.UnmarriedParentsCountZero | internal/adapters/familytreerepo/repo.go:337-363 | with no SPOUSE edge between the child's parents, the count is zero |
| KinGraph.ShortestPathLength | internal/adapters/familytreerepo/repo.go:252-280 | the meaning of the shortest-path query for two different people: found iff both exist and are connected, ignoring edge direction and kind; the length is that of a real path, and no shorter path exists |
| KinGraph.SeparationSymmetric | internal/adapters/familytreerepo/repo.go:252-280 | a path of length k from a to b gives one of length k from b to a |
| KinGraph.SaveRelation | internal/adapters/familytreerepo/repo.go:128-146 | the MATCH … CREATE adds the typed edge exactly when both endpoints exist; nothing else changes |
| KinGraph.DeleteRelationship | internal/adapters/familytreerepo/repo.go:364-397 | a directional delete removes only the a→b edge; an undirected one removes both directions; the result says whether anything matched |
| KinGraph.SaveThenDeleteParent | internal/adapters/familytreerepo/repo.go:128-146 | saving a new PARENT edge and deleting it restores the graph and reports a match |
| KinGraph.SpouseDeleteEitherSide | internal/adapters/familytreerepo/repo.go:364-371 | an undirected delete finds a SPOUSE edge stored the other way round |
| KinGraph.ParentDeleteOneSide | internal/adapters/familytreerepo/repo.go:364-371 | a directional delete does not match a PARENT edge stored the other way round |
| KinGraph.DeletePerson | internal/adapters/familytreerepo/repo.go:398-417 | refused with PersonStillHasRelations iff an edge touches the person; otherwise only that person is removed |
| KinGraph.GetPerson | internal/adapters/familytreerepo/repo.go:71-88 | no result iff the id is not stored; otherwise the stored name under that id |
| KinGraph.PeoplePage | internal/adapters/familytreerepo/repo.go:201-211 | SKIP skip LIMIT size for a non-negative skip: at most size people, empty past the end, each being the person at position skip+i |
| KinGraph.PageSkip | internal/adapters/familytreerepo/repo.go:209 | the skip is page·size in Go's 64-bit int: the product itself when it fits, otherwise the in-range value that differs from it by a multiple of 2^64 |
| KinGraph.HugePagesWrap | internal/adapters/familytreerepo/repo.go:209 | page 2^62 of size 4 wraps to a skip of 0, and of size 2 to the negative skip -2^63 |
| RepoEntities.SessionMapper | internal/adapters/familytreerepo/entities.go:29-38 | READ maps to read access and WRITE to write access; any other mode is InvalidSessionMode |
| RepoEntities.PersonMapper | internal/adapters/familytreerepo/entities.go:40-50 | a person maps iff its UUID parses, with the same id and name; otherwise InvalidUuid |
| RepoEntities.PeopleMapper | internal/adapters/familytreerepo/entities.go:52-63 | succeeds iff every person maps; the result keeps order and length |
| RepoEntities.Visit | internal/adapters/familytreerepo/entities.go:115-158 | visiting a new person keeps the partial tree consistent and records the person next in the recording order; everyone it records carries exactly one PARENT relation per child, in order, preceded by a SPOUSE relation exactly when the spouse was recorded after them; it fails with InvalidUuid only when a malformed person is reachable |
| RepoEntities.LeadsWhenLater | internal/adapters/familytreerepo/entities.go:122-134 | the person just recorded finds its spouse unrecorded (and so records SPOUSE) exactly when the spouse is recorded after it: the spouse is neither the person itself nor recorded earlier |
| RepoEntities.VisitChildren | internal/adapters/familytreerepo/entities.go:135-147 | every child is visited and a PARENT relation to it is appended, in order |
| RepoEntities.VisitParents | internal/adapters/familytreerepo/entities.go:148-156 | every parent is visited; no relation is recorded for the child's side |
| RepoEntities.VisitSpouse | internal/adapters/familytreerepo/entities.go:122-134 | an unvisited spouse is visited first, and the person's relations start with that one SPOUSE relation |
| RepoEntities.Coverage | internal/adapters/familytreerepo/entities.go:115-158 | after the traversal, the visited people are exactly those reachable from the root through hydrated links |
| RepoEntities.ReduceTree | internal/adapters/familytreerepo/entities.go:87-113 | one node per visited person, in the map order given, each carrying that person's recorded relations |
| RepoEntities.EnumerateKeys | internal/adapters/familytreerepo/entities.go:91-110 | some enumeration of the visited people exists: each once, and no others |
| RepoEntities.FamilyTreeMapper | internal/adapters/familytreerepo/entities.go:74-85 | succeeds iff no reachable person is malformed; then the tree holds exactly the reachable people, once each, and there is a recording order starting at the root in which each node shows one PARENT relation per child, in order, preceded by SPOUSE exactly when the spouse was recorded after the person; so two people whose spouse links name each other show SPOUSE on exactly one of their nodes, and no pair on both |
| RepoEntities.TreeCoverage | internal/adapters/familytreerepo/entities.go:87-113 | whatever the map order, the reduced tree holds exactly the visited people, each once |
| RepoEntities.TreeFaithful | internal/adapters/familytreerepo/entities.go:87-113 | the reduced tree shows its people in the traversal's recording order, root first: each node carries its person's stored name and exactly one PARENT relation per child, preceded by SPOUSE exactly when the spouse was recorded later; each pair whose spouse links name each other shows SPOUSE on exactly one side |
| RepoEntities.LeadsExactly | internal/adapters/familytreerepo/entities.go:122-134 | in any recording order, a node leads with SPOUSE y exactly when y is the person's spouse and was recorded after the person |
| RepoEntities.ShownOnce | internal/adapters/familytreerepo/entities.go:122-134 | whatever the recording order, no pair shows SPOUSE on both sides, and two people whose spouse links name each other show it on exactly one side |
| RepoEntities.NotBroken | internal/adapters/familytreerepo/entities.go:115-119 | if every reachable person is well formed, the traversal cannot fail |
| FamilyTreeRepo.Refusal | internal/adapters/familytreerepo/repo.go:36-43 | a call without an open session fails with InvalidSessionValue; a failing store call fails with StoreFailure |
| FamilyTreeRepo.OpenSession | internal/adapters/familytreerepo/repo.go:24-34 | an unknown mode is InvalidSessionMode and nothing happens; otherwise the session becomes active in the mapped mode unless the store fails |
| FamilyTreeRepo.CloseSession | internal/adapters/familytreerepo/repo.go:45-52 | closing leaves the session idle and changes nothing else |
| FamilyTreeRepo.GetPerson | internal/adapters/familytreerepo/repo.go:71-88 | a missing person is a nil result, not an error; a found one carries the stored name |
| FamilyTreeRepo.GetParents | internal/adapters/familytreerepo/repo.go:107-126 | returns exactly the child's parents |
| FamilyTreeRepo.GetLowestCommonAncestor | internal/adapters/familytreerepo/repo.go:148-174 | a result iff the two people share an ancestor; the result is an ancestor of both and, as ORDER BY length(path) LIMIT 1 picks it, no ancestor of the second person is fewer hops up from the first |
| FamilyTreeRepo.GetShortestPathLength | internal/adapters/familytreerepo/repo.go:252-280 | a stored person paired with itself is a store failure, since the database refuses a shortest path with one node at both ends; otherwise found iff connected, the length is minimal, and zero when not found |
| FamilyTreeRepo.HasCommonChildQuery | internal/adapters/familytreerepo/repo.go:282-306 | true iff the two are distinct and share a child |
| FamilyTreeRepo.GetSpouse | internal/adapters/familytreerepo/repo.go:308-335 | nil iff the person has no spouse; otherwise one of their spouses |
| FamilyTreeRepo.GetParentMaritalChildCount | internal/adapters/familytreerepo/repo.go:337-363 | the number of children shared by the child's married parents |
| FamilyTreeRepo.GetPeopleAsWritten | internal/adapters/familytreerepo/repo.go:176-221 | as written: a failing page query, including one whose wrapped skip is negative, still succeeds with no content and the full count |
| FamilyTreeRepo.HugePage | internal/adapters/familytreerepo/repo.go:207-214 | page 2^62 of size 2: as written an empty page, corrected StoreFailure; page 2^62 of size 4 answers the first page |
| FamilyTreeRepo.SwallowedPageFailure | internal/adapters/familytreerepo/repo.go:207-214 | one stored person and a failing page query: as written the answer is an empty page with total 1, corrected it is StoreFailure |
| FamilyTreeRepo.GetPeople | internal/adapters/familytreerepo/repo.go:176-221 | corrected: fails iff the count or the page query fails, a negative wrapped skip counting as a failing page query; otherwise the page at the wrapped skip and the total |
| FamilyTreeRepo.GetFamilyTree | internal/adapters/familytreerepo/repo.go:223-250 | succeeds iff the traversal does; the tree holds exactly the people reachable from the root, once each, shows only stored edges, and shows them in a recording order starting at the root, with SPOUSE on exactly one side of every pair whose spouse links name each other |
| FamilyTreeRepo.FaithfulNodeShowsEdges | internal/adapters/familytreerepo/repo.go:223-250 | every relation in a node is a stored edge: a PARENT edge to a child, or a SPOUSE edge |
| FamilyTreeRepo.SavePerson | internal/adapters/familytreerepo/repo.go:90-105 | on success the new id holds the name and nothing else changes; on failure the graph is untouched |
| FamilyTreeRepo.SaveRelationOp | internal/adapters/familytreerepo/repo.go:128-146 | the store's edge set becomes the saved relation's, unless the call fails |
| FamilyTreeRepo.DeleteRelationshipOp | internal/adapters/familytreerepo/repo.go:372-397 | the graph loses the matched edges, and the result reports whether any matched |
| FamilyTreeRepo.DeletePersonOp | internal/adapters/familytreerepo/repo.go:398-417 | a person with relationships is refused with PersonStillHasRelations; otherwise they are removed |
| RelationshipUseCase.SpouseExists | internal/core/familytree/relationship_use_case.go:57-65 | no spouse found means no error; the new spouse found means DuplicateRelation; anyone else means HasSpouseAlready |
| RelationshipUseCase.ValidateCreateChildRelation | internal/core/familytree/relationship_use_case.go:28-55 | reports the first broken rule, in order: parent limit, same id, duplicate, relatives; the graph is unchanged |
| RelationshipUseCase.ValidateCreateSpouseRelation | internal/core/familytree/relationship_use_case.go:67-88 | reports no common child first, then the first person's spouse, then the second's |
| RelationshipUseCase.MaxParentsWins | internal/core/familytree/relationship_use_case.go:29-35 | a child with two parents is refused with MaxParentsReached before any other rule is checked |
| RelationshipUseCase.ParentAllowedIff | internal/core/familytree/relationship_use_case.go:90-123 | a parent link is allowed iff both exist, the child has fewer than two parents, they differ, the link is new, and they share no ancestor |
| RelationshipUseCase.NoParentFromDescendant | internal/core/familytree/relationship_use_case.go:45-52 | a person cannot be made the parent of one of their own ancestors |
| RelationshipUseCase.SpouseAllowedIff | internal/core/familytree/relationship_use_case.go:125-158 | a marriage is allowed iff both exist, share a child, and neither has a spouse |
| RelationshipUseCase.ChildlessCoupleRefused | internal/core/familytree/relationship_use_case.go:68-74 | a couple without a common child is refused with CoupleHasNoChild |
| RelationshipUseCase.FirstSpouseDecides | internal/core/familytree/relationship_use_case.go:75-82 | when the first person is married, that marriage alone decides the error |
| RelationshipUseCase.SecondSpouseChecked | internal/core/familytree/relationship_use_case.go:83-87 | when only the second person is married, that marriage decides the error |
| RelationshipUseCase.OnlyChildWins | internal/core/familytree/relationship_use_case.go:201-207 | when the child is its married parents' only child, the link is kept with OnlyChildFromSpouseCouple |
| RelationshipUseCase.SharedChildMayLeave | internal/core/familytree/relationship_use_case.go:179-216 | a married parent's link may go iff the couple shares at least two children |
| RelationshipUseCase.UnmarriedParentsDetach | internal/core/familytree/relationship_use_case.go:179-216 | with unmarried parents, the link may go iff it exists |
| RelationshipUseCase.DeleteSpouseSymmetric | internal/core/familytree/relationship_use_case.go:218-248 | removing a marriage does not depend on the order of the couple |
| RelationshipUseCase.FindBoth | internal/core/familytree/relationship_use_case.go:98-111 | both people are looked up; a missing one is PersonNotFound |
| RelationshipUseCase.CreateParentRelation | internal/core/familytree/relationship_use_case.go:90-123 | with a write session: the verdict's error or the new PARENT edge; the session is closed at the end; a store failure leaves the graph untouched; a failed open returns at once, with no further call |
| RelationshipUseCase.CreateSpouseRelation | internal/core/familytree/relationship_use_case.go:125-158 | the verdict's error or the new SPOUSE edge; the session is closed at the end; a failed open returns at once, with no further call |
| RelationshipUseCase.DeleteParentRelation | internal/core/familytree/relationship_use_case.go:179-216 | the verdict's error, or exactly that PARENT edge removed; a failed open returns at once, with no further call |
| RelationshipUseCase.DeleteSpouseRelation | internal/core/familytree/relationship_use_case.go:218-248 | the verdict's error, or the SPOUSE edge removed in both directions; a failed open returns at once, with no further call |
| RelationshipUseCase.GetFamilyTree | internal/core/familytree/relationship_use_case.go:160-177 | an unknown person is PersonNotFound; otherwise the repository's tree of everyone reachable, shown in a recording order starting at the person, with SPOUSE on exactly one side of every pair whose spouse links name each other; the graph is unchanged; a failed open returns at once, with no further call |
| PersonUseCase.TrimSpace | internal/core/familytree/person_use_case.go:39 | the trimmed name is no longer than the input and neither starts nor ends with white space |
| PersonUseCase.TrimSpaceIsSlice | internal/core/familytree/person_use_case.go:39 | the trimmed name is a contiguous slice of the input, and only white space lies before and after it |
| PersonUseCase.TrimEmptyIff | internal/core/familytree/person_use_case.go:39-42 | a name trims to empty iff it is all white space |
| PersonUseCase.TrimIdempotent | internal/core/familytree/person_use_case.go:39 | trimming twice is trimming once |
| PersonUseCase.TrimNothingToTrim | internal/core/familytree/person_use_case.go:39 | a name with no white space at either end is kept as is |
| PersonUseCase.CreatePerson | internal/core/familytree/person_use_case.go:29-45 | a nil person is CreateNilPerson and a blank name EmptyPersonName, and in both cases nothing is saved; otherwise the trimmed name is saved under a new id |
| PersonUseCase.ClampPagination | internal/core/familytree/person_use_case.go:47-57 | a negative page becomes 0; a size outside 1..50 becomes 10 below or 50 above; valid values are kept |
| PersonUseCase.ClampFixesExactlyValid | internal/core/familytree/person_use_case.go:47-57 | clamping changes nothing iff the pagination is already valid, and clamping twice is clamping once |
| PersonUseCase.UnparsedPagingDefaults | internal/server/handler.go:142-150 | unparsable page and size arrive as zeros and are clamped to page 0 and size 10 |
| PersonUseCase.GetPeople | internal/core/familytree/person_use_case.go:59-69 | the page at the wrapped skip of the clamped pagination, with the total count and never more than 50 people; without failing calls it succeeds iff that skip is not negative; a failed open returns at once, with no further call |
| PersonUseCase.GetPerson | internal/core/familytree/person_use_case.go:71-79 | the stored person, or nil when the id is unknown; a failed open returns at once, with no further call |
| PersonUseCase.GetBaconsNumber | internal/core/familytree/person_use_case.go:81-109 | PersonNotFound when either is missing; the same person is (0, found) without querying the path; otherwise the minimal separation; a failed open returns at once, with no further call |
| PersonUseCase.DeletePerson | internal/core/familytree/person_use_case.go:111-128 | PersonNotFound or PersonStillHasRelations, in that order, with nothing deleted; otherwise only that person is removed; a failed open returns at once, with no further call |
| KinshipInvariants.EmptyPlausible | internal/core/familytree/relationship_use_case.go:28-88 | the empty family satisfies every rule |
| KinshipInvariants.AcyclicAfterParent | internal/core/familytree/relationship_use_case.go:45-52 | linking a parent and child that share no ancestor creates no ancestry cycle |
| KinshipInvariants.CreateParentPreserves | internal/core/familytree/relationship_use_case.go:90-123 | an allowed parent link keeps the family plausible: at most two parents, no cycle, at most one spouse, spouses share a child |
| KinshipInvariants.CreateSpousePreserves | internal/core/familytree/relationship_use_case.go:125-158 | an allowed marriage keeps the family plausible |
| KinshipInvariants.DeleteParentPreserves | internal/core/familytree/relationship_use_case.go:179-216 | an allowed parent removal keeps the family plausible; every couple still shares a child |
| KinshipInvariants.SharedChildSurvives | internal/core/familytree/relationship_use_case.go:201-207 | the only-child rule is what keeps every married couple sharing a child after a removal |
| KinshipInvariants.DeleteSpousePreserves | internal/core/familytree/relationship_use_case.go:218-248 | removing a marriage keeps the family plausible |
| KinshipInvariants.CreatePersonPreserves | internal/core/familytree/person_use_case.go:29-45 | adding a person keeps the family plausible |
| KinshipInvariants.DeletePersonPreserves | internal/core/familytree/person_use_case.go:111-128 | deleting a person with no relationships keeps the family plausible |
| KinshipInvariants.SpouseVerdictDeterministic | internal/core/familytree/relationship_use_case.go:67-88 | in a plausible family the marriage verdict is unique, whichever spouse the query returns |
| KinshipInvariants.Apply | internal/core/familytree/ports.go:27-41 | any write use case, in any outcome, leaves a plausible family plausible; an error leaves the graph untouched |
| KinshipInvariants.FamilyMayMarry | internal/core/familytree/relationship_use_case.go:67-88 | two parents of a common child, both unmarried, may marry |
| KinshipInvariants.MarriedFamilyRefusesAdoption | internal/core/familytree/relationship_use_case.go:45-52 | a spouse may not become the parent of their own grandchild: they are relatives |
| KinshipInvariants.AliceAndDave | internal/core/familytree/relationship_use_case.go:28-88 | worked example: Alice and Bob may marry, and Alice may not then adopt her grandson Dave |
| Server.Validate | internal/server/entities.go:57-65 | a relationship request is refused with NotUuid iff either id is the nil UUID |
| Server.ValidateIgnoresKind | internal/server/entities.go:57-110 | the four request kinds validate alike, whatever the order of the ids |
| Server.ErrorStatus | internal/server/common.go:66-75 | 404 iff the error is PersonNotFound or RelationNotFound; 400 iff it is another client error; 500 iff it is not in the table; the scan order does not matter |
| Server.RecogniseTable | internal/server/common.go:77-98 | binary and octet-stream select gob, application/xml selects XML, application/json selects JSON |
| Server.ResponseStrategy | internal/server/common.go:77-98 | the first recognised Accept value decides the encoding; with none, JSON; the status is kept |
| Server.PersonMapper | internal/server/entities.go:164-166 | a person's body carries the same id and name |
| Server.PeopleMapper | internal/server/entities.go:168-176 | every person, in order, copied unchanged |
| Server.RelationsMapper | internal/server/entities.go:150-155 | every relation in order, each type written as its name |
| Server.FamilyTreeMapper | internal/server/entities.go:140-162 | no tree gives no body; otherwise one body node per tree node, in order, with the same person and the same number of relations |
| Server.TreeRoundTrip | internal/server/entities.go:140-162 | the body reads back as the same tree, so no person, relation or relation type is lost |

## Left out

- I/O, the graph database driver and the Cypher text: each query is modelled by its meaning over the graph. Parsing a UUID is a well-formedness flag on a hydrated person.
- Parallel edges: the graph's edges form a set, so two identical edges collapse into one.
- The hydration query behind the repository's GetFamilyTree (repo.go:223-250): the hydrated fragment is a parameter. The model requires that it agrees with the stored graph.
- KinGraph.LowestCommonAncestor: the database's tie-break between equally near ancestors is not modelled. Any nearest common ancestor satisfies the contract.
- FamilyTreeRepo.GetSpouse: when the store somehow holds several spouses, which one the query returns is left open. The contract only says the answer is one of them.
- Go's map iteration order is a parameter. Concurrency, the HTTP router, the writers' encodings and the handlers beyond their paging defaults are left out.
- FamilyTreeRepo.HasCommonChildQuery: requires both people to exist. The source indexes `result[0]` of a query that returns no row for an unknown person. The use case only calls it after finding both people.
- FamilyTreeRepo.GetParentMaritalChildCount: the error for a query row of an unexpected type is not modelled. A well-typed store cannot return such a row.
- FamilyTreeRepo.GetPeople: a count row of the wrong type (repo.go:191-194) and a stored person whose UUID does not parse (repo.go:215-218) are not modelled. Stored people are well formed in this model.
- Nil versus empty relation lists are not told apart. In-place mutation of `person.Name` is modelled as the trimmed name being saved and returned.
- PersonUseCase.GetPeople: uses the corrected repository GetPeople (see Findings).
- Session objects are a flag on the store, and the context that carries them is left out.
- FamilyTreeRepo.SavePerson: the new person's id is a parameter. The store's UUID generator is not modelled.
- RepoEntities.ReduceTree: cannot fail. The source parses each relation's id again (entities.go:100-103), but every such id was written from a person that had already been mapped, so the parse cannot fail.
- Kinship.Message: a failing driver call and a UUID that does not parse carry the text of the library that raised them, so the model gives them no message. Every other error has the text its declaration gives.
- RepoEntities.TreeFaithful: promises that some recording order starting at the root explains every node, not that it is the depth-first order the traversal takes (spouse, then children, then parents). So when a spouse link is not returned by the other person, the contract fixes which side shows SPOUSE only relative to that order.
- RepoEntities.FamilyTreeMapper: the recording order is likewise only shown to exist, with the root first.
- FamilyTreeRepo.GetFamilyTree: passes on the mapper's tree, so its recording order is likewise only shown to exist, with the root first.
- RelationshipUseCase.GetFamilyTree: passes on the repository's tree, so its recording order is likewise only shown to exist, with the person first.
- RepoEntities.ShownOnce: "exactly one side" is stated for two people whose spouse links name each other. For a one-way link it states only "not both sides".
- RepoEntities.Visit: the traversal files people under the canonical text of their UUID (entities.go:119) but looks links up by the raw stored text (entities.go:122, 136, 149). The model identifies the two, which holds for the canonical lower-case UUIDs the store generates.
- Go's int is 64 bits wide. Only the product page·size is wrapped (KinGraph.PageSkip). Page and size are taken as already in range, because they come from strconv.Atoi.

## Findings

| source | as written | input that shows it | evidently intended | confidence | as-written member | corrected member |
|---|---|---|---|---|---|---|
| internal/adapters/familytreerepo/repo.go:207-214 | the error returned by the page query is discarded, and the check at line 212 re-tests the count query's error, so a failing page query returns success with an empty page | one stored person, a working count query, and a failing page query: the result is Success with no people and total 1 | a failing page query is reported as an error | not executed | FamilyTreeRepo.GetPeopleAsWritten | FamilyTreeRepo.GetPeople |
