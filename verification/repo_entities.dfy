/** The store adapter's mappers: session modes to driver access modes,
    stored person records to domain people, and the linked family-tree
    fragment the store hydrates to a deduplicated family tree. */
module RepoEntities {
  import opened Kinship
  import opened Reach

  // ---------------------------------------------------------------------
  // Sessions

  datatype AccessMode = AccessRead | AccessWrite

  /** READ opens a read session and WRITE a write session; any other mode
      is refused. */
  function SessionMapper(mode: SessionMode): (r: Result<AccessMode>)
    ensures r == Success(AccessRead) <==> mode == SessionRead
    ensures r == Success(AccessWrite) <==> mode == SessionWrite
    ensures r.Failure? <==> mode != SessionRead && mode != SessionWrite
    ensures r.Failure? ==> r.error == InvalidSessionMode
  {
    if mode == SessionRead then Success(AccessRead)
    else if mode == SessionWrite then Success(AccessWrite)
    else Failure(InvalidSessionMode)
  }

  // ---------------------------------------------------------------------
  // Person records

  /** A person record as the store returns it; wellFormed is false when
      its stored identity does not parse as a UUID. */
  datatype RawPerson = RawPerson(uuid: Id, wellFormed: bool, name: string)

  function PersonMapper(p: RawPerson): (r: Result<Person>)
    ensures r.Success? <==> p.wellFormed
    ensures r.Success? ==> r.value.id == p.uuid && r.value.name == p.name
    ensures r.Failure? ==> r.error == InvalidUuid
  {
    if p.wellFormed then Success(Person(p.uuid, p.name)) else Failure(InvalidUuid)
  }

  /** Maps every record in order; the first record that does not map makes
      the whole mapping fail. */
  function PeopleMapper(ps: seq<RawPerson>): (r: Result<seq<Person>>)
    ensures r.Success? <==> forall i :: 0 <= i < |ps| ==> ps[i].wellFormed
    ensures r.Success? ==> |r.value| == |ps|
    ensures r.Success? ==> forall i :: 0 <= i < |ps| ==> r.value[i] == Person(ps[i].uuid, ps[i].name)
    ensures r.Failure? ==> r.error == InvalidUuid
  {
    if ps == [] then Success([])
    else
      match PersonMapper(ps[0])
      case Failure(e) => Failure(e)
      case Success(p) =>
        match PeopleMapper(ps[1..])
        case Failure(e) => Failure(e)
        case Success(rest) => Success([p] + rest)
  }

  // ---------------------------------------------------------------------
  // The hydrated fragment

  /** A person of the hydrated fragment with its links: at most one spouse,
      its children and its parents, each a reference into the fragment. */
  datatype Linked = Linked(wellFormed: bool, name: string, spouse: Option<Id>, children: seq<Id>, parents: seq<Id>)

  type Fragment = map<Id, Linked>

  /** Everyone a linked person points at. */
  function Links(n: Linked): (ls: set<Id>)
  {
    (if n.spouse.Some? then {n.spouse.value} else {})
      + (set i | 0 <= i < |n.children| :: n.children[i])
      + (set i | 0 <= i < |n.parents| :: n.parents[i])
  }

  /** References never dangle: every link points into the fragment. */
  ghost predicate LinksClosed(h: Fragment)
  {
    forall x, y :: x in h && y in Links(h[x]) ==> y in h
  }

  /** One step along a spouse, child or parent link. */
  function LinkRel(h: Fragment): (rel: Rel)
  {
    set x, y | x in h && y in Links(h[x]) :: (x, y)
  }

  lemma LinkStep(h: Fragment, x: Id, y: Id)
    requires x in h && y in Links(h[x])
    ensures (x, y) in LinkRel(h)
  {
  }

  // ---------------------------------------------------------------------
  // Traversal state

  /** What the traversal has recorded so far: the people by identity, the
      relations recorded under each identity, and the order of recording:
      stamp[z] is how many people were recorded before z, and next is how
      many have been recorded. */
  datatype Acc = Acc(people: map<Id, Person>, relations: map<Id, seq<FamilyTreeRelation>>,
                     stamp: map<Id, nat>, next: nat)

  const EmptyAcc := Acc(map[], map[], map[], 0)

  /** The relations recorded under x (none when x has no entry). */
  function RelationsOf(acc: Acc, x: Id): (rs: seq<FamilyTreeRelation>)
  {
    if x in acc.relations then acc.relations[x] else []
  }

  function AppendRelation(acc: Acc, x: Id, rel: FamilyTreeRelation): (r: Acc)
    ensures RelationsOf(r, x) == RelationsOf(acc, x) + [rel]
    ensures forall z :: z != x ==> RelationsOf(r, z) == RelationsOf(acc, z)
    ensures r.people == acc.people && r.stamp == acc.stamp && r.next == acc.next
  {
    acc.(relations := acc.relations[x := RelationsOf(acc, x) + [rel]])
  }

  /** The traversal state is consistent with the fragment it walks. */
  ghost predicate Consistent(h: Fragment, acc: Acc)
  {
    && acc.people.Keys <= h.Keys
    && acc.relations.Keys <= acc.people.Keys
    && (forall z :: z in acc.people ==> acc.people[z] == Person(z, h[z].name) && h[z].wellFormed)
    && acc.stamp.Keys == acc.people.Keys
    && (forall z :: z in acc.stamp ==> acc.stamp[z] < acc.next)
    && (forall x, y :: x in acc.stamp && y in acc.stamp && x != y ==> acc.stamp[x] != acc.stamp[y])
  }

  /** b extends a: nothing recorded in a is lost or altered, and whoever b
      adds is recorded after everyone in a. */
  ghost predicate Grows(a: Acc, b: Acc)
  {
    && a.people.Keys <= b.people.Keys
    && (forall z :: z in a.people ==> b.people[z] == a.people[z])
    && (forall z :: z in a.people ==> RelationsOf(b, z) == RelationsOf(a, z))
    && a.next <= b.next
    && (forall z :: z in a.stamp ==> z in b.stamp && b.stamp[z] == a.stamp[z])
    && (forall z :: z in b.stamp && z !in a.stamp ==> b.stamp[z] >= a.next)
  }

  /** One PARENT relation per entry of a children list, in order. */
  function ParentRelations(children: seq<Id>): (r: seq<FamilyTreeRelation>)
    ensures |r| == |children|
    ensures forall i :: 0 <= i < |r| ==> r[i] == FamilyTreeRelation(children[i], ParentRelation)
  {
    if children == [] then []
    else [FamilyTreeRelation(children[0], ParentRelation)] + ParentRelations(children[1..])
  }

  lemma ParentRelationsSnoc(children: seq<Id>, i: nat)
    requires i < |children|
    ensures ParentRelations(children[..i + 1])
            == ParentRelations(children[..i]) + [FamilyTreeRelation(children[i], ParentRelation)]
  {
    var a := ParentRelations(children[..i + 1]);
    var b := ParentRelations(children[..i]) + [FamilyTreeRelation(children[i], ParentRelation)];
    assert |a| == |b|;
    forall k | 0 <= k < |a|
      ensures a[k] == b[k]
    {
    }
  }

  lemma AppendAssoc<T>(a: seq<T>, b: seq<T>, c: seq<T>)
    ensures (a + b) + c == a + (b + c)
  {
  }

  /** In the recording order rank, z's spouse comes after z: the walk from
      z found the spouse unrecorded, walked it, and recorded SPOUSE on z. */
  ghost predicate SpouseLeads(h: Fragment, rank: map<Id, nat>, z: Id)
    requires z in h
  {
    && h[z].spouse.Some? && z in rank && h[z].spouse.value in rank
    && rank[z] < rank[h[z].spouse.value]
  }

  /** The relations shown for z when people were recorded in the order
      rank: one PARENT relation per child, preceded by a SPOUSE relation
      exactly when z's spouse was recorded after z. */
  ghost function ShownRelations(h: Fragment, rank: map<Id, nat>, z: Id): (rs: seq<FamilyTreeRelation>)
    requires z in h
  {
    var kids := ParentRelations(h[z].children);
    if SpouseLeads(h, rank, z) then [FamilyTreeRelation(h[z].spouse.value, SpouseRelation)] + kids else kids
  }

  ghost predicate RecordedFor(h: Fragment, acc: Acc, z: Id)
    requires z in h
  {
    RelationsOf(acc, z) == ShownRelations(h, acc.stamp, z)
  }

  /** Every link of z leads to a recorded person. */
  ghost predicate Finished(h: Fragment, acc: Acc, z: Id)
    requires z in h
  {
    forall y :: y in Links(h[z]) ==> y in acc.people
  }

  /** Some person reachable from root cannot be mapped. */
  ghost predicate Broken(h: Fragment, root: Id)
  {
    exists z :: z in h && Reaches(LinkRel(h), root, z) && !h[z].wellFormed
  }

  lemma BrokenStep(h: Fragment, id: Id, c: Id)
    requires (id, c) in LinkRel(h) && Broken(h, c)
    ensures Broken(h, id)
  {
    var z :| z in h && Reaches(LinkRel(h), c, z) && !h[z].wellFormed;
    ReachesStep(LinkRel(h), id, c, z);
  }

  /** What a traversal from root guarantees about the people it added to
      before: each is finished, reachable from root, and carries the
      relations RecordedFor fixes. */
  ghost predicate AddedWell(h: Fragment, before: Acc, after: Acc, root: Id)
    requires after.people.Keys <= h.Keys
  {
    forall z :: z in after.people && z !in before.people ==>
      Finished(h, after, z) && Reaches(LinkRel(h), root, z) && RecordedFor(h, after, z)
  }

  // ---------------------------------------------------------------------
  // Lemmas about the traversal state

  lemma GrowsRefl(a: Acc)
    ensures Grows(a, a)
  {
  }

  lemma GrowsTrans(a: Acc, b: Acc, c: Acc)
    requires Grows(a, b) && Grows(b, c)
    ensures Grows(a, c)
  {
  }

  /** Once z is finished its spouse is recorded, so whether SPOUSE leads
      on z no longer changes as the record grows. */
  lemma RecordedForGrows(h: Fragment, a: Acc, b: Acc, z: Id)
    requires z in h && z in a.people && a.stamp.Keys == a.people.Keys
    requires Finished(h, a, z) && RecordedFor(h, a, z) && Grows(a, b)
    ensures RecordedFor(h, b, z)
  {
    assert SpouseLeads(h, b.stamp, z) == SpouseLeads(h, a.stamp, z);
  }

  /** The number of unrecorded people drops once id is recorded. */
  lemma MeasureDrops(h: Fragment, acc: Acc, cur: Acc, id: Id)
    requires id in h && id !in acc.people
    requires acc.people.Keys + {id} <= cur.people.Keys
    ensures |h.Keys - cur.people.Keys| < |h.Keys - acc.people.Keys|
  {
    SubsetCard(h.Keys - cur.people.Keys, (h.Keys - acc.people.Keys) - {id});
  }

  // ---------------------------------------------------------------------
  // The traversal

  /** id was recorded right after everyone in acc, and everyone recorded
      since, other than id itself, is finished, reachable from id, and
      carries the relations RecordedFor fixes. */
  ghost predicate Settled(h: Fragment, acc: Acc, cur: Acc, id: Id)
    requires cur.people.Keys <= h.Keys
  {
    && id in cur.stamp && cur.stamp[id] == acc.next
    && forall z :: z in cur.people && z !in acc.people && z != id ==>
         Finished(h, cur, z) && Reaches(LinkRel(h), id, z) && RecordedFor(h, cur, z)
  }

  /** Records id, then walks its spouse, children and parents, recursing
      only into people not yet recorded. A SPOUSE relation is recorded on id
      exactly when the spouse was unrecorded, and so is recorded after id; a
      PARENT relation is recorded on id for every child, recorded before or
      not; walking parents records nothing on id. */
  method Visit(h: Fragment, id: Id, acc: Acc) returns (r: Result<Acc>)
    requires LinksClosed(h) && id in h && id !in acc.people
    requires Consistent(h, acc)
    ensures r.Success? ==> Consistent(h, r.value) && Grows(acc, r.value)
    ensures r.Success? ==> id in r.value.people && AddedWell(h, acc, r.value, id)
    ensures r.Success? ==> id in r.value.stamp && r.value.stamp[id] == acc.next
    ensures r.Failure? ==> r.error == InvalidUuid && Broken(h, id)
    decreases |h.Keys - acc.people.Keys|, 3
  {
    var node := h[id];
    var person := PersonMapper(RawPerson(id, node.wellFormed, node.name));
    if person.Failure? {
      ReachesRefl(LinkRel(h), id);
      return Failure(person.error);
    }
    var start := acc.(people := acc.people[id := person.value], stamp := acc.stamp[id := acc.next], next := acc.next + 1);
    StartConsistent(h, acc, id);
    var cur := start;

    // The spouse, when not yet recorded, is walked and then recorded on id.
    if node.spouse.Some? && node.spouse.value !in cur.people {
      var sub := VisitSpouse(h, id, acc, start);
      if sub.Failure? {
        return sub;
      }
      cur := sub.value;
    }
    ghost var leads := node.spouse.Some? && node.spouse.value !in start.people;
    assert RelationsOf(cur, id) == if leads then [FamilyTreeRelation(node.spouse.value, SpouseRelation)] else [];

    // Every child gets a PARENT relation on id, walked first if new;
    // parents are walked when new, and nothing is recorded on id for them.
    var withChildren := VisitChildren(h, id, acc, cur);
    if withChildren.Failure? {
      return withChildren;
    }
    var withParents := VisitParents(h, id, acc, withChildren.value);
    if withParents.Failure? {
      return withParents;
    }
    cur := withParents.value;
    FinishVisit(h, id, acc, cur, leads);
    return Success(cur);
  }

  /** The state of Visit(id) after its first i children: everything
      recorded since acc is settled, and id carries its lead relations
      followed by one PARENT relation per child walked so far. */
  ghost predicate ChildrenSoFar(h: Fragment, id: Id, acc: Acc, cur0: Acc, cur: Acc, i: nat)
    requires id in h && i <= |h[id].children|
  {
    && Consistent(h, cur) && Grows(acc, cur) && Settled(h, acc, cur, id)
    && cur0.people.Keys <= cur.people.Keys
    && RelationsOf(cur, id) == RelationsOf(cur0, id) + ParentRelations(h[id].children[..i])
    && (forall k :: 0 <= k < i ==> h[id].children[k] in cur.people)
  }

  /** Walks each child of id that is not yet recorded and records a PARENT
      relation on id for every child, in order. */
  method VisitChildren(h: Fragment, id: Id, acc: Acc, cur0: Acc) returns (r: Result<Acc>)
    requires LinksClosed(h) && id in h && id !in acc.people && id in cur0.people
    requires Consistent(h, cur0) && Grows(acc, cur0) && Settled(h, acc, cur0, id)
    ensures r.Success? ==> Consistent(h, r.value) && Grows(acc, r.value) && Settled(h, acc, r.value, id)
    ensures r.Success? ==> cur0.people.Keys <= r.value.people.Keys
    ensures r.Success? ==> RelationsOf(r.value, id) == RelationsOf(cur0, id) + ParentRelations(h[id].children)
    ensures r.Success? ==> forall k :: 0 <= k < |h[id].children| ==> h[id].children[k] in r.value.people
    ensures r.Failure? ==> r.error == InvalidUuid && Broken(h, id)
    decreases |h.Keys - acc.people.Keys|, 2
  {
    var cur := cur0;
    var i := 0;
    ChildrenStart(h, id, acc, cur0);
    while i < |h[id].children|
      invariant 0 <= i <= |h[id].children|
      invariant id in cur.people && ChildrenSoFar(h, id, acc, cur0, cur, i)
    {
      var next := ChildStep(h, id, acc, cur0, cur, i);
      if next.Failure? {
        return next;
      }
      cur := next.value;
      i := i + 1;
    }
    ChildrenDone(h, id, acc, cur0, cur);
    return Success(cur);
  }

  lemma ChildrenStart(h: Fragment, id: Id, acc: Acc, cur0: Acc)
    requires id in h && Consistent(h, cur0) && Grows(acc, cur0) && Settled(h, acc, cur0, id)
    ensures ChildrenSoFar(h, id, acc, cur0, cur0, 0)
  {
    assert h[id].children[..0] == [];
  }

  lemma ChildrenDone(h: Fragment, id: Id, acc: Acc, cur0: Acc, cur: Acc)
    requires id in h && ChildrenSoFar(h, id, acc, cur0, cur, |h[id].children|)
    ensures Consistent(h, cur) && Grows(acc, cur) && Settled(h, acc, cur, id)
    ensures cur0.people.Keys <= cur.people.Keys
    ensures RelationsOf(cur, id) == RelationsOf(cur0, id) + ParentRelations(h[id].children)
    ensures forall k :: 0 <= k < |h[id].children| ==> h[id].children[k] in cur.people
  {
    assert h[id].children[..|h[id].children|] == h[id].children;
  }

  /** One round of VisitChildren: walk child i when new, then record a
      PARENT relation to it on id. */
  method ChildStep(h: Fragment, id: Id, acc: Acc, cur0: Acc, cur: Acc, i: nat) returns (r: Result<Acc>)
    requires LinksClosed(h) && id in h && id !in acc.people && id in cur.people
    requires i < |h[id].children| && ChildrenSoFar(h, id, acc, cur0, cur, i)
    ensures r.Success? ==> id in r.value.people && ChildrenSoFar(h, id, acc, cur0, r.value, i + 1)
    ensures r.Failure? ==> r.error == InvalidUuid && Broken(h, id)
    decreases |h.Keys - acc.people.Keys|, 1
  {
    var children := h[id].children;
    var c := children[i];
    var sub := WalkTo(h, id, c, acc, cur);
    if sub.Failure? {
      return sub;
    }
    assert forall k :: 0 <= k <= i ==> children[k] in sub.value.people;
    assert RelationsOf(sub.value, id) == RelationsOf(cur, id);
    ghost var before := RelationsOf(cur, id);
    AppendKeeps(h, id, FamilyTreeRelation(c, ParentRelation), acc, sub.value);
    var next := AppendRelation(sub.value, id, FamilyTreeRelation(c, ParentRelation));
    assert RelationsOf(next, id) == before + [FamilyTreeRelation(c, ParentRelation)];
    ParentRelationsSnoc(children, i);
    AppendAssoc(RelationsOf(cur0, id), ParentRelations(children[..i]), [FamilyTreeRelation(c, ParentRelation)]);
    return Success(next);
  }

  /** The state of Visit(id) after its first j parents. */
  ghost predicate ParentsSoFar(h: Fragment, id: Id, acc: Acc, cur0: Acc, cur: Acc, j: nat)
    requires id in h && j <= |h[id].parents|
  {
    && Consistent(h, cur) && Grows(acc, cur) && Settled(h, acc, cur, id)
    && Grows(cur0, cur)
    && (forall k :: 0 <= k < j ==> h[id].parents[k] in cur.people)
  }

  /** Walks each parent of id that is not yet recorded. */
  method VisitParents(h: Fragment, id: Id, acc: Acc, cur0: Acc) returns (r: Result<Acc>)
    requires LinksClosed(h) && id in h && id !in acc.people && id in cur0.people
    requires Consistent(h, cur0) && Grows(acc, cur0) && Settled(h, acc, cur0, id)
    ensures r.Success? ==> Consistent(h, r.value) && Grows(acc, r.value) && Settled(h, acc, r.value, id)
    ensures r.Success? ==> Grows(cur0, r.value)
    ensures r.Success? ==> forall k :: 0 <= k < |h[id].parents| ==> h[id].parents[k] in r.value.people
    ensures r.Failure? ==> r.error == InvalidUuid && Broken(h, id)
    decreases |h.Keys - acc.people.Keys|, 2
  {
    var cur := cur0;
    var j := 0;
    while j < |h[id].parents|
      invariant 0 <= j <= |h[id].parents|
      invariant id in cur.people && ParentsSoFar(h, id, acc, cur0, cur, j)
    {
      var next := ParentStep(h, id, acc, cur0, cur, j);
      if next.Failure? {
        return next;
      }
      cur := next.value;
      j := j + 1;
    }
    return Success(cur);
  }

  /** One round of VisitParents: walk parent j when new. */
  method ParentStep(h: Fragment, id: Id, acc: Acc, cur0: Acc, cur: Acc, j: nat) returns (r: Result<Acc>)
    requires LinksClosed(h) && id in h && id !in acc.people && id in cur.people
    requires j < |h[id].parents| && ParentsSoFar(h, id, acc, cur0, cur, j)
    ensures r.Success? ==> id in r.value.people && ParentsSoFar(h, id, acc, cur0, r.value, j + 1)
    ensures r.Failure? ==> r.error == InvalidUuid && Broken(h, id)
    decreases |h.Keys - acc.people.Keys|, 1
  {
    var parents := h[id].parents;
    var sub := WalkTo(h, id, parents[j], acc, cur);
    if sub.Failure? {
      return sub;
    }
    assert forall k :: 0 <= k <= j ==> parents[k] in sub.value.people;
    GrowsTrans(cur0, cur, sub.value);
    return sub;
  }

  /** The first step of Visit(id) when id's spouse is unrecorded: walk the
      spouse, then record SPOUSE on id. */
  method VisitSpouse(h: Fragment, id: Id, acc: Acc, start: Acc) returns (r: Result<Acc>)
    requires LinksClosed(h) && id in h && id !in acc.people
    requires h[id].spouse.Some? && h[id].spouse.value !in start.people
    requires start.people.Keys == acc.people.Keys + {id} && Grows(acc, start)
    requires Consistent(h, start) && RelationsOf(start, id) == [] && start.stamp[id] == acc.next
    ensures r.Success? ==> Consistent(h, r.value) && Grows(acc, r.value) && Settled(h, acc, r.value, id)
    ensures r.Success? ==> id in r.value.people && h[id].spouse.value in r.value.people
    ensures r.Success? ==> RelationsOf(r.value, id) == [FamilyTreeRelation(h[id].spouse.value, SpouseRelation)]
    ensures r.Failure? ==> r.error == InvalidUuid && Broken(h, id)
    decreases |h.Keys - acc.people.Keys|, 0
  {
    var s := h[id].spouse.value;
    MeasureDrops(h, acc, start, id);
    var sub := Visit(h, s, start);
    if sub.Failure? {
      LinkStep(h, id, s);
      BrokenStep(h, id, s);
      return sub;
    }
    SpouseStep(h, id, acc, start, sub.value);
    return Success(AppendRelation(sub.value, id, FamilyTreeRelation(h[id].spouse.value, SpouseRelation)));
  }

  /** Recording id (with no relations yet) as the next person keeps the
      state consistent. */
  lemma StartConsistent(h: Fragment, acc: Acc, id: Id)
    requires id in h && h[id].wellFormed && id !in acc.people && Consistent(h, acc)
    ensures var start := acc.(people := acc.people[id := Person(id, h[id].name)],
                              stamp := acc.stamp[id := acc.next], next := acc.next + 1);
      && Consistent(h, start) && Grows(acc, start) && RelationsOf(start, id) == []
      && start.people.Keys == acc.people.Keys + {id}
      && Settled(h, acc, start, id)
  {
    StartGrows(h, acc, id);
  }

  lemma StartGrows(h: Fragment, acc: Acc, id: Id)
    requires id in h && id !in acc.people && Consistent(h, acc)
    ensures var start := acc.(people := acc.people[id := Person(id, h[id].name)],
                              stamp := acc.stamp[id := acc.next], next := acc.next + 1);
      Grows(acc, start) && RelationsOf(start, id) == []
  {
    var start := acc.(people := acc.people[id := Person(id, h[id].name)],
                      stamp := acc.stamp[id := acc.next], next := acc.next + 1);
    assert forall x :: RelationsOf(start, x) == RelationsOf(acc, x);
  }

  /** After the spouse s of id has been walked, recording SPOUSE s on id
      gives everything VisitSpouse promises. */
  lemma SpouseStep(h: Fragment, id: Id, acc: Acc, start: Acc, next: Acc)
    requires LinksClosed(h) && id in h && id !in acc.people
    requires h[id].spouse.Some? && h[id].spouse.value !in start.people
    requires start.people.Keys == acc.people.Keys + {id} && Grows(acc, start)
    requires Consistent(h, start) && RelationsOf(start, id) == [] && start.stamp[id] == acc.next
    requires Consistent(h, next) && Grows(start, next)
    requires h[id].spouse.value in next.people && AddedWell(h, start, next, h[id].spouse.value)
    ensures var cur := AppendRelation(next, id, FamilyTreeRelation(h[id].spouse.value, SpouseRelation));
      && Consistent(h, cur) && Grows(acc, cur) && Settled(h, acc, cur, id)
      && id in cur.people && h[id].spouse.value in cur.people
      && RelationsOf(cur, id) == [FamilyTreeRelation(h[id].spouse.value, SpouseRelation)]
  {
    var s := h[id].spouse.value;
    LinkStep(h, id, s);
    GrowsTrans(acc, start, next);
    SpouseWalkedSettled(h, id, s, acc, start, next);
    assert RelationsOf(next, id) == [];
    AppendKeeps(h, id, FamilyTreeRelation(s, SpouseRelation), acc, next);
  }

  /** Everyone the walk from the spouse s added is settled for id. */
  lemma SpouseWalkedSettled(h: Fragment, id: Id, s: Id, acc: Acc, start: Acc, next: Acc)
    requires (id, s) in LinkRel(h) && next.people.Keys <= h.Keys
    requires start.people.Keys == acc.people.Keys + {id} && id in start.stamp && start.stamp[id] == acc.next
    requires Grows(start, next) && AddedWell(h, start, next, s)
    ensures Settled(h, acc, next, id)
  {
    forall z | z in next.people && z !in acc.people && z != id
      ensures Finished(h, next, z) && Reaches(LinkRel(h), id, z) && RecordedFor(h, next, z)
    {
      ReachesStep(LinkRel(h), id, s, z);
    }
  }

  /** Walks from id to one of its links c unless c is already recorded. */
  method WalkTo(h: Fragment, id: Id, c: Id, acc: Acc, cur: Acc) returns (r: Result<Acc>)
    requires LinksClosed(h) && id in h && c in Links(h[id]) && id !in acc.people
    requires Consistent(h, cur) && Grows(acc, cur) && id in cur.people && Settled(h, acc, cur, id)
    ensures r.Success? ==> Consistent(h, r.value) && Grows(cur, r.value) && Settled(h, acc, r.value, id)
    ensures r.Success? ==> c in r.value.people && Grows(acc, r.value)
    ensures r.Failure? ==> r.error == InvalidUuid && Broken(h, id)
    decreases |h.Keys - acc.people.Keys|, 0
  {
    if c in cur.people {
      GrowsRefl(cur);
      return Success(cur);
    }
    MeasureDrops(h, acc, cur, id);
    var sub := Visit(h, c, cur);
    if sub.Failure? {
      LinkStep(h, id, c);
      BrokenStep(h, id, c);
      return sub;
    }
    LinkStep(h, id, c);
    GrowsTrans(acc, cur, sub.value);
    ChildWalked(h, acc, cur, sub.value, id, c);
    return sub;
  }

  /** Recording a PARENT relation to a recorded child c on id keeps the
      traversal state consistent and settled. */
  lemma AppendKeeps(h: Fragment, id: Id, rel: FamilyTreeRelation, acc: Acc, cur: Acc)
    requires id in h && id !in acc.people && id in cur.people
    requires Consistent(h, cur) && Grows(acc, cur) && Settled(h, acc, cur, id)
    ensures var r := AppendRelation(cur, id, rel);
      Consistent(h, r) && Grows(acc, r) && Settled(h, acc, r, id)
  {
    var r := AppendRelation(cur, id, rel);
    forall z | z in r.people && z !in acc.people && z != id
      ensures Finished(h, r, z) && Reaches(LinkRel(h), id, z) && RecordedFor(h, r, z)
    {
      assert RelationsOf(r, z) == RelationsOf(cur, z);
    }
    forall z | z in acc.people
      ensures RelationsOf(r, z) == RelationsOf(acc, z)
    {
      assert RelationsOf(r, z) == RelationsOf(cur, z);
    }
  }

  /** What the loops of Visit leave behind is everything Visit promises:
      id leads with SPOUSE exactly when its spouse was neither id itself nor
      recorded before id, that is, when the spouse was recorded after id. */
  lemma FinishVisit(h: Fragment, id: Id, acc: Acc, cur: Acc, leads: bool)
    requires id in h && id !in acc.people && id in cur.people
    requires Consistent(h, acc) && Consistent(h, cur) && Grows(acc, cur) && Settled(h, acc, cur, id)
    requires leads == (h[id].spouse.Some? && h[id].spouse.value !in acc.people && h[id].spouse.value != id)
    requires RelationsOf(cur, id)
             == (if leads then [FamilyTreeRelation(h[id].spouse.value, SpouseRelation)] else [])
                + ParentRelations(h[id].children)
    requires forall k :: 0 <= k < |h[id].children| ==> h[id].children[k] in cur.people
    requires forall k :: 0 <= k < |h[id].parents| ==> h[id].parents[k] in cur.people
    requires h[id].spouse.Some? ==> h[id].spouse.value in cur.people
    ensures AddedWell(h, acc, cur, id)
  {
    ReachesRefl(LinkRel(h), id);
    LinksRecorded(h, id, cur);
    LeadsWhenLater(h, id, acc, cur);
    assert RecordedFor(h, cur, id);
  }

  /** A person whose spouse, children and parents are all recorded is
      finished. */
  lemma LinksRecorded(h: Fragment, id: Id, cur: Acc)
    requires id in h
    requires forall k :: 0 <= k < |h[id].children| ==> h[id].children[k] in cur.people
    requires forall k :: 0 <= k < |h[id].parents| ==> h[id].parents[k] in cur.people
    requires h[id].spouse.Some? ==> h[id].spouse.value in cur.people
    ensures Finished(h, cur, id)
  {
  }

  /** id was recorded right after everyone in acc, so its spouse was
      recorded after it exactly when it was neither id nor in acc. */
  lemma LeadsWhenLater(h: Fragment, id: Id, acc: Acc, cur: Acc)
    requires id in h && Consistent(h, acc) && Consistent(h, cur) && Grows(acc, cur)
    requires id in cur.stamp && cur.stamp[id] == acc.next
    requires h[id].spouse.Some? ==> h[id].spouse.value in cur.people
    ensures SpouseLeads(h, cur.stamp, id)
            == (h[id].spouse.Some? && h[id].spouse.value !in acc.people && h[id].spouse.value != id)
  {
  }

  /** A step followed by reachability is reachability. */
  lemma ReachesStep(rel: Rel, a: Id, m: Id, b: Id)
    requires (a, m) in rel && Reaches(rel, m, b)
    ensures Reaches(rel, a, b)
  {
    var k: nat :| Walk(rel, m, b, k);
    StepThenWalk(rel, a, m, b, k);
  }

  /** The people a walk from a linked person c adds are reachable from id
      and keep everything the loop already knew. */
  lemma ChildWalked(h: Fragment, acc: Acc, cur: Acc, next: Acc, id: Id, c: Id)
    requires LinksClosed(h) && id in h && (id, c) in LinkRel(h)
    requires acc.people.Keys <= cur.people.Keys && c !in cur.people
    requires next.people.Keys <= h.Keys && cur.people.Keys <= h.Keys && cur.stamp.Keys == cur.people.Keys
    requires Grows(cur, next) && c in next.people && AddedWell(h, cur, next, c)
    requires Settled(h, acc, cur, id)
    ensures Settled(h, acc, next, id)
  {
    forall z | z in next.people && z !in acc.people && z != id
      ensures Finished(h, next, z) && Reaches(LinkRel(h), id, z) && RecordedFor(h, next, z)
    {
      if z in cur.people {
        RecordedForGrows(h, cur, next, z);
      } else {
        ReachesStep(LinkRel(h), id, c, z);
      }
    }
  }

  // ---------------------------------------------------------------------
  // Coverage of a completed traversal

  lemma LinkRelSource(h: Fragment, a: Id, b: Id)
    requires (a, b) in LinkRel(h)
    ensures a in h && b in Links(h[a])
  {
  }

  /** A traversal from root that records root and finishes everyone it
      records has recorded exactly the people reachable from root. */
  lemma Coverage(h: Fragment, root: Id, acc: Acc)
    requires acc.people.Keys <= h.Keys && root in acc.people
    requires AddedWell(h, EmptyAcc, acc, root)
    ensures forall z :: z in acc.people <==> z in h && Reaches(LinkRel(h), root, z)
  {
    var rel := LinkRel(h);
    var s := acc.people.Keys;
    forall b | b in Post(rel, s)
      ensures b in s
    {
      var a := PostSource(rel, s, b);
      LinkRelSource(h, a, b);
      assert Finished(h, acc, a);
    }
    forall z | z in h && Reaches(rel, root, z)
      ensures z in acc.people
    {
      var k: nat :| Walk(rel, root, z, k);
      ClosedContainsWalks(rel, root, s, z, k);
    }
  }

  // ---------------------------------------------------------------------
  // Reducing the recorded state to a family tree

  /** order enumerates the keys of m, each exactly once. */
  ghost predicate Enumerates(order: seq<Id>, keys: set<Id>)
  {
    && (forall i, j :: 0 <= i < j < |order| ==> order[i] != order[j])
    && (forall z :: z in order <==> z in keys)
  }

  /** One family-tree node per recorded person, visited in the given order
      (the store's map iteration order, which is unspecified): the person
      and the relations recorded under it. */
  function ReduceTree(acc: Acc, order: seq<Id>): (t: FamilyTree)
    requires forall z :: z in order ==> z in acc.people
    ensures |t.people| == |order|
    ensures forall i :: 0 <= i < |order| ==>
              t.people[i] == FamilyTreeNode(acc.people[order[i]], RelationsOf(acc, order[i]))
  {
    if order == [] then FamilyTree([])
    else
      var rest := ReduceTree(acc, order[1..]);
      FamilyTree([FamilyTreeNode(acc.people[order[0]], RelationsOf(acc, order[0]))] + rest.people)
  }

  /** Some enumeration of a finite set, each member exactly once. */
  method EnumerateKeys(keys: set<Id>) returns (order: seq<Id>)
    ensures Enumerates(order, keys)
  {
    order := [];
    var rest := keys;
    while rest != {}
      invariant forall i, j :: 0 <= i < j < |order| ==> order[i] != order[j]
      invariant forall z :: z in order ==> z in keys && z !in rest
      invariant forall z :: z in keys ==> z in order || z in rest
      invariant rest <= keys
      decreases |rest|
    {
      var x :| x in rest;
      order := order + [x];
      rest := rest - {x};
    }
  }

  // ---------------------------------------------------------------------
  // Properties of the resulting tree

  /** z has a node in t. */
  ghost predicate InTree(t: FamilyTree, z: Id)
  {
    exists i :: 0 <= i < |t.people| && t.people[i].person.id == z
  }

  /** No person has two nodes. */
  ghost predicate DistinctPeople(t: FamilyTree)
  {
    forall i, j :: 0 <= i < j < |t.people| ==> t.people[i].person.id != t.people[j].person.id
  }

  /** A node shows its person as stored, with one PARENT relation per child
      in order, optionally preceded by a SPOUSE relation to a spouse other
      than the person itself. Which nodes carry the SPOUSE relation depends
      on the recording order; ShownInOrder fixes it. */
  ghost predicate NodeFaithful(h: Fragment, n: FamilyTreeNode)
  {
    var z := n.person.id;
    && z in h && h[z].wellFormed && n.person.name == h[z].name
    && (|| n.relations == ParentRelations(h[z].children)
        || (&& h[z].spouse.Some? && h[z].spouse.value != z
            && n.relations == [FamilyTreeRelation(h[z].spouse.value, SpouseRelation)] + ParentRelations(h[z].children)))
  }

  /** A node shows its person as stored and exactly the relations
      ShownRelations fixes for the recording order rank. */
  ghost predicate NodeShown(h: Fragment, n: FamilyTreeNode, rank: map<Id, nat>)
  {
    var z := n.person.id;
    && z in h && h[z].wellFormed && n.person.name == h[z].name
    && n.relations == ShownRelations(h, rank, z)
  }

  /** t is what recording its people in the order rank shows: every person
      has a place in the order, no two share one, and every node carries
      exactly the relations that order fixes. */
  ghost predicate ShownInOrder(h: Fragment, t: FamilyTree, rank: map<Id, nat>)
  {
    && (forall i :: 0 <= i < |t.people| ==> t.people[i].person.id in rank)
    && (forall x, y :: x in rank && y in rank && x != y ==> rank[x] != rank[y])
    && forall i :: 0 <= i < |t.people| ==> NodeShown(h, t.people[i], rank)
  }

  /** A SPOUSE relation leads the node's relations. */
  ghost predicate LeadsWithSpouse(n: FamilyTreeNode, y: Id)
  {
    |n.relations| > 0 && n.relations[0] == FamilyTreeRelation(y, SpouseRelation)
  }

  /** No two people each lead with a SPOUSE relation to the other. */
  ghost predicate SpouseOnOneSide(t: FamilyTree)
  {
    forall i, j :: 0 <= i < |t.people| && 0 <= j < |t.people| && LeadsWithSpouse(t.people[i], t.people[j].person.id)
      ==> !LeadsWithSpouse(t.people[j], t.people[i].person.id)
  }

  /** Two different people whose spouse links name each other. */
  ghost predicate MutualSpouses(h: Fragment, x: Id, y: Id)
  {
    x in h && y in h && x != y && h[x].spouse == Some(y) && h[y].spouse == Some(x)
  }

  /** Two people whose spouse links name each other show their SPOUSE
      relation on exactly one side. */
  ghost predicate SpouseShownOnce(h: Fragment, t: FamilyTree)
  {
    forall i, j :: 0 <= i < |t.people| && 0 <= j < |t.people| && MutualSpouses(h, t.people[i].person.id, t.people[j].person.id)
      ==> (LeadsWithSpouse(t.people[i], t.people[j].person.id) <==> !LeadsWithSpouse(t.people[j], t.people[i].person.id))
  }

  /** Maps the hydrated fragment around root to a family tree: a traversal
      from root records every reachable person once, then the record is
      reduced to a list of nodes. The mapping fails exactly when some
      reachable person cannot be mapped. */
  method FamilyTreeMapper(h: Fragment, root: Id) returns (r: Result<FamilyTree>)
    requires LinksClosed(h) && root in h
    ensures r.Success? ==> forall z :: InTree(r.value, z) <==> z in h && Reaches(LinkRel(h), root, z)
    ensures r.Success? ==> DistinctPeople(r.value)
    ensures r.Success? ==> exists rank :: ShownInOrder(h, r.value, rank) && root in rank && rank[root] == 0
    ensures r.Success? ==> forall i :: 0 <= i < |r.value.people| ==> NodeFaithful(h, r.value.people[i])
    ensures r.Success? ==> SpouseOnOneSide(r.value) && SpouseShownOnce(h, r.value)
    ensures r.Success? <==> !Broken(h, root)
    ensures r.Failure? ==> r.error == InvalidUuid
  {
    var visited := Visit(h, root, EmptyAcc);
    if visited.Failure? {
      return Failure(visited.error);
    }
    var acc := visited.value;
    var order := EnumerateKeys(acc.people.Keys);
    var t := ReduceTree(acc, order);
    ConsistentPeople(h, acc);
    Reduced(h, root, acc, order, t);
    TreeFaithful(h, root, acc, order, t);
    return Success(t);
  }

  lemma ConsistentPeople(h: Fragment, acc: Acc)
    requires Consistent(h, acc)
    ensures acc.people.Keys <= h.Keys
    ensures forall z :: z in acc.people ==> acc.people[z].id == z && h[z].wellFormed
  {
  }

  /** A complete traversal from root, reduced, holds everyone reachable
      from root once, and nobody reachable is unmappable. */
  lemma Reduced(h: Fragment, root: Id, acc: Acc, order: seq<Id>, t: FamilyTree)
    requires acc.people.Keys <= h.Keys && root in acc.people && AddedWell(h, EmptyAcc, acc, root)
    requires forall z :: z in acc.people ==> acc.people[z].id == z && h[z].wellFormed
    requires Enumerates(order, acc.people.Keys) && t == ReduceTree(acc, order)
    ensures forall z :: InTree(t, z) <==> z in h && Reaches(LinkRel(h), root, z)
    ensures DistinctPeople(t)
    ensures !Broken(h, root)
  {
    Coverage(h, root, acc);
    TreeCoverage(acc, order, t);
    NotBroken(h, root, acc);
  }

  /** The nodes of a reduced tree are exactly the recorded people, once
      each. */
  lemma TreeCoverage(acc: Acc, order: seq<Id>, t: FamilyTree)
    requires Enumerates(order, acc.people.Keys) && t == ReduceTree(acc, order)
    requires forall z :: z in acc.people ==> acc.people[z].id == z
    ensures forall z :: InTree(t, z) <==> z in acc.people
    ensures DistinctPeople(t)
  {
    forall z | z in acc.people
      ensures InTree(t, z)
    {
      var i :| 0 <= i < |order| && order[i] == z;
      assert t.people[i].person.id == z;
    }
    forall z | InTree(t, z)
      ensures z in acc.people
    {
      var i :| 0 <= i < |t.people| && t.people[i].person.id == z;
      assert t.people[i].person == acc.people[order[i]];
    }
    forall i, j | 0 <= i < j < |t.people|
      ensures t.people[i].person.id != t.people[j].person.id
    {
      assert t.people[i].person.id == order[i];
      assert t.people[j].person.id == order[j];
    }
  }

  /** A reduced tree shows its people in the order the traversal recorded
      them, root first; hence every node is faithful, and two people whose
      spouse links name each other show SPOUSE on exactly one side. */
  lemma TreeFaithful(h: Fragment, root: Id, acc: Acc, order: seq<Id>, t: FamilyTree)
    requires Consistent(h, acc) && AddedWell(h, EmptyAcc, acc, root)
    requires root in acc.stamp && acc.stamp[root] == 0
    requires Enumerates(order, acc.people.Keys) && t == ReduceTree(acc, order)
    ensures exists rank :: ShownInOrder(h, t, rank) && root in rank && rank[root] == 0
    ensures forall i :: 0 <= i < |t.people| ==> NodeFaithful(h, t.people[i])
    ensures SpouseOnOneSide(t) && SpouseShownOnce(h, t)
  {
    TreeShown(h, root, acc, order, t);
    ShownOnce(h, t, acc.stamp);
  }

  lemma TreeShown(h: Fragment, root: Id, acc: Acc, order: seq<Id>, t: FamilyTree)
    requires Consistent(h, acc) && AddedWell(h, EmptyAcc, acc, root)
    requires Enumerates(order, acc.people.Keys) && t == ReduceTree(acc, order)
    ensures ShownInOrder(h, t, acc.stamp)
    ensures forall i :: 0 <= i < |t.people| ==> NodeFaithful(h, t.people[i])
  {
    forall i | 0 <= i < |t.people|
      ensures t.people[i].person.id in acc.stamp
      ensures NodeShown(h, t.people[i], acc.stamp) && NodeFaithful(h, t.people[i])
    {
      var z := order[i];
      RecordedShown(h, acc, z, t.people[i]);
      ShownFaithful(h, t.people[i], acc.stamp);
    }
  }

  /** The node reduced from z's record shows z in the recording order. */
  lemma RecordedShown(h: Fragment, acc: Acc, z: Id, n: FamilyTreeNode)
    requires z in h && h[z].wellFormed && z in acc.stamp
    requires z in acc.people && acc.people[z] == Person(z, h[z].name)
    requires RecordedFor(h, acc, z) && n == FamilyTreeNode(acc.people[z], RelationsOf(acc, z))
    ensures n.person.id in acc.stamp && NodeShown(h, n, acc.stamp)
  {
  }

  /** A node shown for some recording order is faithful. */
  lemma ShownFaithful(h: Fragment, n: FamilyTreeNode, rank: map<Id, nat>)
    requires NodeShown(h, n, rank)
    ensures NodeFaithful(h, n)
  {
  }

  /** Whatever the recording order, a node leads with SPOUSE y exactly when
      y is its spouse and was recorded after it. */
  lemma LeadsExactly(h: Fragment, n: FamilyTreeNode, rank: map<Id, nat>, y: Id)
    requires NodeShown(h, n, rank)
    ensures LeadsWithSpouse(n, y) <==> SpouseLeads(h, rank, n.person.id) && h[n.person.id].spouse == Some(y)
  {
    var z := n.person.id;
    var kids := ParentRelations(h[z].children);
    if !SpouseLeads(h, rank, z) && |kids| > 0 {
      assert n.relations[0] == FamilyTreeRelation(h[z].children[0], ParentRelation);
    }
  }

  /** For any recording order, no pair shows SPOUSE on both sides and every
      pair whose spouse links name each other shows it on exactly one. */
  lemma ShownOnce(h: Fragment, t: FamilyTree, rank: map<Id, nat>)
    requires ShownInOrder(h, t, rank)
    ensures SpouseOnOneSide(t) && SpouseShownOnce(h, t)
  {
    forall i, j | 0 <= i < |t.people| && 0 <= j < |t.people|
      ensures LeadsWithSpouse(t.people[i], t.people[j].person.id) ==> !LeadsWithSpouse(t.people[j], t.people[i].person.id)
      ensures MutualSpouses(h, t.people[i].person.id, t.people[j].person.id)
              ==> (LeadsWithSpouse(t.people[i], t.people[j].person.id) <==> !LeadsWithSpouse(t.people[j], t.people[i].person.id))
    {
      var x, y := t.people[i].person.id, t.people[j].person.id;
      assert NodeShown(h, t.people[i], rank) && NodeShown(h, t.people[j], rank);
      LeadsExactly(h, t.people[i], rank, y);
      LeadsExactly(h, t.people[j], rank, x);
    }
  }

  /** A traversal that recorded everyone reachable, all mappable, leaves
      nothing broken. */
  lemma NotBroken(h: Fragment, root: Id, acc: Acc)
    requires forall z :: z in acc.people ==> z in h && h[z].wellFormed
    requires forall z :: z in acc.people <==> z in h && Reaches(LinkRel(h), root, z)
    ensures !Broken(h, root)
  {
  }
}
