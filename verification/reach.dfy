/** Reachability over a finite binary relation on person identities.
    The graph store answers variable-length path queries (PARENT*0..,
    shortestPath) declaratively; this module gives those queries a
    meaning (walks of a given length) and computes them by breadth-first
    layers, proving the computation agrees with the meaning. */
module Reach {
  import opened Kinship

  /** A finite relation: (a, b) in rel is one step from a to b. */
  type Rel = set<(Id, Id)>

  /** There is a walk of exactly k steps from a to b. */
  ghost predicate Walk(rel: Rel, a: Id, b: Id, k: nat)
    decreases k
  {
    if k == 0 then a == b
    else exists m: Id :: Walk(rel, a, m, k - 1) && (m, b) in rel
  }

  /** b is reachable from a in zero or more steps. */
  ghost predicate Reaches(rel: Rel, a: Id, b: Id)
  {
    exists k: nat :: Walk(rel, a, b, k)
  }

  /** Every node that appears in the relation. */
  function Nodes(rel: Rel): (ns: set<Id>)
  {
    (set p | p in rel :: p.0) + (set p | p in rel :: p.1)
  }

  /** The nodes one step away from some node of s. */
  function Post(rel: Rel, s: set<Id>): (r: set<Id>)
    ensures r <= Nodes(rel)
  {
    set p | p in rel && p.0 in s :: p.1
  }

  /** A step out of s lands in Post(s). */
  lemma PostStep(rel: Rel, s: set<Id>, a: Id, b: Id)
    requires a in s && (a, b) in rel
    ensures b in Post(rel, s)
  {
    var p := (a, b);
    assert p in rel && p.0 in s;
  }

  /** Every member of Post(s) is one step from a member of s. */
  lemma PostSource(rel: Rel, s: set<Id>, b: Id) returns (a: Id)
    requires b in Post(rel, s)
    ensures a in s && (a, b) in rel
  {
    var p :| p in rel && p.0 in s && p.1 == b;
    a := p.0;
  }

  /** The nodes within k steps of a: the k-th breadth-first layer. */
  function Ball(rel: Rel, a: Id, k: nat): (ball: set<Id>)
    decreases k
  {
    if k == 0 then {a}
    else
      var s := Ball(rel, a, k - 1);
      s + Post(rel, s)
  }

  lemma BallWithinUniverse(rel: Rel, a: Id, k: nat)
    ensures Ball(rel, a, k) <= Nodes(rel) + {a}
  {
  }

  /** The k-th layer holds exactly the nodes reachable by a walk of at
      most k steps. */
  lemma {:induction false} BallMeaning(rel: Rel, a: Id, k: nat)
    ensures forall b: Id :: b in Ball(rel, a, k) <==> exists j: nat :: j <= k && Walk(rel, a, b, j)
    decreases k
  {
    forall b | b in Ball(rel, a, k)
      ensures exists j: nat :: j <= k && Walk(rel, a, b, j)
    {
      var j := BallHasWalk(rel, a, k, b);
    }
    forall b, j: nat | j <= k && Walk(rel, a, b, j)
      ensures b in Ball(rel, a, k)
    {
      WalkInBall(rel, a, k, b, j);
    }
    assert forall b: Id :: b in Ball(rel, a, k) ==> exists j: nat :: j <= k && Walk(rel, a, b, j);
    assert forall b: Id :: (exists j: nat :: j <= k && Walk(rel, a, b, j)) ==> b in Ball(rel, a, k);
  }

  /** Every node of the k-th layer has a walk of at most k steps. */
  lemma {:induction false} BallHasWalk(rel: Rel, a: Id, k: nat, b: Id) returns (j: nat)
    requires b in Ball(rel, a, k)
    ensures j <= k && Walk(rel, a, b, j)
    decreases k
  {
    if k == 0 {
      j := 0;
    } else {
      var s := Ball(rel, a, k - 1);
      if b in s {
        j := BallHasWalk(rel, a, k - 1, b);
      } else {
        var m := PostSource(rel, s, b);
        var i := BallHasWalk(rel, a, k - 1, m);
        j := i + 1;
        assert Walk(rel, a, b, j);
      }
    }
  }

  /** The end of every walk of at most k steps lies in the k-th layer. */
  lemma {:induction false} WalkInBall(rel: Rel, a: Id, k: nat, b: Id, j: nat)
    requires j <= k && Walk(rel, a, b, j)
    ensures b in Ball(rel, a, k)
    decreases k
  {
    if j == 0 {
      BallGrows(rel, a, 0, k);
    } else if j < k {
      WalkInBall(rel, a, k - 1, b, j);
    } else {
      var m: Id :| Walk(rel, a, m, k - 1) && (m, b) in rel;
      WalkInBall(rel, a, k - 1, m, k - 1);
      PostStep(rel, Ball(rel, a, k - 1), m, b);
    }
  }

  /** Layers only grow. */
  lemma {:induction false} BallGrows(rel: Rel, a: Id, i: nat, k: nat)
    requires i <= k
    ensures Ball(rel, a, i) <= Ball(rel, a, k)
    decreases k
  {
    if i < k {
      BallGrows(rel, a, i, k - 1);
    }
  }

  /** A set that contains a and is closed under steps contains every node
      reachable from a. */
  lemma {:induction false} ClosedContainsWalks(rel: Rel, a: Id, s: set<Id>, b: Id, k: nat)
    requires a in s && Post(rel, s) <= s
    requires Walk(rel, a, b, k)
    ensures b in s
    decreases k
  {
    if k > 0 {
      var m: Id :| Walk(rel, a, m, k - 1) && (m, b) in rel;
      ClosedContainsWalks(rel, a, s, m, k - 1);
      PostStep(rel, s, m, b);
    }
  }

  /** Walks compose: a walk a->m followed by a walk m->b is a walk a->b. */
  lemma {:induction false} WalkConcat(rel: Rel, a: Id, m: Id, b: Id, j: nat, k: nat)
    requires Walk(rel, a, m, j) && Walk(rel, m, b, k)
    ensures Walk(rel, a, b, j + k)
    decreases k
  {
    if k > 0 {
      var n: Id :| Walk(rel, m, n, k - 1) && (n, b) in rel;
      WalkConcat(rel, a, m, n, j, k - 1);
    }
  }

  /** A single step followed by a walk is a walk one step longer. */
  lemma StepThenWalk(rel: Rel, a: Id, m: Id, b: Id, k: nat)
    requires (a, m) in rel && Walk(rel, m, b, k)
    ensures Walk(rel, a, b, k + 1)
  {
    assert Walk(rel, a, a, 0);
    assert Walk(rel, a, m, 1);
    WalkConcat(rel, a, m, b, 1, k);
  }

  /** Reachability is transitive. */
  lemma ReachesTrans(rel: Rel, a: Id, m: Id, b: Id)
    requires Reaches(rel, a, m) && Reaches(rel, m, b)
    ensures Reaches(rel, a, b)
  {
    var j: nat :| Walk(rel, a, m, j);
    var k: nat :| Walk(rel, m, b, k);
    WalkConcat(rel, a, m, b, j, k);
  }

  /** A walk in a smaller relation is a walk in a larger one. */
  lemma {:induction false} WalkMonotone(rel: Rel, rel': Rel, a: Id, b: Id, k: nat)
    requires rel <= rel'
    requires Walk(rel, a, b, k)
    ensures Walk(rel', a, b, k)
    decreases k
  {
    if k > 0 {
      var m: Id :| Walk(rel, a, m, k - 1) && (m, b) in rel;
      WalkMonotone(rel, rel', a, m, k - 1);
    }
  }

  /** Every node reaches itself. */
  lemma ReachesRefl(rel: Rel, a: Id)
    ensures Reaches(rel, a, a)
  {
    assert Walk(rel, a, a, 0);
  }

  /** Adding nodes to a set inside a finite universe leaves fewer outside it. */
  lemma GrowthShrinksRest(universe: set<Id>, s: set<Id>, next: set<Id>)
    requires s <= next <= universe && next != s
    ensures |universe - next| < |universe - s|
  {
    var x :| x in next && x !in s;
    SubsetCard(universe - next, (universe - s) - {x});
  }

  /** A subset is no larger than its superset. */
  lemma {:induction false} SubsetCard<T>(small: set<T>, big: set<T>)
    requires small <= big
    ensures |small| <= |big|
    decreases |big|
  {
    if small != {} {
      var x :| x in small;
      SubsetCard(small - {x}, big - {x});
    }
  }

  /** One more breadth-first layer stays within the universe of the relation. */
  lemma NextLayer(rel: Rel, a: Id, k: nat)
    ensures Ball(rel, a, k + 1) == Ball(rel, a, k) + Post(rel, Ball(rel, a, k))
    ensures Ball(rel, a, k) <= Ball(rel, a, k + 1) <= Nodes(rel) + {a}
  {
    BallWithinUniverse(rel, a, k + 1);
  }

  /** The set of nodes reachable from a, computed by growing breadth-first
      layers until one adds nothing. */
  method Closure(rel: Rel, a: Id) returns (s: set<Id>)
    ensures forall b :: b in s <==> Reaches(rel, a, b)
  {
    var k := 0;
    s := {a};
    var universe := Nodes(rel) + {a};
    while true
      invariant s == Ball(rel, a, k)
      invariant a in s && s <= universe
      decreases |universe - s|
    {
      NextLayer(rel, a, k);
      var next := s + Post(rel, s);
      if next == s {
        break;
      }
      GrowthShrinksRest(universe, s, next);
      s, k := next, k + 1;
    }
    BallMeaning(rel, a, k);
    forall b | Reaches(rel, a, b)
      ensures b in s
    {
      var j: nat :| Walk(rel, a, b, j);
      ClosedContainsWalks(rel, a, s, b, j);
    }
  }

  /** The nearest member of targets reachable from a, with its distance:
      the first breadth-first layer that meets targets. None when no
      target is reachable. */
  method Nearest(rel: Rel, a: Id, targets: set<Id>) returns (r: Option<(Id, nat)>)
    ensures r.Some? ==> r.value.0 in targets && Walk(rel, a, r.value.0, r.value.1)
    ensures r.Some? ==> forall t: Id, j: nat :: t in targets && j < r.value.1 ==> !Walk(rel, a, t, j)
    ensures r.None? ==> forall t: Id, j: nat :: t in targets ==> !Walk(rel, a, t, j)
  {
    var k := 0;
    var s := {a};
    var universe := Nodes(rel) + {a};
    while true
      invariant s == Ball(rel, a, k)
      invariant a in s && s <= universe
      invariant forall t: Id, j: nat :: t in targets && j < k ==> !Walk(rel, a, t, j)
      decreases |universe - s|
    {
      if s * targets != {} {
        var t :| t in s * targets;
        LayerMeetsAtK(rel, a, k, t);
        return Some((t, k));
      }
      LayerMisses(rel, a, k, targets);
      NextLayer(rel, a, k);
      var next := s + Post(rel, s);
      if next == s {
        ClosedMisses(rel, a, s, targets);
        return None;
      }
      GrowthShrinksRest(universe, s, next);
      s, k := next, k + 1;
    }
  }

  /** A node of layer k that no shorter walk reaches is reached by a walk of
      exactly k steps. */
  lemma LayerMeetsAtK(rel: Rel, a: Id, k: nat, t: Id)
    requires t in Ball(rel, a, k)
    requires forall j: nat :: j < k ==> !Walk(rel, a, t, j)
    ensures Walk(rel, a, t, k)
  {
    var j := BallHasWalk(rel, a, k, t);
  }

  /** A layer that misses targets extends the range of lengths no walk to
      a target has. */
  lemma LayerMisses(rel: Rel, a: Id, k: nat, targets: set<Id>)
    requires Ball(rel, a, k) * targets == {}
    requires forall t: Id, j: nat :: t in targets && j < k ==> !Walk(rel, a, t, j)
    ensures forall t: Id, j: nat :: t in targets && j < k + 1 ==> !Walk(rel, a, t, j)
  {
    forall t: Id, j: nat | t in targets && j <= k && Walk(rel, a, t, j)
      ensures t in Ball(rel, a, k) * targets
    {
      WalkInBall(rel, a, k, t, j);
    }
  }

  /** A closed set around a that misses targets means no walk reaches them. */
  lemma ClosedMisses(rel: Rel, a: Id, s: set<Id>, targets: set<Id>)
    requires a in s && Post(rel, s) <= s && s * targets == {}
    ensures forall t: Id, j: nat :: t in targets ==> !Walk(rel, a, t, j)
  {
    forall t: Id, j: nat | t in targets && Walk(rel, a, t, j)
      ensures t in s * targets
    {
      ClosedContainsWalks(rel, a, s, t, j);
    }
  }
}
