/** The read-only traversals of a concept's links (lib/expert.js:59-89):
    `_immediateLinks`, which follows a transitive relation through its own
    edges, and `_allLinks`, which adds what the concept inherits from its
    `isa` parents.

    Both recurse without any cycle guard in the source and run forever on a
    cyclic graph. Here each takes a depth bound `fuel` and yields None when
    the recursion would go deeper than that. `ClosureMono` and `AllLinksMono`
    show that once a result exists, more fuel never changes it: the bound
    decides only whether a result is produced, never which one. */
module Traversal {
  import opened Values
  import opened Model

  /** `o` is a result and `x` is in it. */
  predicate InResult(o: Option<seq<ConceptRef>>, x: ConceptRef) {
    o.Some? && x in o.value
  }

  /** `_immediateLinks` of a transitive relation whose id is `key`: the stored
      list, followed by the recursive result of each of its members in turn. */
  function Closure(cs: seq<Concept>, c: ConceptRef, key: Id, fuel: nat): Option<seq<ConceptRef>>
    requires Closed(cs) && c < |cs|
    decreases fuel, 0
  {
    if fuel == 0 then None
    else
      var direct := Stored(cs[c], key);
      match ClosureEach(cs, direct, key, fuel - 1)
      case None => None
      case Some(tmp) => Some(direct + tmp)
  }

  /** The loop `tmp = tmp.concat(result[i]._immediateLinks(relation))`. */
  function ClosureEach(cs: seq<Concept>, ms: seq<ConceptRef>, key: Id, fuel: nat): Option<seq<ConceptRef>>
    requires Closed(cs) && AllBelow(ms, |cs|)
    decreases fuel, |ms| + 1
  {
    if ms == [] then Some([])
    else
      match Closure(cs, ms[0], key, fuel)
      case None => None
      case Some(first) =>
        match ClosureEach(cs, ms[1..], key, fuel)
        case None => None
        case Some(rest) => Some(first + rest)
  }

  /** `c._immediateLinks(rel)`: the stored list, expanded through the
      relation's own edges when the relation is transitive. */
  function Immediate(cs: seq<Concept>, c: ConceptRef, rel: Relation, fuel: nat): Option<seq<ConceptRef>>
    requires Closed(cs) && c < |cs|
  {
    if Transitive(rel) then Closure(cs, c, rel.id, fuel) else Some(Stored(cs[c], rel.id))
  }

  /** `c._allLinks(rel)`: the immediate links, followed by the `_allLinks` of
      every direct `isa` parent, unless the relation is the built-in `example`
      (`isExample`, an identity test in the source). */
  function AllLinks(cs: seq<Concept>, c: ConceptRef, rel: Relation, isExample: bool, fuel: nat): Option<seq<ConceptRef>>
    requires Closed(cs) && c < |cs|
    decreases fuel, 0
  {
    if fuel == 0 then None
    else
      match Immediate(cs, c, rel, fuel)
      case None => None
      case Some(result) =>
        if IsaKey !in cs[c].links || isExample then Some(result)
        else
          match AllLinksEach(cs, Stored(cs[c], IsaKey), rel, isExample, fuel - 1)
          case None => None
          case Some(inherited) => Some(result + inherited)
  }

  /** The loop `result = result.concat(parents[i]._allLinks(relation))`. */
  function AllLinksEach(cs: seq<Concept>, ps: seq<ConceptRef>, rel: Relation, isExample: bool, fuel: nat): Option<seq<ConceptRef>>
    requires Closed(cs) && AllBelow(ps, |cs|)
    decreases fuel, |ps| + 1
  {
    if ps == [] then Some([])
    else
      match AllLinks(cs, ps[0], rel, isExample, fuel)
      case None => None
      case Some(first) =>
        match AllLinksEach(cs, ps[1..], rel, isExample, fuel)
        case None => None
        case Some(rest) => Some(first + rest)
  }

  /** `p` is a walk along stored `key` links: each element is linked from the one before it. */
  ghost predicate Walk(cs: seq<Concept>, key: Id, p: seq<ConceptRef>)
    decreases |p|
  {
    |p| > 0 && AllBelow(p, |cs|) &&
    (|p| == 1 || (p[1] in Stored(cs[p[0]], key) && Walk(cs, key, p[1..])))
  }

  /** `b` can be reached from `a` by one or more `key` links. */
  ghost predicate Reaches(cs: seq<Concept>, key: Id, a: ConceptRef, b: ConceptRef) {
    exists p :: |p| >= 2 && p[0] == a && p[|p| - 1] == b && Walk(cs, key, p)
  }

  lemma {:induction false} ClosureMono(cs: seq<Concept>, c: ConceptRef, key: Id, f: nat, g: nat)
    requires Closed(cs) && c < |cs| && f <= g && Closure(cs, c, key, f).Some?
    ensures Closure(cs, c, key, g) == Closure(cs, c, key, f)
    decreases f, 0
  {
    ClosureEachMono(cs, Stored(cs[c], key), key, f - 1, g - 1);
  }

  lemma {:induction false} ClosureEachMono(cs: seq<Concept>, ms: seq<ConceptRef>, key: Id, f: nat, g: nat)
    requires Closed(cs) && AllBelow(ms, |cs|) && f <= g && ClosureEach(cs, ms, key, f).Some?
    ensures ClosureEach(cs, ms, key, g) == ClosureEach(cs, ms, key, f)
    decreases f, |ms| + 1
  {
    if ms != [] {
      ClosureMono(cs, ms[0], key, f, g);
      ClosureEachMono(cs, ms[1..], key, f, g);
    }
  }

  /** The concatenation holds exactly the members' results. */
  lemma {:induction false} ClosureEachMember(cs: seq<Concept>, ms: seq<ConceptRef>, key: Id, fuel: nat)
    requires Closed(cs) && AllBelow(ms, |cs|) && ClosureEach(cs, ms, key, fuel).Some?
    ensures forall m :: m in ms ==> Closure(cs, m, key, fuel).Some?
    ensures forall x :: x in ClosureEach(cs, ms, key, fuel).value <==>
      exists m :: m in ms && InResult(Closure(cs, m, key, fuel), x)
  {
    if ms != [] {
      ClosureEachMember(cs, ms[1..], key, fuel);
      var first := Closure(cs, ms[0], key, fuel).value;
      var rest := ClosureEach(cs, ms[1..], key, fuel).value;
      assert ClosureEach(cs, ms, key, fuel).value == first + rest;
      assert forall m :: m in ms <==> m == ms[0] || m in ms[1..];
      forall x
        ensures x in first + rest <==> exists m :: m in ms && InResult(Closure(cs, m, key, fuel), x)
      {
        if x in first {
          assert InResult(Closure(cs, ms[0], key, fuel), x);
        }
        if x in rest {
          var m :| m in ms[1..] && InResult(Closure(cs, m, key, fuel), x);
          assert m in ms;
        }
        if exists m :: m in ms && InResult(Closure(cs, m, key, fuel), x) {
          var m :| m in ms && InResult(Closure(cs, m, key, fuel), x);
          if m != ms[0] {
            assert m in ms[1..];
          }
        }
      }
    }
  }

  /** Every concept at the end of a walk of one or more links is in the closure. */
  lemma {:induction false} ClosureComplete(cs: seq<Concept>, key: Id, fuel: nat, p: seq<ConceptRef>)
    requires Closed(cs) && Walk(cs, key, p) && |p| >= 2 && Closure(cs, p[0], key, fuel).Some?
    ensures p[|p| - 1] in Closure(cs, p[0], key, fuel).value
    decreases |p|
  {
    var direct := Stored(cs[p[0]], key);
    assert p[1] in direct;
    if |p| > 2 {
      ClosureEachMember(cs, direct, key, fuel - 1);
      ClosureComplete(cs, key, fuel - 1, p[1..]);
      assert p[1..][|p[1..]| - 1] == p[|p| - 1];
    }
  }

  /** A link in front of a walk makes a longer walk. */
  lemma WalkCons(cs: seq<Concept>, key: Id, a: ConceptRef, q: seq<ConceptRef>)
    requires a < |cs| && Walk(cs, key, q) && q[0] in Stored(cs[a], key)
    ensures Walk(cs, key, [a] + q) && ([a] + q)[1..] == q
  {
    assert ([a] + q)[1..] == q;
  }

  /** A stored link is a walk of one link. */
  lemma LinkReaches(cs: seq<Concept>, c: ConceptRef, key: Id, x: ConceptRef)
    requires Closed(cs) && c < |cs| && x in Stored(cs[c], key)
    ensures Reaches(cs, key, c, x)
  {
    assert AllBelow(Stored(cs[c], key), |cs|);
    assert Walk(cs, key, [x]);
    WalkCons(cs, key, c, [x]);
    assert [c] + [x] == [c, x];
  }

  /** A stored link followed by a walk is a walk. */
  lemma LinkThenReaches(cs: seq<Concept>, c: ConceptRef, key: Id, m: ConceptRef, x: ConceptRef)
    requires c < |cs| && m in Stored(cs[c], key) && Reaches(cs, key, m, x)
    ensures Reaches(cs, key, c, x)
  {
    var q :| |q| >= 2 && q[0] == m && q[|q| - 1] == x && Walk(cs, key, q);
    WalkCons(cs, key, c, q);
    assert ([c] + q)[|[c] + q| - 1] == x;
  }

  /** Every concept in the closure is reachable by one or more links. */
  lemma {:induction false} ClosureSound(cs: seq<Concept>, c: ConceptRef, key: Id, fuel: nat, x: ConceptRef)
    requires Closed(cs) && c < |cs| && InResult(Closure(cs, c, key, fuel), x)
    ensures Reaches(cs, key, c, x)
    decreases fuel
  {
    var direct := Stored(cs[c], key);
    if x in direct {
      LinkReaches(cs, c, key, x);
    } else {
      ClosureEachMember(cs, direct, key, fuel - 1);
      var m :| m in direct && InResult(Closure(cs, m, key, fuel - 1), x);
      ClosureSound(cs, m, key, fuel - 1, x);
      LinkThenReaches(cs, c, key, m, x);
    }
  }

  /** What `_immediateLinks` computes: for a non-transitive relation exactly
      the stored list; for a transitive one a list that starts with the stored
      list and holds exactly the concepts reachable by one or more links. */
  lemma ImmediateMeaning(cs: seq<Concept>, c: ConceptRef, rel: Relation, fuel: nat)
    requires Closed(cs) && c < |cs| && Immediate(cs, c, rel, fuel).Some?
    ensures Stored(cs[c], rel.id) <= Immediate(cs, c, rel, fuel).value
    ensures !Transitive(rel) ==> Immediate(cs, c, rel, fuel).value == Stored(cs[c], rel.id)
    ensures Transitive(rel) ==> forall x :: x in Immediate(cs, c, rel, fuel).value <==> Reaches(cs, rel.id, c, x)
  {
    if Transitive(rel) {
      forall x
        ensures x in Immediate(cs, c, rel, fuel).value <==> Reaches(cs, rel.id, c, x)
      {
        if x in Immediate(cs, c, rel, fuel).value {
          ClosureSound(cs, c, rel.id, fuel, x);
        }
        if Reaches(cs, rel.id, c, x) {
          var p :| |p| >= 2 && p[0] == c && p[|p| - 1] == x && Walk(cs, rel.id, p);
          ClosureComplete(cs, rel.id, fuel, p);
        }
      }
    }
  }

  lemma ImmediateMono(cs: seq<Concept>, c: ConceptRef, rel: Relation, f: nat, g: nat)
    requires Closed(cs) && c < |cs| && f <= g && Immediate(cs, c, rel, f).Some?
    ensures Immediate(cs, c, rel, g) == Immediate(cs, c, rel, f)
  {
    if Transitive(rel) {
      ClosureMono(cs, c, rel.id, f, g);
    }
  }

  lemma {:induction false} AllLinksMono(cs: seq<Concept>, c: ConceptRef, rel: Relation, isExample: bool, f: nat, g: nat)
    requires Closed(cs) && c < |cs| && f <= g && AllLinks(cs, c, rel, isExample, f).Some?
    ensures AllLinks(cs, c, rel, isExample, g) == AllLinks(cs, c, rel, isExample, f)
    decreases f, 0
  {
    ImmediateMono(cs, c, rel, f, g);
    if IsaKey in cs[c].links && !isExample {
      AllLinksEachMono(cs, Stored(cs[c], IsaKey), rel, isExample, f - 1, g - 1);
    }
  }

  lemma {:induction false} AllLinksEachMono(cs: seq<Concept>, ps: seq<ConceptRef>, rel: Relation, isExample: bool, f: nat, g: nat)
    requires Closed(cs) && AllBelow(ps, |cs|) && f <= g && AllLinksEach(cs, ps, rel, isExample, f).Some?
    ensures AllLinksEach(cs, ps, rel, isExample, g) == AllLinksEach(cs, ps, rel, isExample, f)
    decreases f, |ps| + 1
  {
    if ps != [] {
      AllLinksMono(cs, ps[0], rel, isExample, f, g);
      AllLinksEachMono(cs, ps[1..], rel, isExample, f, g);
    }
  }

  lemma {:induction false} AllLinksEachMember(cs: seq<Concept>, ps: seq<ConceptRef>, rel: Relation, isExample: bool, fuel: nat)
    requires Closed(cs) && AllBelow(ps, |cs|) && AllLinksEach(cs, ps, rel, isExample, fuel).Some?
    ensures forall p :: p in ps ==> AllLinks(cs, p, rel, isExample, fuel).Some?
    ensures forall x :: x in AllLinksEach(cs, ps, rel, isExample, fuel).value <==>
      exists p :: p in ps && InResult(AllLinks(cs, p, rel, isExample, fuel), x)
  {
    if ps != [] {
      AllLinksEachMember(cs, ps[1..], rel, isExample, fuel);
      var first := AllLinks(cs, ps[0], rel, isExample, fuel).value;
      var rest := AllLinksEach(cs, ps[1..], rel, isExample, fuel).value;
      assert AllLinksEach(cs, ps, rel, isExample, fuel).value == first + rest;
      assert forall p :: p in ps <==> p == ps[0] || p in ps[1..];
      forall x
        ensures x in first + rest <==> exists p :: p in ps && InResult(AllLinks(cs, p, rel, isExample, fuel), x)
      {
        if x in first {
          assert InResult(AllLinks(cs, ps[0], rel, isExample, fuel), x);
        }
        if x in rest {
          var p :| p in ps[1..] && InResult(AllLinks(cs, p, rel, isExample, fuel), x);
          assert p in ps;
        }
        if exists p :: p in ps && InResult(AllLinks(cs, p, rel, isExample, fuel), x) {
          var p :| p in ps && InResult(AllLinks(cs, p, rel, isExample, fuel), x);
          if p != ps[0] {
            assert p in ps[1..];
          }
        }
      }
    }
  }

  /** What `_allLinks` computes: it starts with the immediate links; for
      `example` it is exactly them; otherwise it holds exactly the immediate
      links and the `_allLinks` of every direct `isa` parent. */
  lemma AllLinksShape(cs: seq<Concept>, c: ConceptRef, rel: Relation, isExample: bool, fuel: nat)
    requires Closed(cs) && c < |cs| && AllLinks(cs, c, rel, isExample, fuel).Some?
    ensures fuel > 0 && Immediate(cs, c, rel, fuel).Some?
    ensures Immediate(cs, c, rel, fuel).value <= AllLinks(cs, c, rel, isExample, fuel).value
    ensures isExample ==> AllLinks(cs, c, rel, isExample, fuel).value == Immediate(cs, c, rel, fuel).value
    ensures !isExample ==> forall p :: p in Stored(cs[c], IsaKey) ==> AllLinks(cs, p, rel, false, fuel - 1).Some?
    ensures !isExample ==> forall x :: InResult(AllLinks(cs, c, rel, false, fuel), x) <==>
      x in Immediate(cs, c, rel, fuel).value ||
      exists p :: p in Stored(cs[c], IsaKey) && InResult(AllLinks(cs, p, rel, false, fuel - 1), x)
  {
    if IsaKey in cs[c].links && !isExample {
      AllLinksEachMember(cs, Stored(cs[c], IsaKey), rel, isExample, fuel - 1);
    }
  }

  /** Inheritance: a concept has every link its `isa` ancestors have, at any
      distance (the relation not being `example`). */
  lemma {:induction false} Inherits(cs: seq<Concept>, rel: Relation, fuel: nat, p: seq<ConceptRef>)
    requires Closed(cs) && Walk(cs, IsaKey, p) && AllLinks(cs, p[0], rel, false, fuel).Some?
    ensures |p| <= fuel
    ensures AllLinks(cs, p[|p| - 1], rel, false, fuel - |p| + 1).Some?
    ensures forall x :: x in AllLinks(cs, p[|p| - 1], rel, false, fuel - |p| + 1).value ==>
      x in AllLinks(cs, p[0], rel, false, fuel).value
    decreases |p|
  {
    AllLinksShape(cs, p[0], rel, false, fuel);
    if |p| > 1 {
      Inherits(cs, rel, fuel - 1, p[1..]);
      assert p[1..][|p[1..]| - 1] == p[|p| - 1];
    }
  }
}
