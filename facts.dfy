/** `Fact` (lib/expert.js:170-182): establishing one fact links the subject
    to the object, the object back to the subject under the inverse relation
    when there is one, and then does the same for the relation the first one
    implies, down the `implies` chain. */
module Facts {
  import opened Values
  import opened Model
  import opened Links

  /** The `implies` chain from `r` ends within `fuel` relations. A cyclic chain
      makes `Fact` recurse forever in the source; no fuel meets this for it. */
  predicate ChainEnds(rels: seq<Relation>, r: RelationRef, fuel: nat)
    decreases fuel
  {
    r < |rels| && fuel > 0 && (rels[r].implies.None? || ChainEnds(rels, rels[r].implies.value, fuel - 1))
  }

  /** The relations a fact is established under: `r`, what `r` implies, and so on. */
  function Chain(rels: seq<Relation>, r: RelationRef, fuel: nat): (ch: seq<RelationRef>)
    requires ChainEnds(rels, r, fuel)
    ensures |ch| > 0 && ch[0] == r && AllBelow(ch, |rels|)
    decreases fuel
  {
    if rels[r].implies.None? then [r] else [r] + Chain(rels, rels[r].implies.value, fuel - 1)
  }

  /** `l` is the id of a relation of the chain. */
  ghost predicate ForwardKey(rels: seq<Relation>, chain: seq<RelationRef>, l: Id) {
    exists q :: q in chain && q < |rels| && rels[q].id == l
  }

  /** `l` is the id of the inverse of a relation of the chain. */
  ghost predicate InverseKey(rels: seq<Relation>, chain: seq<RelationRef>, l: Id) {
    exists q :: q in chain && q < |rels| && rels[q].inverseFor.Some? &&
      rels[q].inverseFor.value < |rels| && rels[rels[q].inverseFor.value].id == l
  }

  /** The first two steps of `Fact(s, rels[r], o)`: the forward link and,
      when the relation has an inverse, the link back. */
  function FactStep(cs: seq<Concept>, rels: seq<Relation>, s: ConceptRef, r: RelationRef, o: ConceptRef)
    : (out: seq<Concept>)
    requires s < |cs| && o < |cs| && r < |rels| && Wired(rels)
    ensures |out| == |cs|
  {
    var cs1 := cs[s := WithLink(cs[s], rels[r].id, o)];
    match rels[r].inverseFor
    case None => cs1
    case Some(inv) => cs1[o := WithLink(cs1[o], rels[inv].id, s)]
  }

  /** The concepts after `Fact(s, rels[r], o)`. */
  function ApplyFact(cs: seq<Concept>, rels: seq<Relation>, s: ConceptRef, r: RelationRef, o: ConceptRef, fuel: nat)
    : (out: seq<Concept>)
    requires s < |cs| && o < |cs| && Wired(rels) && ChainEnds(rels, r, fuel)
    ensures |out| == |cs|
    decreases fuel
  {
    var cs2 := FactStep(cs, rels, s, r, o);
    match rels[r].implies
    case None => cs2
    case Some(next) => ApplyFact(cs2, rels, s, next, o, fuel - 1)
  }

  /** One link added to concept `s`: ids stay, lists only grow, and the one
      entry that may be new is `o` under `key` at `s`. */
  lemma LinkFrame(cs: seq<Concept>, s: ConceptRef, key: Id, o: ConceptRef)
    requires s < |cs|
    ensures var out := cs[s := WithLink(cs[s], key, o)];
      (forall k :: 0 <= k < |cs| ==> out[k].id == cs[k].id) &&
      (forall k :: 0 <= k < |cs| && k != s ==> out[k] == cs[k]) &&
      (forall k, l :: 0 <= k < |cs| ==> Stored(cs[k], l) <= Stored(out[k], l)) &&
      (forall k, l, x :: 0 <= k < |cs| && x in Stored(out[k], l) && x !in Stored(cs[k], l) ==>
        k == s && x == o && l == key)
  {
  }

  /** One step links the two concepts and changes nothing else. */
  lemma StepFrame(cs: seq<Concept>, rels: seq<Relation>, s: ConceptRef, r: RelationRef, o: ConceptRef)
    requires s < |cs| && o < |cs| && r < |rels| && Wired(rels)
    ensures var out := FactStep(cs, rels, s, r, o);
      o in Stored(out[s], rels[r].id) &&
      (rels[r].inverseFor.Some? ==> s in Stored(out[o], rels[rels[r].inverseFor.value].id))
    ensures forall k :: 0 <= k < |cs| ==> FactStep(cs, rels, s, r, o)[k].id == cs[k].id
    ensures forall k :: 0 <= k < |cs| && k != s && k != o ==> FactStep(cs, rels, s, r, o)[k] == cs[k]
    ensures forall k, l :: 0 <= k < |cs| ==> Stored(cs[k], l) <= Stored(FactStep(cs, rels, s, r, o)[k], l)
    ensures forall k, l, x :: 0 <= k < |cs| && x in Stored(FactStep(cs, rels, s, r, o)[k], l) && x !in Stored(cs[k], l) ==>
      (k == s && x == o && l == rels[r].id) ||
      (k == o && x == s && rels[r].inverseFor.Some? && l == rels[rels[r].inverseFor.value].id)
  {
    var cs1 := cs[s := WithLink(cs[s], rels[r].id, o)];
    LinkFrame(cs, s, rels[r].id, o);
    if rels[r].inverseFor.Some? {
      var key := rels[rels[r].inverseFor.value].id;
      var out := cs1[o := WithLink(cs1[o], key, s)];
      assert FactStep(cs, rels, s, r, o) == out;
      LinkFrame(cs1, o, key, s);
      assert Stored(cs1[s], rels[r].id) <= Stored(out[s], rels[r].id);
      forall k, l | 0 <= k < |cs|
        ensures Stored(cs[k], l) <= Stored(out[k], l)
      {
        PrefixTrans(Stored(cs[k], l), Stored(cs1[k], l), Stored(out[k], l));
      }
    } else {
      assert FactStep(cs, rels, s, r, o) == cs1;
    }
  }

  /** Nothing else changes: ids stay, every list keeps its entries in order,
      and only the subject and the object change. */
  lemma {:induction false} FactGrows(cs: seq<Concept>, rels: seq<Relation>, s: ConceptRef, r: RelationRef, o: ConceptRef, fuel: nat)
    requires s < |cs| && o < |cs| && Wired(rels) && ChainEnds(rels, r, fuel)
    ensures forall k :: 0 <= k < |cs| ==> ApplyFact(cs, rels, s, r, o, fuel)[k].id == cs[k].id
    ensures forall k :: 0 <= k < |cs| && k != s && k != o ==> ApplyFact(cs, rels, s, r, o, fuel)[k] == cs[k]
    ensures forall k, l :: 0 <= k < |cs| ==> Stored(cs[k], l) <= Stored(ApplyFact(cs, rels, s, r, o, fuel)[k], l)
    decreases fuel
  {
    var cs2 := FactStep(cs, rels, s, r, o);
    StepFrame(cs, rels, s, r, o);
    if rels[r].implies.Some? {
      var next := rels[r].implies.value;
      FactGrows(cs2, rels, s, next, o, fuel - 1);
      var out := ApplyFact(cs2, rels, s, next, o, fuel - 1);
      forall k, l | 0 <= k < |cs|
        ensures Stored(cs[k], l) <= Stored(out[k], l)
      {
        PrefixTrans(Stored(cs[k], l), Stored(cs2[k], l), Stored(out[k], l));
      }
    }
  }

  /** What the subject and the object gain: the object under the chain's
      relations and the subject under their inverses, nothing more. */
  lemma {:induction false} FactGains(cs: seq<Concept>, rels: seq<Relation>, s: ConceptRef, r: RelationRef, o: ConceptRef, fuel: nat)
    requires s < |cs| && o < |cs| && Wired(rels) && ChainEnds(rels, r, fuel)
    ensures forall k, l, x :: 0 <= k < |cs| && x in Stored(ApplyFact(cs, rels, s, r, o, fuel)[k], l) && x !in Stored(cs[k], l) ==>
      (k == s && x == o && ForwardKey(rels, Chain(rels, r, fuel), l)) ||
      (k == o && x == s && InverseKey(rels, Chain(rels, r, fuel), l))
    decreases fuel
  {
    var ch := Chain(rels, r, fuel);
    var cs2 := FactStep(cs, rels, s, r, o);
    assert r in ch;
    StepFrame(cs, rels, s, r, o);
    if rels[r].implies.Some? {
      var next := rels[r].implies.value;
      var rest := Chain(rels, next, fuel - 1);
      assert ch == [r] + rest;
      FactGains(cs2, rels, s, next, o, fuel - 1);
      var out := ApplyFact(cs2, rels, s, next, o, fuel - 1);
      forall k, l, x | 0 <= k < |cs| && x in Stored(out[k], l) && x !in Stored(cs[k], l)
        ensures (k == s && x == o && ForwardKey(rels, ch, l)) || (k == o && x == s && InverseKey(rels, ch, l))
      {
        if x !in Stored(cs2[k], l) {
          if k == s && x == o && ForwardKey(rels, rest, l) {
            var q :| q in rest && q < |rels| && rels[q].id == l;
            assert q in ch;
          } else {
            var q :| q in rest && q < |rels| && rels[q].inverseFor.Some? &&
              rels[q].inverseFor.value < |rels| && rels[rels[q].inverseFor.value].id == l;
            assert q in ch;
          }
        }
      }
    }
  }

  lemma PrefixTrans<T>(a: seq<T>, b: seq<T>, c: seq<T>)
    requires a <= b && b <= c
    ensures a <= c
  {
    assert b[..|a|] == a;
    assert c[..|b|] == b;
    assert c[..|a|] == b[..|a|];
  }

  /** What a fact leaves behind: the object is linked from the subject under
      every relation of the chain, and the subject from the object under the
      inverse of each of them that has one. */
  lemma {:induction false} FactEstablishes(cs: seq<Concept>, rels: seq<Relation>, s: ConceptRef, r: RelationRef, o: ConceptRef, fuel: nat)
    requires s < |cs| && o < |cs| && Wired(rels) && ChainEnds(rels, r, fuel)
    ensures forall q :: q in Chain(rels, r, fuel) ==> o in Stored(ApplyFact(cs, rels, s, r, o, fuel)[s], rels[q].id)
    ensures forall q :: q in Chain(rels, r, fuel) && rels[q].inverseFor.Some? ==>
      s in Stored(ApplyFact(cs, rels, s, r, o, fuel)[o], rels[rels[q].inverseFor.value].id)
    decreases fuel
  {
    var ch := Chain(rels, r, fuel);
    var cs2 := FactStep(cs, rels, s, r, o);
    StepFrame(cs, rels, s, r, o);
    if rels[r].implies.Some? {
      var next := rels[r].implies.value;
      var out := ApplyFact(cs2, rels, s, next, o, fuel - 1);
      FactGrows(cs2, rels, s, next, o, fuel - 1);
      FactEstablishes(cs2, rels, s, next, o, fuel - 1);
      assert ch == [r] + Chain(rels, next, fuel - 1);
      assert Stored(cs2[s], rels[r].id) <= Stored(out[s], rels[r].id);
      if rels[r].inverseFor.Some? {
        assert Stored(cs2[o], rels[rels[r].inverseFor.value].id) <= Stored(out[o], rels[rels[r].inverseFor.value].id);
      }
    }
  }
}
