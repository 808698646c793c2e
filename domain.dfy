/** The object `Domain()` returns (lib/expert.js:35-261), as a class over the
    `_db` store: the concept and relation registries, their counters, and the
    arena of every concept and relation created. Every method keeps `Valid()`,
    and each one states its new state through the functions of the other
    modules (`WithLink`, `ApplyFact`, `Related`, `AllLinks`, `Serialized`),
    whose properties are proved there. */
module ExpertDomain {
  import opened Values
  import opened Model
  import opened Links
  import opened Traversal
  import opened Query
  import opened Facts
  import opened Snapshots

  /** What the relation function returns: the list of related concepts, or
      the boolean answer when a concept to look for was given. */
  datatype Reply = Members(concepts: seq<ConceptRef>) | Verdict(holds: bool)

  /** What `any` returns: a linked concept; `undefined` when there is no link
      (`NoValue`); the TypeError of a relation id that is not registered
      (`NoSuchRelation`); or the depth bound of the traversal exceeded. */
  datatype Pick = Picked(concept: ConceptRef) | NoValue | NoSuchRelation | DepthExceeded

  /** The store after `new Concept(descriptor)` registers concept `id` and
      sets the concept counter to `counter`. */
  function WithConcept(db: Store, id: Id, counter: nat): Store {
    db.(concepts := db.concepts + [Concept(id, map[], [])],
      conceptIndex := db.conceptIndex[id := |db.concepts|],
      conceptKeys := if id in db.conceptIndex then db.conceptKeys else db.conceptKeys + [id],
      cid := counter)
  }

  /** The store of a new domain: no concepts, both counters at 0, and the
      built-in transitive relations `isa` and `example`, each the inverse of
      the other, registered in that order. */
  function Bootstrap(): Store {
    Store([], map[], [], 0,
      [Relation(IsaKey, Some(true), Some(ExampleRef), None), Relation(ExampleKey, Some(true), Some(IsaRef), None)],
      map[IsaKey := IsaRef, ExampleKey := ExampleRef], [IsaKey, ExampleKey], 0)
  }

  /** Registering a new concept keeps the store well formed. */
  lemma WithConceptKeeps(db: Store, id: Id, counter: nat)
    requires WellFormed(db)
    ensures WellFormed(WithConcept(db, id, counter))
  {
    var cs := db.concepts + [Concept(id, map[], [])];
    RegisterKeeps(db.conceptIndex, db.conceptKeys, |db.concepts|, id);
    AppendKeepsClosed(db.concepts, id);
    AppendKeepsTables(db.concepts, id, db.relationIndex);
    var out := WithConcept(db, id, counter);
    assert out.concepts == cs && out.relations == db.relations && out.relationIndex == db.relationIndex;
    forall k | k in out.conceptIndex
      ensures out.conceptIndex[k] < |cs| && cs[out.conceptIndex[k]].id == k
    {
      if k != id {
        assert out.conceptIndex[k] == db.conceptIndex[k] < |db.concepts|;
        assert cs[db.conceptIndex[k]] == db.concepts[db.conceptIndex[k]];
      }
    }
  }

  /** A concept without links keeps the arena closed. */
  lemma AppendKeepsClosed(cs: seq<Concept>, id: Id)
    requires Closed(cs)
    ensures Closed(cs + [Concept(id, map[], [])])
  {
    var cs' := cs + [Concept(id, map[], [])];
    forall i, key | 0 <= i < |cs'|
      ensures AllBelow(Stored(cs'[i], key), |cs'|)
    {
      if i < |cs| {
        assert cs'[i] == cs[i];
        assert AllBelow(Stored(cs[i], key), |cs|);
      }
    }
  }

  /** A concept without links has a well-formed link table. */
  lemma AppendKeepsTables(cs: seq<Concept>, id: Id, relationIndex: map<Id, RelationRef>)
    requires forall i :: 0 <= i < |cs| ==> LinkTable(cs[i], relationIndex)
    ensures var cs' := cs + [Concept(id, map[], [])];
      forall i :: 0 <= i < |cs'| ==> LinkTable(cs'[i], relationIndex)
  {
    var cs' := cs + [Concept(id, map[], [])];
    forall i | 0 <= i < |cs'|
      ensures LinkTable(cs'[i], relationIndex)
    {
      if i < |cs| {
        assert cs'[i] == cs[i];
      }
    }
  }

  /** The relations after `Relation(descriptor)`: the new relation appended
      and, when it is the inverse for `inv`, `inv` pointed back at it. */
  function AddRelation(rels: seq<Relation>, id: Id, isTransitive: Option<bool>, inverseFor: Option<RelationRef>)
    : (out: seq<Relation>)
    requires inverseFor.Some? ==> inverseFor.value < |rels|
    ensures |out| == |rels| + 1 && out[|rels|] == Relation(id, isTransitive, inverseFor, None)
  {
    match inverseFor
    case None => rels + [Relation(id, isTransitive, None, None)]
    case Some(inv) => rels[inv := rels[inv].(inverseFor := Some(|rels|))] + [Relation(id, isTransitive, inverseFor, None)]
  }

  /** The relations already there keep their ids and flags; only the one the
      new relation is the inverse for changes, and it points back at the new one. */
  lemma AddRelationFrame(rels: seq<Relation>, id: Id, isTransitive: Option<bool>, inverseFor: Option<RelationRef>)
    requires inverseFor.Some? ==> inverseFor.value < |rels|
    ensures var out := AddRelation(rels, id, isTransitive, inverseFor);
      forall i :: 0 <= i < |rels| ==> out[i].id == rels[i].id && out[i].isTransitive == rels[i].isTransitive
    ensures var out := AddRelation(rels, id, isTransitive, inverseFor);
      inverseFor.Some? ==> out[inverseFor.value] == rels[inverseFor.value].(inverseFor := Some(|rels|))
    ensures var out := AddRelation(rels, id, isTransitive, inverseFor);
      forall i :: 0 <= i < |rels| && Some(i) != inverseFor ==> out[i] == rels[i]
  {
  }

  lemma AddRelationWired(rels: seq<Relation>, id: Id, isTransitive: Option<bool>, inverseFor: Option<RelationRef>)
    requires Wired(rels) && (inverseFor.Some? ==> inverseFor.value < |rels|)
    ensures Wired(AddRelation(rels, id, isTransitive, inverseFor))
  {
    var out := AddRelation(rels, id, isTransitive, inverseFor);
    AddRelationFrame(rels, id, isTransitive, inverseFor);
    forall i | 0 <= i < |out|
      ensures OptBelow(out[i].inverseFor, |out|) && OptBelow(out[i].implies, |out|)
    {
      if i < |rels| {
        assert OptBelow(rels[i].inverseFor, |rels|) && OptBelow(rels[i].implies, |rels|);
      }
    }
  }

  lemma AddRelationIds(db: Store, id: Id, isTransitive: Option<bool>, inverseFor: Option<RelationRef>)
    requires WellFormed(db) && (inverseFor.Some? ==> inverseFor.value < |db.relations|)
    ensures var rels := AddRelation(db.relations, id, isTransitive, inverseFor);
      var index := db.relationIndex[id := |db.relations|];
      (forall k :: k in index ==> index[k] < |rels| && rels[index[k]].id == k) &&
      (forall i :: 0 <= i < |rels| ==> rels[i].id in index)
  {
    var rels := AddRelation(db.relations, id, isTransitive, inverseFor);
    var index := db.relationIndex[id := |db.relations|];
    AddRelationFrame(db.relations, id, isTransitive, inverseFor);
    forall i | 0 <= i < |rels|
      ensures rels[i].id in index
    {
      if i < |db.relations| {
        assert db.relations[i].id in db.relationIndex;
      }
    }
  }

  /** The store after `Relation(descriptor)` registers relation `id` and
      sets the relation counter to `counter`. */
  function WithRelation(db: Store, id: Id, isTransitive: Option<bool>, inverseFor: Option<RelationRef>, counter: nat)
    : Store
    requires inverseFor.Some? ==> inverseFor.value < |db.relations|
  {
    db.(relations := AddRelation(db.relations, id, isTransitive, inverseFor),
      relationIndex := db.relationIndex[id := |db.relations|],
      relationKeys := if id in db.relationIndex then db.relationKeys else db.relationKeys + [id],
      rid := counter)
  }

  /** Registering a new relation keeps the store well formed. */
  lemma WithRelationKeeps(db: Store, id: Id, isTransitive: Option<bool>, inverseFor: Option<RelationRef>, counter: nat)
    requires WellFormed(db) && (inverseFor.Some? ==> inverseFor.value < |db.relations|)
    ensures WellFormed(WithRelation(db, id, isTransitive, inverseFor, counter))
  {
    RegisterKeeps(db.relationIndex, db.relationKeys, |db.relations|, id);
    TablesKeep(db.concepts, db.relationIndex, id, |db.relations|);
    AddRelationWired(db.relations, id, isTransitive, inverseFor);
    AddRelationIds(db, id, isTransitive, inverseFor);
    AddRelationFrame(db.relations, id, isTransitive, inverseFor);
    assert Builtins(WithRelation(db, id, isTransitive, inverseFor, counter).relations);
  }

  /** Registering an id in a registry of an arena that grows by one. */
  lemma RegisterKeeps(index: map<Id, nat>, keys: seq<Id>, size: nat, id: Id)
    requires Registry(index, keys, size)
    ensures Registry(index[id := size], if id in index then keys else keys + [id], size + 1)
  {
    if id !in index {
      AppendFresh(keys, id);
    }
  }

  /** Link tables stay well formed when a relation id is registered. */
  lemma TablesKeep(cs: seq<Concept>, index: map<Id, RelationRef>, id: Id, r: RelationRef)
    requires forall i :: 0 <= i < |cs| ==> LinkTable(cs[i], index)
    ensures forall i :: 0 <= i < |cs| ==> LinkTable(cs[i], index[id := r])
  {
    forall i | 0 <= i < |cs|
      ensures LinkTable(cs[i], index[id := r])
    {
      assert LinkTable(cs[i], index);
    }
  }

  /** Pointing a relation at what it implies, or at nothing, keeps the store well formed. */
  lemma ImpliesKeeps(db: Store, r: RelationRef, abs: Option<RelationRef>)
    requires WellFormed(db) && r < |db.relations| && OptBelow(abs, |db.relations|)
    ensures WellFormed(db.(relations := db.relations[r := db.relations[r].(implies := abs)]))
  {
    var rels := db.relations[r := db.relations[r].(implies := abs)];
    forall i | 0 <= i < |rels|
      ensures OptBelow(rels[i].inverseFor, |rels|) && OptBelow(rels[i].implies, |rels|)
    {
      assert OptBelow(db.relations[i].inverseFor, |rels|);
    }
    forall k | k in db.relationIndex
      ensures rels[db.relationIndex[k]].id == k
    {
      assert rels[db.relationIndex[k]].id == db.relations[db.relationIndex[k]].id;
    }
    forall i | 0 <= i < |rels|
      ensures rels[i].id in db.relationIndex
    {
      assert rels[i].id == db.relations[i].id;
    }
  }

  /** Linking two concepts of the arena under a relation keeps the store well formed. */
  lemma LinkKeeps(db: Store, c: ConceptRef, r: RelationRef, target: ConceptRef)
    requires WellFormed(db) && c < |db.concepts| && target < |db.concepts| && r < |db.relations|
    ensures WellFormed(db.(concepts := db.concepts[c := WithLink(db.concepts[c], db.relations[r].id, target)]))
  {
    var key := db.relations[r].id;
    var cs := db.concepts[c := WithLink(db.concepts[c], key, target)];
    LinkKeepsClosed(db.concepts, c, key, target);
    assert LinkTable(db.concepts[c], db.relationIndex);
    LinkKeepsTable(db.concepts[c], key, target, db.relationIndex);
    forall i | 0 <= i < |cs|
      ensures LinkTable(cs[i], db.relationIndex)
    {
      if i != c {
        assert cs[i] == db.concepts[i];
      }
    }
  }

  class Domain {
    var concepts: seq<Concept>
    var conceptIndex: map<Id, ConceptRef>
    var conceptKeys: seq<Id>
    var cid: nat
    var relations: seq<Relation>
    var relationIndex: map<Id, RelationRef>
    var relationKeys: seq<Id>
    var rid: nat

    /** The `_db` object. */
    function Db(): Store
      reads this
    {
      Store(concepts, conceptIndex, conceptKeys, cid, relations, relationIndex, relationKeys, rid)
    }

    /** Everything but the concepts' link tables. */
    function Registries(): (map<Id, ConceptRef>, seq<Id>, nat, seq<Relation>, map<Id, RelationRef>, seq<Id>, nat)
      reads this
    {
      (conceptIndex, conceptKeys, cid, relations, relationIndex, relationKeys, rid)
    }

    ghost predicate Valid()
      reads this
    {
      WellFormed(Db())
    }

    /** `Domain()`: empty registries, both counters at 0, and the bootstrap
      of the two built-in transitive relations `isa` and `example`, each the
      inverse of the other (lib/expert.js:186-188). */
    constructor ()
      ensures Valid()
      ensures Db() == Bootstrap()
    {
      concepts := [];
      conceptIndex := map[];
      conceptKeys := [];
      cid := 0;
      // the two `Relation(...)` calls: `isa`, then `example` as its inverse
      var isaOnly := [Relation(IsaKey, Some(true), None, None)];
      relations := AddRelation(isaOnly, ExampleKey, Some(true), Some(IsaRef));
      relationIndex := map[IsaKey := IsaRef][ExampleKey := ExampleRef];
      relationKeys := [IsaKey] + [ExampleKey];
      rid := 0;
      new;
      assert NoDup(relationKeys);
    }

    /** `new Concept(descriptor)` (lib/expert.js:46-51), `Concept.create`
      (lib/expert.js:202-204): a concept with no links, under the given id
      when it is truthy and under the next counter value otherwise,
      registered under its id, replacing any concept registered there. */
    method CreateConcept(given: Option<Id>) returns (c: ConceptRef)
      requires Valid()
      modifies this
      ensures Valid()
      ensures c == |old(concepts)|
      ensures concepts == old(concepts) + [Concept(AssignedId(given, old(cid)), map[], [])]
      ensures conceptIndex == old(conceptIndex)[AssignedId(given, old(cid)) := c]
      ensures conceptKeys == if AssignedId(given, old(cid)) in old(conceptIndex) then old(conceptKeys)
                             else old(conceptKeys) + [AssignedId(given, old(cid))]
      ensures cid == NextCounter(given, old(cid))
      ensures relations == old(relations) && relationIndex == old(relationIndex)
      ensures relationKeys == old(relationKeys) && rid == old(rid)
      ensures Db() == WithConcept(old(Db()), AssignedId(given, old(cid)), NextCounter(given, old(cid)))
    {
      var id: Id;
      var counter := cid;
      if given.Some? && Truthy(given.value) {
        id := given.value;
      } else {
        id := Num(cid);
        counter := cid + 1;
      }
      c := |concepts|;
      var next := WithConcept(Db(), id, counter);
      WithConceptKeeps(Db(), id, counter);
      concepts, conceptIndex, conceptKeys, cid := next.concepts, next.conceptIndex, next.conceptKeys, next.cid;
      assert Db() == next;
    }

    /** `Concept.fetch(id)` (lib/expert.js:208-210): the concept registered
      under `id` last, which carries that id, or nothing. */
    function FetchConcept(id: Id): (r: Option<ConceptRef>)
      reads this
      requires Valid()
      ensures r.Some? <==> id in conceptIndex
      ensures r.Some? ==> r.value == conceptIndex[id] && r.value < |concepts| && concepts[r.value].id == id
    {
      if id in conceptIndex then Some(conceptIndex[id]) else None
    }

    /** `$(conceptId)` as written (lib/expert.js:212-216): the registered
      concept when there is one; otherwise `new Concept(conceptId)`, whose
      descriptor is the id itself and has no `id` property, so the new
      concept gets the next counter value as its id. */
    method GetOrCreate(conceptId: Id) returns (c: ConceptRef)
      requires Valid()
      modifies this
      ensures Valid()
      ensures conceptId in old(conceptIndex) ==> c == old(conceptIndex)[conceptId] && Db() == old(Db())
      ensures conceptId !in old(conceptIndex) ==>
        c == |old(concepts)| && concepts == old(concepts) + [Concept(Num(old(cid)), map[], [])] &&
        conceptIndex == old(conceptIndex)[Num(old(cid)) := c] && cid == old(cid) + 1
      ensures conceptId !in old(conceptIndex) ==> Db() == WithConcept(old(Db()), Num(old(cid)), old(cid) + 1)
      ensures relations == old(relations) && relationIndex == old(relationIndex)
      ensures relationKeys == old(relationKeys) && rid == old(rid)
    {
      if conceptId in conceptIndex {
        c := conceptIndex[conceptId];
      } else {
        c := CreateConcept(None);
      }
    }

    /** `$(conceptId)` as evidently intended: a missing concept is created
      under `conceptId`, so that the same call finds it afterwards. */
    method GetOrCreateById(conceptId: Id) returns (c: ConceptRef)
      requires Valid()
      modifies this
      ensures Valid()
      ensures conceptId in old(conceptIndex) ==> c == old(conceptIndex)[conceptId] && Db() == old(Db())
      ensures conceptId !in old(conceptIndex) ==>
        c == |old(concepts)| && concepts == old(concepts) + [Concept(AssignedId(Some(conceptId), old(cid)), map[], [])]
      ensures conceptId !in old(conceptIndex) ==>
        Db() == WithConcept(old(Db()), AssignedId(Some(conceptId), old(cid)), NextCounter(Some(conceptId), old(cid)))
      ensures Truthy(conceptId) ==> conceptId in conceptIndex && conceptIndex[conceptId] == c && concepts[c].id == conceptId
      ensures relations == old(relations) && relationIndex == old(relationIndex)
      ensures relationKeys == old(relationKeys) && rid == old(rid)
    {
      if conceptId in conceptIndex {
        c := conceptIndex[conceptId];
      } else {
        c := CreateConcept(Some(conceptId));
      }
    }

    /** `Relation(descriptor)`, `Relation.create` (lib/expert.js:112-167,
      220): a relation with the given flag and no implied relation, under the
      given id when it is truthy and under the next counter value otherwise;
      when it is the inverse for `inverseFor`, that relation's own inverse is
      set to the new one. It is registered under its id, replacing any
      relation registered there. */
    method CreateRelation(given: Option<Id>, isTransitive: Option<bool>, inverseFor: Option<RelationRef>)
      returns (r: RelationRef)
      requires Valid() && (inverseFor.Some? ==> inverseFor.value < |relations|)
      modifies this
      ensures r == |old(relations)|
      ensures Db() == WithRelation(old(Db()), AssignedId(given, old(rid)), isTransitive, inverseFor, NextCounter(given, old(rid)))
      ensures Valid()
    {
      var id, counter := AssignedId(given, rid), NextCounter(given, rid);
      r := |relations|;
      var next := WithRelation(Db(), id, isTransitive, inverseFor, counter);
      WithRelationKeeps(Db(), id, isTransitive, inverseFor, counter);
      relations, relationIndex, relationKeys, rid := next.relations, next.relationIndex, next.relationKeys, next.rid;
      assert Db() == next;
    }

    /** `Relation.fetch(id)` (lib/expert.js:221-223): the relation registered
      under `id` last, which carries that id, or nothing. */
    function FetchRelation(id: Id): (r: Option<RelationRef>)
      reads this
      requires Valid()
      ensures r.Some? <==> id in relationIndex
      ensures r.Some? ==> r.value == relationIndex[id] && r.value < |relations| && relations[r.value].id == id
    {
      if id in relationIndex then Some(relationIndex[id]) else None
    }

    /** `relation.implies(abstractRelation)` (lib/expert.js:154-157): sets
      the implied relation, replacing any earlier one, and returns the
      relation itself. `implies(undefined)` (None) clears it. */
    method Implies(r: RelationRef, abstractRelation: Option<RelationRef>) returns (self: RelationRef)
      requires Valid() && r < |relations| && OptBelow(abstractRelation, |relations|)
      modifies this
      ensures Valid()
      ensures self == r
      ensures relations == old(relations)[r := old(relations)[r].(implies := abstractRelation)]
      ensures concepts == old(concepts) && conceptIndex == old(conceptIndex) && conceptKeys == old(conceptKeys)
      ensures cid == old(cid) && relationIndex == old(relationIndex) && relationKeys == old(relationKeys) && rid == old(rid)
    {
      ImpliesKeeps(Db(), r, abstractRelation);
      relations := relations[r := relations[r].(implies := abstractRelation)];
      self := r;
    }

    /** `c._link(relation, target)` (lib/expert.js:92-101): the list under
      the relation's id is created, or has the target appended unless
      `indexOf` finds it there. */
    method Link(c: ConceptRef, r: RelationRef, target: ConceptRef)
      requires Valid() && c < |concepts| && target < |concepts| && r < |relations|
      modifies this
      ensures Registries() == old(Registries())
      ensures Valid()
      ensures concepts == old(concepts)[c := WithLink(old(concepts)[c], relations[r].id, target)]
    {
      var key := relations[r].id;
      LinkKeeps(Db(), c, r, target);
      var concept := concepts[c];
      if key !in concept.links {
        concepts := concepts[c := concept.(links := concept.links[key := [target]], linkOrder := concept.linkOrder + [key])];
      } else {
        var links := concept.links[key];
        var at := IndexOf(links, target);
        if at < 0 {
          concepts := concepts[c := concept.(links := concept.links[key := links + [target]])];
        }
      }
    }

    /** `Fact(concept, relation, linkedConcept)` (lib/expert.js:170-182),
      `Fact.establish`: the forward link, the link back under the inverse
      when there is one, then the same for the implied relation. The ghost
      `fuel` bounds the `implies` chain, which the source follows without a
      cycle guard. */
    method Fact(s: ConceptRef, r: RelationRef, o: ConceptRef, ghost fuel: nat)
      requires Valid() && s < |concepts| && o < |concepts| && ChainEnds(relations, r, fuel)
      modifies this
      ensures Registries() == old(Registries())
      ensures Valid()
      ensures concepts == ApplyFact(old(concepts), relations, s, r, o, fuel)
      decreases fuel
    {
      Link(s, r, o);
      if relations[r].inverseFor.Some? {
        Link(o, relations[r].inverseFor.value, s);
      }
      if relations[r].implies.Some? {
        Fact(s, relations[r].implies.value, o, fuel - 1);
      }
    }

    /** `concept.fact(relation, linkedConcept)` (lib/expert.js:53-56): the
      same fact, returning the concept. */
    method ConceptFact(c: ConceptRef, r: RelationRef, linked: ConceptRef, ghost fuel: nat) returns (self: ConceptRef)
      requires Valid() && c < |concepts| && linked < |concepts| && ChainEnds(relations, r, fuel)
      modifies this
      ensures Valid()
      ensures self == c
      ensures Registries() == old(Registries())
      ensures concepts == ApplyFact(old(concepts), relations, c, r, linked, fuel)
    {
      Fact(c, r, linked, fuel);
      self := c;
    }

    /** The relation `r` called as a function (lib/expert.js:114-135): with
      no concept to look for, the concepts in the `_allLinks` of every
      source, each once, in the order of the first source's list; with one,
      whether it is among them. Nothing when a traversal exceeds `fuel`. */
    method Call(r: RelationRef, sources: seq<ConceptRef>, target: Option<ConceptRef>, fuel: nat)
      returns (reply: Option<Reply>)
      requires Valid() && r < |relations| && AllBelow(sources, |concepts|)
      ensures Closed(concepts)
      ensures reply.None? <==> exists i :: 0 <= i < |sources| && AllLinks(concepts, sources[i], relations[r], r == ExampleRef, fuel).None?
      ensures reply.Some? && target.None? ==> (reply.value.Members? &&
        NoDup(reply.value.concepts) &&
        forall x :: x in reply.value.concepts <==>
          |sources| > 0 && forall i :: 0 <= i < |sources| ==> x in AllLinks(concepts, sources[i], relations[r], r == ExampleRef, fuel).value)
      ensures reply.Some? && target.None? && |sources| > 0 ==>
        forall x :: x in reply.value.concepts ==> x in AllLinks(concepts, sources[0], relations[r], r == ExampleRef, fuel).value
      ensures reply.Some? && target.None? && |sources| > 0 ==>
        var first := AllLinks(concepts, sources[0], relations[r], r == ExampleRef, fuel).value;
        forall i, j :: 0 <= i < j < |reply.value.concepts| ==>
          reply.value.concepts[i] in first && reply.value.concepts[j] in first &&
          FirstIndex(first, reply.value.concepts[i]) < FirstIndex(first, reply.value.concepts[j])
      ensures reply.Some? && target.Some? ==> (reply.value.Verdict? &&
        (reply.value.holds <==>
          |sources| > 0 && forall i :: 0 <= i < |sources| ==> target.value in AllLinks(concepts, sources[i], relations[r], r == ExampleRef, fuel).value))
    {
      var related := Related(concepts, relations[r], r == ExampleRef, sources, fuel);
      if related.None? {
        reply := None;
        return;
      }
      RelatedMeaning(concepts, relations[r], r == ExampleRef, sources, fuel);
      if target.None? {
        reply := Some(Members(related.value));
      } else {
        var at := IndexOf(related.value, target.value);
        reply := Some(Verdict(!(|related.value| == 0 || at < 0)));
      }
    }

    /** `c.any(relationId)` (lib/expert.js:103-107) for a draw `u` of
      `Math.random()`: the element at `floor(u * n)` of the concept's `n`
      `_allLinks` under the relation registered under `relationId`. */
    method Any(c: ConceptRef, relationId: Id, u: real, fuel: nat) returns (p: Pick)
      requires Valid() && c < |concepts| && 0.0 <= u < 1.0
      ensures Closed(concepts) && (relationId in relationIndex ==> relationIndex[relationId] < |relations|)
      ensures p.NoSuchRelation? <==> relationId !in relationIndex
      ensures relationId in relationIndex ==>
        var r := relationIndex[relationId];
        var links := AllLinks(concepts, c, relations[r], r == ExampleRef, fuel);
        (p.DepthExceeded? <==> links.None?) &&
        (p.NoValue? <==> links == Some([])) &&
        (p.Picked? ==> links.Some? && p.concept in links.value &&
                       p.concept == links.value[RandomIndex(u, |links.value|)])
    {
      if relationId !in relationIndex {
        return NoSuchRelation;
      }
      var r := relationIndex[relationId];
      var links := AllLinks(concepts, c, relations[r], r == ExampleRef, fuel);
      if links.None? {
        return DepthExceeded;
      }
      if |links.value| == 0 {
        return NoValue;
      }
      p := Picked(links.value[RandomIndex(u, |links.value|)]);
    }

    /** The inner loop of `serialize` for one link list: the id of each
      target is pushed onto `m[l]` unless the dedup test skips it. */
    method EmitTargets(out: map<Id, ConceptEntry>, e: Id, l: Id, targets: seq<ConceptRef>, m0: map<Id, seq<Id>>)
      returns (m: map<Id, seq<Id>>)
      requires l in relationIndex && relationIndex[l] < |relations| && Wired(relations)
      requires AllBelow(targets, |concepts|)
      ensures m == Pushed(m0, l, EmitList(Db(), out, e, l, targets, false))
    {
      m := m0;
      var n := 0;
      while n < |targets|
        invariant 0 <= n <= |targets|
        invariant m == Pushed(m0, l, EmitList(Db(), out, e, l, targets[..n], false))
      {
        var t := targets[n];
        var rel := relations[relationIndex[l]];
        var tid := concepts[t].id;
        EmitListStep(Db(), out, e, l, targets, n, false);
        PushedStep(m0, l, EmitList(Db(), out, e, l, targets[..n], false), tid);
        if rel.inverseFor.Some? && tid in out && relations[rel.inverseFor.value].id in out[tid].relations {
        } else {
          var list := if l in m then m[l] else [];
          m := m[l := list + [tid]];
        }
        n := n + 1;
      }
      assert targets[..n] == targets;
    }

    /** The loop of `serialize` over the link table of concept `c`, registered under `e`. */
    method EmitConcept(out: map<Id, ConceptEntry>, e: Id, c: ConceptRef) returns (m: map<Id, seq<Id>>)
      requires c < |concepts| && Wired(relations)
      requires forall l :: l in concepts[c].linkOrder ==>
        l in concepts[c].links && l in relationIndex && relationIndex[l] < |relations|
      requires forall l :: AllBelow(Stored(concepts[c], l), |concepts|)
      ensures m == EmitLinks(Db(), out, e, c, concepts[c].linkOrder, false)
    {
      var lo := concepts[c].linkOrder;
      m := map[];
      var k := 0;
      while k < |lo|
        invariant 0 <= k <= |lo|
        invariant m == EmitLinks(Db(), out, e, c, lo[..k], false)
      {
        var l := lo[k];
        assert lo[..k + 1][..k] == lo[..k];
        assert Stored(concepts[c], l) == concepts[c].links[l];
        m := EmitTargets(out, e, l, concepts[c].links[l], m);
        k := k + 1;
      }
      assert lo[..k] == lo;
    }

    /** The loop of `serialize` over the relation registry. */
    method EmitRelations() returns (rels: map<Id, RelationEntry>)
      requires RelationsIndexed(Db(), relationKeys)
      ensures rels == RelationsPart(Db(), relationKeys)
    {
      rels := map[];
      var i := 0;
      while i < |relationKeys|
        invariant 0 <= i <= |relationKeys|
        invariant RelationsIndexed(Db(), relationKeys[..i])
        invariant rels == RelationsPart(Db(), relationKeys[..i])
      {
        var e := relationKeys[i];
        var rel := relations[relationIndex[e]];
        var entry := RelationEntry(
          rel.isTransitive,
          if rel.inverseFor.Some? then Some(relations[rel.inverseFor.value].id) else None,
          if rel.implies.Some? then Some(relations[rel.implies.value].id) else None);
        assert relationKeys[..i + 1][..i] == relationKeys[..i];
        rels := rels[e := entry];
        i := i + 1;
      }
      assert relationKeys[..i] == relationKeys;
    }

    /** The loop of `serialize` over the concept registry. */
    method EmitConcepts() returns (out: map<Id, ConceptEntry>)
      requires Indexed(Db(), conceptKeys) && Wired(relations)
      requires forall k :: k in relationIndex ==> relationIndex[k] < |relations|
      requires forall i :: 0 <= i < |concepts| ==> LinkTable(concepts[i], relationIndex)
      ensures out == ConceptsPart(Db(), conceptKeys, false)
    {
      out := map[];
      var j := 0;
      while j < |conceptKeys|
        invariant 0 <= j <= |conceptKeys|
        invariant Indexed(Db(), conceptKeys[..j])
        invariant out == ConceptsPart(Db(), conceptKeys[..j], false)
      {
        var e := conceptKeys[j];
        var c := conceptIndex[e];
        assert LinkTable(concepts[c], relationIndex);
        assert forall l :: l in concepts[c].linkOrder ==> l in concepts[c].links && l in relationIndex;
        var links := EmitConcept(out, e, c);
        assert conceptKeys[..j + 1][..j] == conceptKeys[..j];
        out := out[e := ConceptEntry(links)];
        j := j + 1;
      }
      assert conceptKeys[..j] == conceptKeys;
    }

    /** `serialize()` (lib/expert.js:230-259): one entry per registered
      relation, then one per registered concept, each concept's links
      deduplicated against the entries emitted before it. */
    method Serialize() returns (snap: Snapshot)
      requires Valid()
      ensures snap == Serialized(Db(), false)
    {
      assert RelationsIndexed(Db(), relationKeys);
      var rels := EmitRelations();
      assert Indexed(Db(), conceptKeys);
      var out := EmitConcepts();
      snap := Snapshot(rels, out);
    }
  }
}
