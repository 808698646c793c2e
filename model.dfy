/** The data of a domain (the closure-local `_db` of lib/expert.js): the concept
    and relation registries, their two auto-id counters, and the link table of
    every concept.

    Concepts and relations are JavaScript objects compared by identity, and a
    registry entry can be overwritten while the old object is still linked
    from elsewhere. The model therefore keeps every object ever created in an
    append-only arena: a reference is the object's creation index, and a
    registry maps an id to the reference registered under it last. */
module Model {
  import opened Values

  type ConceptRef = nat
  type RelationRef = nat

  /** A concept: its id and its link table, which maps a relation id to the
      ordered list of linked concepts. `linkOrder` is the order in which the
      table's keys were first used (the enumeration order of `_links`). */
  datatype Concept = Concept(id: Id, links: map<Id, seq<ConceptRef>>, linkOrder: seq<Id>)

  /** A relation: its id, the `isTransitive` flag exactly as it was given
      (None when it was left undefined), and the optional `inverseFor` and
      `_implies` references. */
  datatype Relation = Relation(
    id: Id, isTransitive: Option<bool>, inverseFor: Option<RelationRef>, implies: Option<RelationRef>)

  /** The built-in relations are the first two a domain creates. */
  const IsaRef: RelationRef := 0
  const ExampleRef: RelationRef := 1
  const IsaKey: Id := Str("isa")
  const ExampleKey: Id := Str("example")

  /** `if (relation.isTransitive)`: only an explicit `true` makes a relation transitive. */
  predicate Transitive(r: Relation) {
    r.isTransitive == Some(true)
  }

  /** `this._links[key] || []`: the stored link list of a concept under a relation id. */
  function Stored(c: Concept, key: Id): seq<ConceptRef> {
    Get(c.links, key)
  }

  /** Every stored link refers to a concept of the arena. */
  ghost predicate Closed(cs: seq<Concept>) {
    forall i, key :: 0 <= i < |cs| ==> AllBelow(Stored(cs[i], key), |cs|)
  }

  /** `descriptor.id || counter`: the id an entity is created under. */
  function AssignedId(given: Option<Id>, counter: nat): Id {
    if given.Some? && Truthy(given.value) then given.value else Num(counter)
  }

  /** The counter after the creation: `counter++` runs only when it supplied the id. */
  function NextCounter(given: Option<Id>, counter: nat): nat {
    if given.Some? && Truthy(given.value) then counter else counter + 1
  }

  /** A registry: its keys in registration order, each once, and every entry
      refers to an object of the arena. */
  ghost predicate Registry(index: map<Id, nat>, keys: seq<Id>, size: nat) {
    NoDup(keys) &&
    (forall k :: k in keys <==> k in index) &&
    (forall k :: k in index ==> index[k] < size)
  }

  /** A link table: keys in first-use order, each list duplicate-free, and
      every key the id of a registered relation. */
  ghost predicate LinkTable(c: Concept, relationIndex: map<Id, RelationRef>) {
    NoDup(c.linkOrder) &&
    (forall k :: k in c.linkOrder <==> k in c.links) &&
    (forall k :: k in c.links ==> k in relationIndex && NoDup(c.links[k]))
  }

  predicate OptBelow(r: Option<nat>, n: nat) {
    r.Some? ==> r.value < n
  }

  /** Every inverse and implied reference points to a relation of the arena. */
  predicate Wired(rels: seq<Relation>) {
    forall i :: 0 <= i < |rels| ==> OptBelow(rels[i].inverseFor, |rels|) && OptBelow(rels[i].implies, |rels|)
  }

  /** What never changes about the built-ins after the bootstrap. */
  predicate Builtins(rels: seq<Relation>) {
    |rels| >= 2 &&
    rels[IsaRef].id == IsaKey && Transitive(rels[IsaRef]) &&
    rels[ExampleRef].id == ExampleKey && Transitive(rels[ExampleRef])
  }

  /** The whole `_db` object. */
  datatype Store = Store(
    concepts: seq<Concept>, conceptIndex: map<Id, ConceptRef>, conceptKeys: seq<Id>, cid: nat,
    relations: seq<Relation>, relationIndex: map<Id, RelationRef>, relationKeys: seq<Id>, rid: nat)

  /** The invariant every domain operation keeps. */
  ghost predicate WellFormed(db: Store) {
    Registry(db.conceptIndex, db.conceptKeys, |db.concepts|) &&
    (forall k :: k in db.conceptIndex ==> db.concepts[db.conceptIndex[k]].id == k) &&
    Closed(db.concepts) &&
    (forall i :: 0 <= i < |db.concepts| ==> LinkTable(db.concepts[i], db.relationIndex)) &&
    Registry(db.relationIndex, db.relationKeys, |db.relations|) &&
    (forall k :: k in db.relationIndex ==> db.relations[db.relationIndex[k]].id == k) &&
    (forall i :: 0 <= i < |db.relations| ==> db.relations[i].id in db.relationIndex) &&
    Wired(db.relations) &&
    Builtins(db.relations)
  }
}
