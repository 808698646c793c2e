/** `serialize` (lib/expert.js:230-259): a plain snapshot of the domain, one
    entry per registered relation and one per registered concept, listing the
    ids each concept links to under each relation id.

    The source enumerates object keys; here every enumeration follows
    registration order (the registries' key lists, a concept's `linkOrder`).
    The snapshot is defined as left folds over those orders so that the
    imperative `Serialize` method can be proved equal to it loop by loop.

    The dedup test at lib/expert.js:247-249 skips the link A -> B under R when
    R has an inverse R' and B's entry, already emitted, has ANY list under R';
    it does not look for A in that list. `Skip` models that test as written
    (`intended` false) and, for comparison, with the missing membership test
    (`intended` true). */
module Snapshots {
  import opened Values
  import opened Model

  /** `{isTransitive, inverseFor?, implies?}`, the references given by id. */
  datatype RelationEntry = RelationEntry(isTransitive: Option<bool>, inverseFor: Option<Id>, implies: Option<Id>)

  /** `{relations: {relationId: [conceptId, ...]}}` */
  datatype ConceptEntry = ConceptEntry(relations: map<Id, seq<Id>>)

  datatype Snapshot = Snapshot(relations: map<Id, RelationEntry>, concepts: map<Id, ConceptEntry>)

  /** The entry of one relation: the flag copied, each reference replaced by the id it points to. */
  function EntryOf(rels: seq<Relation>, r: RelationRef): RelationEntry
    requires r < |rels| && Wired(rels)
  {
    RelationEntry(
      rels[r].isTransitive,
      if rels[r].inverseFor.Some? then Some(rels[rels[r].inverseFor.value].id) else None,
      if rels[r].implies.Some? then Some(rels[rels[r].implies.value].id) else None)
  }

  /** What the relation loop relies on: the keys are registered and the
      references of every relation are in the arena. */
  ghost predicate RelationsIndexed(db: Store, keys: seq<Id>) {
    Wired(db.relations) &&
    forall k :: k in keys ==> k in db.relationIndex && db.relationIndex[k] < |db.relations|
  }

  /** `output.relations` after the loop over the given relation keys. */
  function RelationsPart(db: Store, keys: seq<Id>): map<Id, RelationEntry>
    requires RelationsIndexed(db, keys)
    decreases |keys|
  {
    if keys == [] then map[]
    else
      var n := |keys| - 1;
      RelationsPart(db, keys[..n])[keys[n] := EntryOf(db.relations, db.relationIndex[keys[n]])]
  }

  /** The skip test for the link from the concept registered under `src` to
      concept `t` under relation id `l`, against the entries `out` emitted so far. */
  predicate Skip(db: Store, out: map<Id, ConceptEntry>, src: Id, l: Id, t: ConceptRef, intended: bool) {
    l in db.relationIndex && db.relationIndex[l] < |db.relations| && t < |db.concepts| &&
    var rel := db.relations[db.relationIndex[l]];
    var tid := db.concepts[t].id;
    rel.inverseFor.Some? && rel.inverseFor.value < |db.relations| && tid in out &&
    var back := db.relations[rel.inverseFor.value].id;
    back in out[tid].relations && (!intended || src in out[tid].relations[back])
  }

  /** The ids the inner loop pushes for the targets of one link list. */
  function EmitList(db: Store, out: map<Id, ConceptEntry>, src: Id, l: Id, targets: seq<ConceptRef>, intended: bool)
    : (r: seq<Id>)
    requires AllBelow(targets, |db.concepts|)
    ensures forall x :: x in r <==> exists t :: t in targets && !Skip(db, out, src, l, t, intended) && db.concepts[t].id == x
    decreases |targets|
  {
    if targets == [] then []
    else
      var n := |targets| - 1;
      var acc := EmitList(db, out, src, l, targets[..n], intended);
      assert targets == targets[..n] + [targets[n]];
      assert forall t :: t in targets <==> t in targets[..n] || t == targets[n];
      if Skip(db, out, src, l, targets[n], intended) then acc else acc + [db.concepts[targets[n]].id]
  }

  /** `m` after pushing the ids of `lst`, one by one, onto `m[l]`, which
      is created at the first push. */
  function Pushed(m: map<Id, seq<Id>>, l: Id, lst: seq<Id>): map<Id, seq<Id>> {
    if lst == [] then m else m[l := Get(m, l) + lst]
  }

  /** One more target: its id is pushed unless the skip test holds for it. */
  lemma EmitListStep(db: Store, out: map<Id, ConceptEntry>, src: Id, l: Id, targets: seq<ConceptRef>, n: nat, intended: bool)
    requires AllBelow(targets, |db.concepts|) && n < |targets|
    ensures EmitList(db, out, src, l, targets[..n + 1], intended) ==
      if Skip(db, out, src, l, targets[n], intended) then EmitList(db, out, src, l, targets[..n], intended)
      else EmitList(db, out, src, l, targets[..n], intended) + [db.concepts[targets[n]].id]
  {
    assert targets[..n + 1][..n] == targets[..n];
  }

  /** One more push onto `m[l]`. */
  lemma PushedStep(m: map<Id, seq<Id>>, l: Id, lst: seq<Id>, x: Id)
    ensures Pushed(m, l, lst + [x]) == Pushed(m, l, lst)[l := Get(Pushed(m, l, lst), l) + [x]]
  {
    if lst == [] {
      assert lst + [x] == [x];
    } else {
      var m1 := m[l := Get(m, l) + lst];
      assert Get(m1, l) == Get(m, l) + lst;
      assert Get(m, l) + (lst + [x]) == (Get(m, l) + lst) + [x];
      assert m1[l := Get(m1, l) + [x]] == m[l := Get(m, l) + (lst + [x])];
    }
  }

  /** `c.relations` after the loop over the given link keys of concept `c`:
      a list is created at its first push, so a key whose links were all
      skipped is absent. */
  function EmitLinks(db: Store, out: map<Id, ConceptEntry>, src: Id, c: ConceptRef, lkeys: seq<Id>, intended: bool)
    : map<Id, seq<Id>>
    requires c < |db.concepts| && forall l :: l in lkeys ==> AllBelow(Stored(db.concepts[c], l), |db.concepts|)
    decreases |lkeys|
  {
    if lkeys == [] then map[]
    else
      var n := |lkeys| - 1;
      var m := EmitLinks(db, out, src, c, lkeys[..n], intended);
      var l := lkeys[n];
      var lst := EmitList(db, out, src, l, Stored(db.concepts[c], l), intended);
      Pushed(m, l, lst)
  }

  /** What the concept loop relies on: the keys are registered, their
      concepts are in the arena, and so is every link stored there. */
  ghost predicate Indexed(db: Store, keys: seq<Id>) {
    Closed(db.concepts) && forall k :: k in keys ==> k in db.conceptIndex && db.conceptIndex[k] < |db.concepts|
  }

  /** `output.concepts` after the loop over the given concept keys. */
  function ConceptsPart(db: Store, keys: seq<Id>, intended: bool): map<Id, ConceptEntry>
    requires Indexed(db, keys)
    decreases |keys|
  {
    if keys == [] then map[]
    else
      var n := |keys| - 1;
      var out := ConceptsPart(db, keys[..n], intended);
      var e := keys[n];
      var c := db.conceptIndex[e];
      out[e := ConceptEntry(EmitLinks(db, out, e, c, db.concepts[c].linkOrder, intended))]
  }

  /** The snapshot `serialize` returns (`intended` false), or the one it
      would return with the dedup test checking for the source concept. */
  function Serialized(db: Store, intended: bool): Snapshot
    requires WellFormed(db)
  {
    Snapshot(RelationsPart(db, db.relationKeys), ConceptsPart(db, db.conceptKeys, intended))
  }

  lemma {:induction false} RelationsPartMeaning(db: Store, keys: seq<Id>)
    requires RelationsIndexed(db, keys)
    ensures forall k :: k in RelationsPart(db, keys) <==> k in keys
    ensures forall k :: k in keys ==> RelationsPart(db, keys)[k] == EntryOf(db.relations, db.relationIndex[k])
    decreases |keys|
  {
    if keys != [] {
      var n := |keys| - 1;
      RelationsPartMeaning(db, keys[..n]);
      assert keys == keys[..n] + [keys[n]];
    }
  }

  /** One relation entry per registry key, with `isTransitive` copied and the
      `inverseFor` and `implies` ids present exactly when those references are set. */
  lemma SerializedRelations(db: Store, intended: bool)
    requires WellFormed(db)
    ensures Serialized(db, intended).relations.Keys == db.relationIndex.Keys
    ensures forall k :: k in db.relationIndex ==>
      var entry := Serialized(db, intended).relations[k];
      var rel := db.relations[db.relationIndex[k]];
      entry.isTransitive == rel.isTransitive &&
      (entry.inverseFor.Some? <==> rel.inverseFor.Some?) &&
      (rel.inverseFor.Some? ==> entry.inverseFor.value == db.relations[rel.inverseFor.value].id) &&
      (entry.implies.Some? <==> rel.implies.Some?) &&
      (rel.implies.Some? ==> entry.implies.value == db.relations[rel.implies.value].id)
  {
    RelationsPartMeaning(db, db.relationKeys);
  }

  lemma {:induction false} ConceptsPartKeys(db: Store, keys: seq<Id>, intended: bool)
    requires Indexed(db, keys)
    ensures forall k :: k in ConceptsPart(db, keys, intended) <==> k in keys
    decreases |keys|
  {
    if keys != [] {
      var n := |keys| - 1;
      ConceptsPartKeys(db, keys[..n], intended);
      assert keys == keys[..n] + [keys[n]];
    }
  }

  /** One concept entry per registry key. */
  lemma SerializedConceptKeys(db: Store, intended: bool)
    requires WellFormed(db)
    ensures Serialized(db, intended).concepts.Keys == db.conceptIndex.Keys
  {
    ConceptsPartKeys(db, db.conceptKeys, intended);
  }

  /** The last element of a duplicate-free list is not in any shorter prefix. */
  lemma LastNotBefore(keys: seq<Id>, i: nat)
    requires NoDup(keys) && i < |keys|
    ensures keys[|keys| - 1] !in keys[..i]
  {
  }

  /** An entry, once emitted, is never replaced, because registry keys are distinct. */
  lemma {:induction false} ConceptsPartPrefix(db: Store, keys: seq<Id>, i: nat, intended: bool)
    requires Indexed(db, keys) && NoDup(keys) && i <= |keys|
    ensures forall k :: k in ConceptsPart(db, keys[..i], intended) ==>
      k in ConceptsPart(db, keys, intended) &&
      ConceptsPart(db, keys, intended)[k] == ConceptsPart(db, keys[..i], intended)[k]
    decreases |keys|
  {
    if i < |keys| {
      var n := |keys| - 1;
      assert keys[..n][..i] == keys[..i];
      assert NoDup(keys[..n]);
      ConceptsPartPrefix(db, keys[..n], i, intended);
      ConceptsPartKeys(db, keys[..i], intended);
      LastNotBefore(keys, i);
    } else {
      assert keys[..i] == keys;
    }
  }

  /** Each concept entry is the link table emitted against the entries of the keys before it. */
  lemma {:induction false} ConceptsPartEntry(db: Store, keys: seq<Id>, i: nat, intended: bool)
    requires Indexed(db, keys) && NoDup(keys) && i < |keys|
    ensures keys[i] in ConceptsPart(db, keys, intended)
    ensures ConceptsPart(db, keys, intended)[keys[i]] ==
      ConceptEntry(EmitLinks(db, ConceptsPart(db, keys[..i], intended), keys[i], db.conceptIndex[keys[i]],
        db.concepts[db.conceptIndex[keys[i]]].linkOrder, intended))
  {
    assert keys[..i + 1][..i] == keys[..i];
    assert keys[..i + 1] == keys[..i] + [keys[i]];
    ConceptsPartPrefix(db, keys, i + 1, intended);
  }

  /** The link list emitted under one relation id `l`: the inner loop's list
      when `l` is one of the keys, nothing otherwise. */
  lemma {:induction false} EmitLinksAt(db: Store, out: map<Id, ConceptEntry>, src: Id, c: ConceptRef, lkeys: seq<Id>, l: Id, intended: bool)
    requires c < |db.concepts| && (forall k :: k in lkeys ==> AllBelow(Stored(db.concepts[c], k), |db.concepts|))
    requires NoDup(lkeys)
    ensures l in EmitLinks(db, out, src, c, lkeys, intended) ==> l in lkeys
    ensures l in lkeys ==>
      Get(EmitLinks(db, out, src, c, lkeys, intended), l) == EmitList(db, out, src, l, Stored(db.concepts[c], l), intended)
    decreases |lkeys|
  {
    if lkeys != [] {
      var n := |lkeys| - 1;
      assert NoDup(lkeys[..n]);
      EmitLinksAt(db, out, src, c, lkeys[..n], l, intended);
      assert lkeys == lkeys[..n] + [lkeys[n]];
      LastNotBefore(lkeys, n);
    }
  }

  /** The link lists emitted for the concept registered under `e`, against
      the entries emitted before it and kept to the end. */
  lemma PartLinks(db: Store, keys: seq<Id>, e: Id, l: Id, intended: bool)
    requires Indexed(db, keys) && NoDup(keys) && e in keys
    requires NoDup(db.concepts[db.conceptIndex[e]].linkOrder)
    requires forall k :: k in db.concepts[db.conceptIndex[e]].links ==> k in db.concepts[db.conceptIndex[e]].linkOrder
    ensures e in ConceptsPart(db, keys, intended)
    ensures var c := db.conceptIndex[e];
      var final := ConceptsPart(db, keys, intended);
      var got := Get(final[e].relations, l);
      (forall x :: x in got ==> exists t :: t in Stored(db.concepts[c], l) && db.concepts[t].id == x) &&
      (forall t :: t in Stored(db.concepts[c], l) ==> db.concepts[t].id in got || Skip(db, final, e, l, t, intended))
    ensures var c := db.conceptIndex[e];
      var before := ConceptsPart(db, keys[..FirstIndex(keys, e)], intended);
      var got := Get(ConceptsPart(db, keys, intended)[e].relations, l);
      forall x :: x in got <==>
        exists t :: t in Stored(db.concepts[c], l) && !Skip(db, before, e, l, t, intended) && db.concepts[t].id == x
  {
    var c := db.conceptIndex[e];
    var i := FirstIndex(keys, e);
    var before := ConceptsPart(db, keys[..i], intended);
    var final := ConceptsPart(db, keys, intended);
    ConceptsPartEntry(db, keys, i, intended);
    ConceptsPartPrefix(db, keys, i, intended);
    var lkeys := db.concepts[c].linkOrder;
    EmitLinksAt(db, before, e, c, lkeys, l, intended);
    var got := Get(final[e].relations, l);
    var targets := Stored(db.concepts[c], l);
    if l in lkeys {
      assert got == EmitList(db, before, e, l, targets, intended);
      forall t | t in targets && db.concepts[t].id !in got
        ensures Skip(db, final, e, l, t, intended)
      {
        assert Skip(db, before, e, l, t, intended);
      }
    } else {
      assert targets == [];
      assert got == [];
    }
  }

  /** The emitted link lists of the concept registered under `e`: an id is
      listed under `l` exactly when it is the id of a stored link of that
      concept under `l` that the skip test lets through against the entries
      emitted before `e`. So every listed id is a stored link, and a stored
      link is left out only when the skip test holds for it, against those
      entries and hence against the finished snapshot. */
  lemma SerializedLinks(db: Store, e: Id, l: Id, intended: bool)
    requires WellFormed(db) && e in db.conceptIndex
    ensures e in Serialized(db, intended).concepts
    ensures var c := db.conceptIndex[e];
      var before := ConceptsPart(db, db.conceptKeys[..FirstIndex(db.conceptKeys, e)], intended);
      var entry := Serialized(db, intended).concepts[e];
      forall x :: x in Get(entry.relations, l) <==>
        exists t :: t in Stored(db.concepts[c], l) && !Skip(db, before, e, l, t, intended) && db.concepts[t].id == x
    ensures var c := db.conceptIndex[e];
      var entry := Serialized(db, intended).concepts[e];
      (forall x :: x in Get(entry.relations, l) ==>
        exists t :: t in Stored(db.concepts[c], l) && db.concepts[t].id == x) &&
      (forall t :: t in Stored(db.concepts[c], l) ==>
        db.concepts[t].id in Get(entry.relations, l) ||
        Skip(db, Serialized(db, intended).concepts, e, l, t, intended))
  {
    var c := db.conceptIndex[e];
    assert LinkTable(db.concepts[c], db.relationIndex);
    assert Indexed(db, db.conceptKeys);
    assert Serialized(db, intended).concepts == ConceptsPart(db, db.conceptKeys, intended);
    PartLinks(db, db.conceptKeys, e, l, intended);
  }

  /** The intended property, which holds for the corrected test: every stored
      link is in the snapshot in one of its two directions, either under `l`
      in the source's entry or, under the inverse relation, as the source's id
      in the target's entry. */
  lemma SerializedIntendedKeepsLinks(db: Store, e: Id, l: Id)
    requires WellFormed(db) && e in db.conceptIndex
    ensures e in Serialized(db, true).concepts
    ensures var c := db.conceptIndex[e];
      var snap := Serialized(db, true).concepts;
      forall t :: t in Stored(db.concepts[c], l) ==>
        db.concepts[t].id in Get(snap[e].relations, l) ||
        (l in db.relationIndex && t < |db.concepts| &&
         db.relations[db.relationIndex[l]].inverseFor.Some? &&
         db.concepts[t].id in snap &&
         e in Get(snap[db.concepts[t].id].relations, db.relations[db.relations[db.relationIndex[l]].inverseFor.value].id))
  {
    SerializedLinks(db, e, l, true);
  }
}
