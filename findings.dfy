/** A domain on which `serialize` (lib/expert.js:230-259) loses a link in
    both directions. `LosingReached` proves that these operations, from a
    new domain, leave it behind:

      B, A, C := Concept.create({id: "b"}), ... {id: "a"}, ... {id: "c"}
      r  := Relation.create({id: "r"})
      Fact(A, r, B)                  // r has no inverse yet: only A -r-> B
      rp := Relation.create({id: "rp", inverseFor: r})
      Fact(B, rp, C)                 // B -rp-> C and C -r-> B

    B is emitted first, with `rp: [c]`. When A's link to B under `r` comes up,
    `r`'s inverse is `rp` and B's entry has a list under `rp`, so the link is
    skipped, although that list does not name A. */
module Findings {
  import opened Values
  import opened Model
  import opened Snapshots
  import opened ExpertDomain
  import opened Facts
  import opened Scenarios

  const B: Id := Str("b")
  const A: Id := Str("a")
  const C: Id := Str("c")
  const R: Id := Str("r")
  const RP: Id := Str("rp")

  function LosingStore(): Store {
    Store(
      [Concept(B, map[RP := [2]], [RP]), Concept(A, map[R := [0]], [R]), Concept(C, map[R := [0]], [R])],
      map[B := 0, A := 1, C := 2], [B, A, C], 0,
      [Relation(IsaKey, Some(true), Some(1), None), Relation(ExampleKey, Some(true), Some(0), None),
       Relation(R, None, Some(3), None), Relation(RP, None, Some(2), None)],
      map[IsaKey := 0, ExampleKey := 1, R := 2, RP := 3], [IsaKey, ExampleKey, R, RP], 0)
  }

  lemma LosingRegistries()
    ensures var db := LosingStore();
      Registry(db.conceptIndex, db.conceptKeys, |db.concepts|) &&
      Registry(db.relationIndex, db.relationKeys, |db.relations|)
  {
    var db := LosingStore();
    assert NoDup(db.conceptKeys);
    assert NoDup(db.relationKeys);
  }

  lemma LosingClosed()
    ensures Closed(LosingStore().concepts)
  {
    var db := LosingStore();
    forall i, key | 0 <= i < |db.concepts|
      ensures AllBelow(Stored(db.concepts[i], key), |db.concepts|)
    {
      if i == 0 {
        assert Stored(db.concepts[i], key) == if key == RP then [2] else [];
      } else {
        assert Stored(db.concepts[i], key) == if key == R then [0] else [];
      }
    }
  }

  lemma LosingTables()
    ensures var db := LosingStore();
      forall i :: 0 <= i < |db.concepts| ==> LinkTable(db.concepts[i], db.relationIndex)
  {
  }

  lemma LosingConceptIds()
    ensures var db := LosingStore();
      forall k :: k in db.conceptIndex ==> db.concepts[db.conceptIndex[k]].id == k
  {
  }

  lemma LosingRelationIds()
    ensures var db := LosingStore();
      (forall k :: k in db.relationIndex ==> db.relations[db.relationIndex[k]].id == k) &&
      (forall i :: 0 <= i < |db.relations| ==> db.relations[i].id in db.relationIndex)
  {
  }

  lemma LosingWired()
    ensures Wired(LosingStore().relations) && Builtins(LosingStore().relations)
  {
  }

  /** The three concepts and `r`, each created under its own id, so that
      neither counter moves. */
  function Registered(): Store {
    WithRelation(WithConcept(WithConcept(WithConcept(Bootstrap(), B, 0), A, 0), C, 0), R, None, None, 0)
  }

  /** The concepts after `Fact(A, r, B)`: only A -r-> B, since `r` has no inverse yet. */
  function AfterFirstFact(): seq<Concept> {
    [Plain(B), Concept(A, map[R := [0]], [R]), Plain(C)]
  }

  lemma RegisteredShape()
    ensures Registered().concepts == [Plain(B), Plain(A), Plain(C)]
    ensures Registered().relations == Bootstrap().relations + [Relation(R, None, None, None)]
  {
  }

  lemma FirstFact()
    ensures var db := Registered();
      Wired(db.relations) && ChainEnds(db.relations, 2, 1) &&
      ApplyFact(db.concepts, db.relations, 1, 2, 0, 1) == AfterFirstFact()
  {
    RegisteredShape();
    var db := Registered();
    assert db.relations[2] == Relation(R, None, None, None);
    LinkPlain(A, R, 0);
    assert ApplyFact(db.concepts, db.relations, 1, 2, 0, 1) == FactStep(db.concepts, db.relations, 1, 2, 0);
  }

  /** Creating `rp` as the inverse for `r` gives the relations of `LosingStore()`. */
  lemma SecondRelation()
    ensures var db := WithRelation(Registered().(concepts := AfterFirstFact()), RP, None, Some(2), 0);
      db.relations == LosingStore().relations &&
      db.(concepts := LosingStore().concepts) == LosingStore()
  {
    RegisteredShape();
    var rels := Registered().relations;
    AddRelationFrame(rels, RP, None, Some(2));
    var out := AddRelation(rels, RP, None, Some(2));
    assert out[2] == Relation(R, None, Some(3), None);
    assert out == LosingStore().relations;
  }

  /** `Fact(B, rp, C)`: B -rp-> C, and C -r-> B through the inverse. */
  lemma SecondFact()
    ensures var rels := LosingStore().relations;
      Wired(rels) && ChainEnds(rels, 3, 1) &&
      ApplyFact(AfterFirstFact(), rels, 0, 3, 2, 1) == LosingStore().concepts
  {
    var rels := LosingStore().relations;
    LosingWired();
    assert rels[3] == Relation(RP, None, Some(2), None) && rels[2].id == R;
    LinkPlain(B, RP, 2);
    LinkPlain(C, R, 0);
    assert ApplyFact(AfterFirstFact(), rels, 0, 3, 2, 1) == FactStep(AfterFirstFact(), rels, 0, 3, 2);
  }

  /** The operations of the module comment, from a new domain, leave exactly
      `LosingStore()`. */
  lemma LosingReached()
    ensures var db2 := Registered();
      |db2.concepts| == 3 && Wired(db2.relations) && ChainEnds(db2.relations, 2, 1) &&
      var db3 := db2.(concepts := ApplyFact(db2.concepts, db2.relations, 1, 2, 0, 1));
      var db4 := WithRelation(db3, RP, None, Some(2), 0);
      |db4.concepts| == 3 && Wired(db4.relations) && ChainEnds(db4.relations, 3, 1) &&
      db4.(concepts := ApplyFact(db4.concepts, db4.relations, 0, 3, 2, 1)) == LosingStore()
  {
    RegisteredShape();
    FirstFact();
    SecondRelation();
    SecondFact();
  }

  lemma LosingStoreWellFormed()
    ensures WellFormed(LosingStore())
  {
    LosingRegistries();
    LosingClosed();
    LosingTables();
    LosingConceptIds();
    LosingRelationIds();
    LosingWired();
  }

  lemma LosingIndexed()
    ensures Indexed(LosingStore(), [B, A, C])
  {
    LosingClosed();
  }

  /** B comes first: nothing is emitted yet, so its link to C stays. */
  lemma LosingFirst(intended: bool)
    requires Indexed(LosingStore(), [B, A, C])
    ensures ConceptsPart(LosingStore(), [B], intended) == map[B := ConceptEntry(map[RP := [C]])]
  {
    var db := LosingStore();
    assert [B][..0] == [] && [RP][..0] == [];
    assert Stored(db.concepts[0], RP) == [2];
    assert EmitList(db, map[], B, RP, [2], intended) == [C];
    assert EmitLinks(db, map[], B, 0, [RP], intended) == map[RP := [C]];
  }

  /** A comes second: its link to B under `r` is skipped as written and kept with the membership test. */
  lemma LosingSecond(intended: bool)
    requires Indexed(LosingStore(), [B, A, C])
    ensures ConceptsPart(LosingStore(), [B, A], intended) ==
      map[B := ConceptEntry(map[RP := [C]]), A := ConceptEntry(if intended then map[R := [B]] else map[])]
  {
    var db := LosingStore();
    LosingFirst(intended);
    var out1 := ConceptsPart(db, [B], intended);
    assert [B, A][..1] == [B];
    assert Skip(db, out1, A, R, 0, intended) == !intended;
    assert EmitList(db, out1, A, R, [0], intended) == if intended then [B] else [];
    assert [R][..0] == [];
    assert Stored(db.concepts[1], R) == [0];
    assert EmitLinks(db, out1, A, 1, [R], intended) == if intended then map[R := [B]] else map[];
  }

  /** C comes last: its link back to B is skipped either way, since B's list under `rp` names C. */
  lemma LosingThird(intended: bool)
    requires Indexed(LosingStore(), [B, A, C])
    ensures ConceptsPart(LosingStore(), [B, A, C], intended) ==
      map[B := ConceptEntry(map[RP := [C]]), A := ConceptEntry(if intended then map[R := [B]] else map[]),
          C := ConceptEntry(map[])]
  {
    var db := LosingStore();
    LosingSecond(intended);
    var out2 := ConceptsPart(db, [B, A], intended);
    assert [B, A, C][..2] == [B, A];
    assert Skip(db, out2, C, R, 0, intended);
    assert EmitList(db, out2, C, R, [0], intended) == [];
    assert [R][..0] == [];
    assert Stored(db.concepts[2], R) == [0];
    assert EmitLinks(db, out2, C, 2, [R], intended) == map[];
  }

  /** As written: A's stored link to B under `r` appears neither in A's entry
      nor, as A under `rp`, in B's entry. */
  lemma SerializeLosesLink()
    ensures WellFormed(LosingStore())
    ensures var db := LosingStore();
      var snap := Serialized(db, false).concepts;
      0 in Stored(db.concepts[db.conceptIndex[A]], R) && db.concepts[0].id == B &&
      A in snap && B in snap &&
      B !in Get(snap[A].relations, R) &&
      A !in Get(snap[B].relations, RP)
  {
    LosingStoreWellFormed();
    LosingIndexed();
    LosingThird(false);
  }

  /** With the membership test the same link stays, in A's entry. */
  lemma IntendedKeepsLink()
    ensures WellFormed(LosingStore())
    ensures var snap := Serialized(LosingStore(), true).concepts;
      A in snap && Get(snap[A].relations, R) == [B]
  {
    LosingStoreWellFormed();
    LosingIndexed();
    LosingThird(true);
  }

  /** As written, `$("x")` on a fresh domain twice: the first call creates
      a concept under the counter value 0 instead of "x", so the second call
      does not find it and creates another one. */
  method DollarForgetsId() returns (first: ConceptRef, second: ConceptRef, firstId: Id)
    ensures first == 0 && second == 1 && first != second
    ensures firstId == Num(0)
  {
    var d := new Domain();
    first := d.GetOrCreate(Str("x"));
    firstId := d.concepts[first].id;
    second := d.GetOrCreate(Str("x"));
  }

  /** The intended `$("x")` twice: one concept, registered under "x". */
  method DollarKeepsId() returns (first: ConceptRef, second: ConceptRef, firstId: Id)
    ensures first == 0 && second == first
    ensures firstId == Str("x")
  {
    var d := new Domain();
    first := d.GetOrCreateById(Str("x"));
    firstId := d.concepts[first].id;
    second := d.GetOrCreateById(Str("x"));
  }
}
