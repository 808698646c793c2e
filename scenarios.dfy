/** The behaviours the repository's tests describe (test/expert.relation.js,
    test/expert.concept.js, test/expert.fact.js), played on the store a new
    domain starts from through the functions the domain's methods are
    proved against: `WithConcept` and `WithRelation` for the creations,
    `ApplyFact` for the facts and `AllLinks` for what a relation call looks at. */
module Scenarios {
  import opened Values
  import opened Model
  import opened Links
  import opened Traversal
  import opened Facts
  import opened Query
  import opened ExpertDomain

  const Ant: Id := Str("ant")
  const Dog: Id := Str("dog")
  const Elephant: Id := Str("elephant")
  const SmallerThan: Id := Str("smallerThan")
  const BiggerThan: Id := Str("biggerThan")
  const Mammal: Id := Str("mammal")
  const Cat: Id := Str("cat")
  const AttachedTo: Id := Str("attachedTo")

  /** A concept as `new Concept` leaves it: no links. */
  function Plain(id: Id): Concept {
    Concept(id, map[], [])
  }

  /** The loop over a single member gives that member's result. */
  lemma ClosureEachOne(cs: seq<Concept>, m: ConceptRef, key: Id, fuel: nat)
    requires Closed(cs) && m < |cs| && Closure(cs, m, key, fuel).Some?
    ensures ClosureEach(cs, [m], key, fuel) == Closure(cs, m, key, fuel)
  {
    assert [m][1..] == [];
    var first := Closure(cs, m, key, fuel).value;
    assert ClosureEach(cs, [m][1..], key, fuel) == Some([]);
    assert first + [] == first;
  }

  /** A concept without a stored link under `key` closes to nothing. */
  lemma ClosureOfNone(cs: seq<Concept>, m: ConceptRef, key: Id, fuel: nat)
    requires Closed(cs) && m < |cs| && key !in cs[m].links && fuel > 0
    ensures Closure(cs, m, key, fuel) == Some([])
  {
    var direct: seq<ConceptRef> := [];
    assert Stored(cs[m], key) == direct;
    assert ClosureEach(cs, direct, key, fuel - 1) == Some([]);
    assert direct + [] == [];
  }

  /** The first link of a concept opens its list and its key order. */
  lemma LinkPlain(id: Id, key: Id, target: ConceptRef)
    ensures WithLink(Plain(id), key, target) == Concept(id, map[key := [target]], [key])
  {
    assert [] + [key] == [key];
  }

  /** A first link under a new key of a concept that has links already. */
  lemma LinkNewKey(c: Concept, key: Id, target: ConceptRef)
    requires key !in c.links
    ensures WithLink(c, key, target) == Concept(c.id, c.links[key := [target]], c.linkOrder + [key])
  {
  }

  /** A further link under a key already in use. */
  lemma LinkMore(c: Concept, key: Id, target: ConceptRef)
    requires key in c.links && target !in c.links[key]
    ensures WithLink(c, key, target) == Concept(c.id, c.links[key := c.links[key] + [target]], c.linkOrder)
  {
  }

  /** The store after ant, dog and elephant are created, in that order, and
      then the relation smallerThan with the flag given. */
  function Animals(isTransitive: Option<bool>): Store {
    var db := WithConcept(WithConcept(WithConcept(Bootstrap(), Ant, 0), Dog, 0), Elephant, 0);
    WithRelation(db, SmallerThan, isTransitive, None, 0)
  }

  lemma AnimalsShape(isTransitive: Option<bool>)
    ensures Animals(isTransitive).concepts == [Plain(Ant), Plain(Dog), Plain(Elephant)]
    ensures Animals(isTransitive).relations == Bootstrap().relations + [Relation(SmallerThan, isTransitive, None, None)]
  {
  }

  /** ant smallerThan dog, dog smallerThan elephant. */
  function AntDogElephant(): seq<Concept> {
    [Concept(Ant, map[SmallerThan := [1]], [SmallerThan]),
     Concept(Dog, map[SmallerThan := [2]], [SmallerThan]),
     Plain(Elephant)]
  }

  lemma AntDogElephantClosed()
    ensures Closed(AntDogElephant())
  {
    var cs := AntDogElephant();
    forall i, key | 0 <= i < |cs|
      ensures AllBelow(Stored(cs[i], key), |cs|)
    {
      if i == 0 {
        assert Stored(cs[0], key) == if key == SmallerThan then [1] else [];
      } else if i == 1 {
        assert Stored(cs[1], key) == if key == SmallerThan then [2] else [];
      } else {
        assert Stored(cs[2], key) == [];
      }
    }
  }

  /** The two facts lead to `AntDogElephant()`. */
  lemma AntDogElephantFacts(isTransitive: Option<bool>)
    ensures var db := Animals(isTransitive);
      |db.concepts| == 3 && Wired(db.relations) && ChainEnds(db.relations, 2, 1) &&
      ApplyFact(ApplyFact(db.concepts, db.relations, 0, 2, 1, 1), db.relations, 1, 2, 2, 1) == AntDogElephant()
  {
    AnimalsShape(isTransitive);
    AntDogElephantSteps(Animals(isTransitive).relations, isTransitive);
  }

  lemma AntDogElephantSteps(rels: seq<Relation>, isTransitive: Option<bool>)
    requires rels == Bootstrap().relations + [Relation(SmallerThan, isTransitive, None, None)]
    ensures Wired(rels) && ChainEnds(rels, 2, 1)
    ensures ApplyFact(ApplyFact([Plain(Ant), Plain(Dog), Plain(Elephant)], rels, 0, 2, 1, 1), rels, 1, 2, 2, 1) == AntDogElephant()
  {
    AntDogElephantFirst(rels, isTransitive);
    AntDogElephantSecond(rels, isTransitive);
  }

  lemma AntDogElephantFirst(rels: seq<Relation>, isTransitive: Option<bool>)
    requires rels == Bootstrap().relations + [Relation(SmallerThan, isTransitive, None, None)]
    ensures Wired(rels) && ChainEnds(rels, 2, 1)
    ensures ApplyFact([Plain(Ant), Plain(Dog), Plain(Elephant)], rels, 0, 2, 1, 1) ==
      [Concept(Ant, map[SmallerThan := [1]], [SmallerThan]), Plain(Dog), Plain(Elephant)]
  {
    var cs0 := [Plain(Ant), Plain(Dog), Plain(Elephant)];
    assert rels[2] == Relation(SmallerThan, isTransitive, None, None);
    LinkPlain(Ant, SmallerThan, 1);
    assert ApplyFact(cs0, rels, 0, 2, 1, 1) == FactStep(cs0, rels, 0, 2, 1);
  }

  lemma AntDogElephantSecond(rels: seq<Relation>, isTransitive: Option<bool>)
    requires rels == Bootstrap().relations + [Relation(SmallerThan, isTransitive, None, None)]
    ensures Wired(rels) && ChainEnds(rels, 2, 1)
    ensures ApplyFact([Concept(Ant, map[SmallerThan := [1]], [SmallerThan]), Plain(Dog), Plain(Elephant)], rels, 1, 2, 2, 1) ==
      AntDogElephant()
  {
    var cs1 := [Concept(Ant, map[SmallerThan := [1]], [SmallerThan]), Plain(Dog), Plain(Elephant)];
    assert rels[2] == Relation(SmallerThan, isTransitive, None, None);
    LinkPlain(Dog, SmallerThan, 2);
    assert ApplyFact(cs1, rels, 1, 2, 2, 1) == FactStep(cs1, rels, 1, 2, 2);
  }

  /** "is not transitive by default" and "can be defined as transitive": of
      the concepts ant is smaller than, elephant is one exactly when
      smallerThan was created with `isTransitive: true`; dog always is. */
  lemma TransitivityScenario(isTransitive: Option<bool>)
    ensures Closed(AntDogElephant())
    ensures var rel := Animals(isTransitive).relations[2];
      AllLinks(AntDogElephant(), 0, rel, false, 4) == Some(if isTransitive == Some(true) then [1, 2] else [1])
    ensures var rel := Animals(isTransitive).relations[2];
      1 in AllLinks(AntDogElephant(), 0, rel, false, 4).value &&
      (2 in AllLinks(AntDogElephant(), 0, rel, false, 4).value <==> isTransitive == Some(true))
  {
    AnimalsShape(isTransitive);
    AntDogElephantClosed();
    var cs := AntDogElephant();
    var rel := Relation(SmallerThan, isTransitive, None, None);
    assert Stored(cs[0], SmallerThan) == [1];
    assert IsaKey !in cs[0].links;
    if isTransitive == Some(true) {
      ClosureOfNone(cs, 2, SmallerThan, 2);
      ClosureEachOne(cs, 2, SmallerThan, 2);
      assert Stored(cs[1], SmallerThan) == [2];
      assert [2] + [] == [2];
      assert Closure(cs, 1, SmallerThan, 3) == Some([2]);
      ClosureEachOne(cs, 1, SmallerThan, 3);
      assert Closure(cs, 0, SmallerThan, 4) == Some([1] + [2]);
      assert [1] + [2] == [1, 2];
      assert Immediate(cs, 0, rel, 4) == Some([1, 2]);
    } else {
      assert Immediate(cs, 0, rel, 4) == Some([1]);
    }
  }

  // "can have an inverse relation"

  /** The store after mammal, dog and elephant are created, then the
      transitive smallerThan, then the transitive biggerThan as its inverse. */
  function Sizes(): Store {
    var db := WithConcept(WithConcept(WithConcept(Bootstrap(), Mammal, 0), Dog, 0), Elephant, 0);
    WithRelation(WithRelation(db, SmallerThan, Some(true), None, 0), BiggerThan, Some(true), Some(2), 0)
  }

  /** Creating biggerThan as the inverse for smallerThan points smallerThan back at it. */
  lemma SizesShape()
    ensures Sizes().concepts == [Plain(Mammal), Plain(Dog), Plain(Elephant)]
    ensures Sizes().relations == SizesRelations()
  {
    var db := WithConcept(WithConcept(WithConcept(Bootstrap(), Mammal, 0), Dog, 0), Elephant, 0);
    var rels := WithRelation(db, SmallerThan, Some(true), None, 0).relations;
    assert rels == Bootstrap().relations + [Relation(SmallerThan, Some(true), None, None)];
    AddRelationFrame(rels, BiggerThan, Some(true), Some(2));
  }

  /** dog isa mammal, elephant isa mammal, dog smallerThan elephant. */
  function Sized(): seq<Concept> {
    [Concept(Mammal, map[ExampleKey := [1, 2]], [ExampleKey]),
     Concept(Dog, map[IsaKey := [0], SmallerThan := [2]], [IsaKey, SmallerThan]),
     Concept(Elephant, map[IsaKey := [0], BiggerThan := [1]], [IsaKey, BiggerThan])]
  }

  /** The relations of `Sizes()`. */
  function SizesRelations(): seq<Relation> {
    Bootstrap().relations +
      [Relation(SmallerThan, Some(true), Some(3), None), Relation(BiggerThan, Some(true), Some(2), None)]
  }

  lemma SizesWired()
    ensures Wired(SizesRelations()) && ChainEnds(SizesRelations(), 0, 1) && ChainEnds(SizesRelations(), 2, 1)
  {
  }

  /** dog isa mammal: mammal gets dog as an example. */
  lemma SizedFirst()
    ensures Wired(SizesRelations()) && ChainEnds(SizesRelations(), 0, 1)
    ensures ApplyFact([Plain(Mammal), Plain(Dog), Plain(Elephant)], SizesRelations(), 1, 0, 0, 1) ==
      [Concept(Mammal, map[ExampleKey := [1]], [ExampleKey]), Concept(Dog, map[IsaKey := [0]], [IsaKey]), Plain(Elephant)]
  {
    SizesWired();
    var rels := SizesRelations();
    var cs0 := [Plain(Mammal), Plain(Dog), Plain(Elephant)];
    assert rels[0] == Relation(IsaKey, Some(true), Some(1), None) && rels[1].id == ExampleKey;
    LinkPlain(Dog, IsaKey, 0);
    LinkPlain(Mammal, ExampleKey, 1);
    assert ApplyFact(cs0, rels, 1, 0, 0, 1) == FactStep(cs0, rels, 1, 0, 0);
  }

  /** elephant isa mammal: mammal gets elephant as its second example. */
  lemma SizedSecond()
    ensures Wired(SizesRelations()) && ChainEnds(SizesRelations(), 0, 1)
    ensures ApplyFact([Concept(Mammal, map[ExampleKey := [1]], [ExampleKey]), Concept(Dog, map[IsaKey := [0]], [IsaKey]), Plain(Elephant)],
        SizesRelations(), 2, 0, 0, 1) ==
      [Concept(Mammal, map[ExampleKey := [1, 2]], [ExampleKey]), Concept(Dog, map[IsaKey := [0]], [IsaKey]),
       Concept(Elephant, map[IsaKey := [0]], [IsaKey])]
  {
    SizesWired();
    var rels := SizesRelations();
    var cs1 := [Concept(Mammal, map[ExampleKey := [1]], [ExampleKey]), Concept(Dog, map[IsaKey := [0]], [IsaKey]), Plain(Elephant)];
    assert rels[0] == Relation(IsaKey, Some(true), Some(1), None) && rels[1].id == ExampleKey;
    LinkPlain(Elephant, IsaKey, 0);
    assert 2 !in cs1[0].links[ExampleKey];
    LinkMore(cs1[0], ExampleKey, 2);
    assert [1] + [2] == [1, 2];
    assert cs1[0].links[ExampleKey := [1, 2]] == map[ExampleKey := [1, 2]];
    assert ApplyFact(cs1, rels, 2, 0, 0, 1) == FactStep(cs1, rels, 2, 0, 0);
  }

  /** dog smallerThan elephant: elephant gets dog under biggerThan. */
  lemma SizedThird()
    ensures Wired(SizesRelations()) && ChainEnds(SizesRelations(), 2, 1)
    ensures ApplyFact([Concept(Mammal, map[ExampleKey := [1, 2]], [ExampleKey]), Concept(Dog, map[IsaKey := [0]], [IsaKey]),
        Concept(Elephant, map[IsaKey := [0]], [IsaKey])], SizesRelations(), 1, 2, 2, 1) == Sized()
  {
    SizesWired();
    var rels := SizesRelations();
    var cs2 := [Concept(Mammal, map[ExampleKey := [1, 2]], [ExampleKey]), Concept(Dog, map[IsaKey := [0]], [IsaKey]),
      Concept(Elephant, map[IsaKey := [0]], [IsaKey])];
    assert rels[2] == Relation(SmallerThan, Some(true), Some(3), None) && rels[3].id == BiggerThan;
    LinkNewKey(cs2[1], SmallerThan, 2);
    LinkNewKey(cs2[2], BiggerThan, 1);
    assert [IsaKey] + [SmallerThan] == [IsaKey, SmallerThan];
    assert [IsaKey] + [BiggerThan] == [IsaKey, BiggerThan];
    assert ApplyFact(cs2, rels, 1, 2, 2, 1) == FactStep(cs2, rels, 1, 2, 2);
  }

  /** The three facts on `Sizes()` lead to `Sized()`. */
  lemma SizedFacts()
    ensures var db := Sizes();
      |db.concepts| == 3 && Wired(db.relations) && ChainEnds(db.relations, 0, 1) && ChainEnds(db.relations, 2, 1) &&
      ApplyFact(ApplyFact(ApplyFact(db.concepts, db.relations, 1, 0, 0, 1), db.relations, 2, 0, 0, 1),
        db.relations, 1, 2, 2, 1) == Sized()
  {
    SizesShape();
    SizedFirst();
    SizedSecond();
    SizedThird();
  }

  lemma SizedClosed()
    ensures Closed(Sized())
  {
    var cs := Sized();
    forall i, key | 0 <= i < |cs|
      ensures AllBelow(Stored(cs[i], key), |cs|)
    {
      if i == 0 {
        assert Stored(cs[0], key) == if key == ExampleKey then [1, 2] else [];
      } else if i == 1 {
        assert Stored(cs[1], key) == if key == IsaKey then [0] else if key == SmallerThan then [2] else [];
      } else {
        assert Stored(cs[2], key) == if key == IsaKey then [0] else if key == BiggerThan then [1] else [];
      }
    }
  }

  /** `biggerThan(elephant, dog)` holds although only dog smallerThan
      elephant was stated: elephant's links under biggerThan are dog. */
  lemma InverseScenario()
    ensures Closed(Sized())
    ensures AllLinks(Sized(), 2, Sizes().relations[3], false, 3) == Some([1])
  {
    SizesShape();
    SizedClosed();
    var cs := Sized();
    var rel := Relation(BiggerThan, Some(true), Some(2), None);
    ClosureOfNone(cs, 1, BiggerThan, 2);
    ClosureEachOne(cs, 1, BiggerThan, 2);
    assert Stored(cs[2], BiggerThan) == [1];
    assert Closure(cs, 2, BiggerThan, 3) == Some([1] + []);
    assert [1] + [] == [1];
    assert Immediate(cs, 2, rel, 3) == Some([1]);
    ClosureOfNone(cs, 0, BiggerThan, 2);
    assert Immediate(cs, 0, rel, 2) == Some([]);
    assert IsaKey !in cs[0].links;
    assert AllLinks(cs, 0, rel, false, 2) == Some([]);
    assert Stored(cs[2], IsaKey) == [0];
    assert [0][1..] == [];
    assert AllLinksEach(cs, [0][1..], rel, false, 2) == Some([]);
    assert AllLinksEach(cs, [0], rel, false, 2) == Some([] + []);
  }

  // "can imply another relation"

  /** wing and plane created without ids, partOf without an id, then
      attachedTo, which is then made to imply partOf. */
  function Parts(): Store {
    var db := WithConcept(WithConcept(Bootstrap(), Num(0), 1), Num(1), 2);
    var db' := WithRelation(WithRelation(db, Num(0), None, None, 1), AttachedTo, None, None, 1);
    db'.(relations := db'.relations[3 := db'.relations[3].(implies := Some(2))])
  }

  /** The ids the counters supplied, and the `implies` reference. */
  lemma PartsShape()
    ensures Parts().concepts == [Plain(Num(0)), Plain(Num(1))]
    ensures Parts().relations == Bootstrap().relations +
      [Relation(Num(0), None, None, None), Relation(AttachedTo, None, None, Some(2))]
    ensures Parts().cid == 2 && Parts().rid == 1
  {
    assert AssignedId(None, 0) == Num(0) && NextCounter(None, 0) == 1;
    assert AssignedId(None, 1) == Num(1) && NextCounter(None, 1) == 2;
  }

  /** wing attachedTo plane, and through `implies` wing partOf plane. */
  function Attached(): seq<Concept> {
    [Concept(Num(0), map[AttachedTo := [1], Num(0) := [1]], [AttachedTo, Num(0)]), Plain(Num(1))]
  }

  lemma AttachedFacts()
    ensures var db := Parts();
      |db.concepts| == 2 && Wired(db.relations) && ChainEnds(db.relations, 3, 2) &&
      ApplyFact(db.concepts, db.relations, 0, 3, 1, 2) == Attached()
  {
    PartsShape();
    AttachedSteps(Parts().relations);
  }

  /** The fact under attachedTo, then the one under partOf it implies. */
  lemma AttachedSteps(rels: seq<Relation>)
    requires rels == Bootstrap().relations + [Relation(Num(0), None, None, None), Relation(AttachedTo, None, None, Some(2))]
    ensures Wired(rels) && ChainEnds(rels, 3, 2)
    ensures ApplyFact([Plain(Num(0)), Plain(Num(1))], rels, 0, 3, 1, 2) == Attached()
  {
    var cs1 := [Concept(Num(0), map[AttachedTo := [1]], [AttachedTo]), Plain(Num(1))];
    AttachedFirst(rels);
    AttachedSecond(rels);
    assert ApplyFact([Plain(Num(0)), Plain(Num(1))], rels, 0, 3, 1, 2) == ApplyFact(cs1, rels, 0, 2, 1, 1);
  }

  lemma AttachedFirst(rels: seq<Relation>)
    requires rels == Bootstrap().relations + [Relation(Num(0), None, None, None), Relation(AttachedTo, None, None, Some(2))]
    ensures Wired(rels) && ChainEnds(rels, 3, 2)
    ensures FactStep([Plain(Num(0)), Plain(Num(1))], rels, 0, 3, 1) ==
      [Concept(Num(0), map[AttachedTo := [1]], [AttachedTo]), Plain(Num(1))]
  {
    assert rels[3] == Relation(AttachedTo, None, None, Some(2)) && rels[2] == Relation(Num(0), None, None, None);
    assert ChainEnds(rels, 2, 1);
    LinkPlain(Num(0), AttachedTo, 1);
  }

  lemma AttachedSecond(rels: seq<Relation>)
    requires rels == Bootstrap().relations + [Relation(Num(0), None, None, None), Relation(AttachedTo, None, None, Some(2))]
    ensures Wired(rels) && ChainEnds(rels, 2, 1)
    ensures ApplyFact([Concept(Num(0), map[AttachedTo := [1]], [AttachedTo]), Plain(Num(1))], rels, 0, 2, 1, 1) == Attached()
  {
    var cs1 := [Concept(Num(0), map[AttachedTo := [1]], [AttachedTo]), Plain(Num(1))];
    assert rels[2] == Relation(Num(0), None, None, None);
    LinkNewKey(cs1[0], Num(0), 1);
    assert [AttachedTo] + [Num(0)] == [AttachedTo, Num(0)];
    assert ApplyFact(cs1, rels, 0, 2, 1, 1) == FactStep(cs1, rels, 0, 2, 1);
  }

  /** `partOf(wing, plane)` holds: wing's links under partOf are plane. */
  lemma ImpliesScenario()
    ensures Closed(Attached())
    ensures AllLinks(Attached(), 0, Parts().relations[2], false, 1) == Some([1])
  {
    PartsShape();
    var cs := Attached();
    forall i, key | 0 <= i < |cs|
      ensures AllBelow(Stored(cs[i], key), |cs|)
    {
      if i == 0 {
        assert Stored(cs[0], key) == if key == AttachedTo || key == Num(0) then [1] else [];
      } else {
        assert Stored(cs[1], key) == [];
      }
    }
    assert Stored(cs[0], Num(0)) == [1];
    assert IsaKey !in cs[0].links;
  }

  // "can be defined as a kind of another concept", "can return a random
  // linked concept by relation id", "can be established using a standalone relation"

  /** mammal, dog and cat, with dog isa mammal and cat isa mammal. */
  function Kinds(): seq<Concept> {
    [Concept(Mammal, map[ExampleKey := [1, 2]], [ExampleKey]),
     Concept(Dog, map[IsaKey := [0]], [IsaKey]),
     Concept(Cat, map[IsaKey := [0]], [IsaKey])]
  }

  /** dog isa mammal, then cat isa mammal. */
  lemma KindsFacts()
    ensures var rels := Bootstrap().relations;
      Wired(rels) && ChainEnds(rels, 0, 1) &&
      ApplyFact(ApplyFact([Plain(Mammal), Plain(Dog), Plain(Cat)], rels, 1, 0, 0, 1), rels, 2, 0, 0, 1) == Kinds()
  {
    KindsFirst();
    KindsSecond();
  }

  lemma KindsFirst()
    ensures var rels := Bootstrap().relations;
      Wired(rels) && ChainEnds(rels, 0, 1) &&
      ApplyFact([Plain(Mammal), Plain(Dog), Plain(Cat)], rels, 1, 0, 0, 1) ==
        [Concept(Mammal, map[ExampleKey := [1]], [ExampleKey]), Concept(Dog, map[IsaKey := [0]], [IsaKey]), Plain(Cat)]
  {
    var rels := Bootstrap().relations;
    var cs0 := [Plain(Mammal), Plain(Dog), Plain(Cat)];
    LinkPlain(Dog, IsaKey, 0);
    LinkPlain(Mammal, ExampleKey, 1);
    assert ApplyFact(cs0, rels, 1, 0, 0, 1) == FactStep(cs0, rels, 1, 0, 0);
  }

  lemma KindsSecond()
    ensures var rels := Bootstrap().relations;
      Wired(rels) && ChainEnds(rels, 0, 1) &&
      ApplyFact([Concept(Mammal, map[ExampleKey := [1]], [ExampleKey]), Concept(Dog, map[IsaKey := [0]], [IsaKey]), Plain(Cat)],
        rels, 2, 0, 0, 1) == Kinds()
  {
    var rels := Bootstrap().relations;
    var cs1 := [Concept(Mammal, map[ExampleKey := [1]], [ExampleKey]), Concept(Dog, map[IsaKey := [0]], [IsaKey]), Plain(Cat)];
    LinkPlain(Cat, IsaKey, 0);
    assert 2 !in cs1[0].links[ExampleKey];
    LinkMore(cs1[0], ExampleKey, 2);
    assert [1] + [2] == [1, 2];
    assert cs1[0].links[ExampleKey := [1, 2]] == map[ExampleKey := [1, 2]];
    assert ApplyFact(cs1, rels, 2, 0, 0, 1) == FactStep(cs1, rels, 2, 0, 0);
  }

  /** `example(mammal)` is dog and cat, so the member `any('example')`
      picks from the mammal's `_allLinks` is one of them whatever
      `Math.random()` draws, and each of them is picked for some draw. */
  lemma ExampleScenario()
    ensures Closed(Kinds())
    ensures AllLinks(Kinds(), 0, Bootstrap().relations[ExampleRef], true, 3) == Some([1, 2])
    ensures var links := AllLinks(Kinds(), 0, Bootstrap().relations[ExampleRef], true, 3).value;
      forall u: real :: 0.0 <= u < 1.0 ==> links[RandomIndex(u, |links|)] == 1 || links[RandomIndex(u, |links|)] == 2
    ensures var links := AllLinks(Kinds(), 0, Bootstrap().relations[ExampleRef], true, 3).value;
      links[RandomIndex(0.0, |links|)] == 1 && links[RandomIndex(0.5, |links|)] == 2
  {
    var cs := Kinds();
    forall i, key | 0 <= i < |cs|
      ensures AllBelow(Stored(cs[i], key), |cs|)
    {
      if i == 0 {
        assert Stored(cs[0], key) == if key == ExampleKey then [1, 2] else [];
      } else {
        assert Stored(cs[i], key) == if key == IsaKey then [0] else [];
      }
    }
    var rel := Bootstrap().relations[ExampleRef];
    ClosureOfNone(cs, 1, ExampleKey, 2);
    ClosureOfNone(cs, 2, ExampleKey, 2);
    ClosureEachOne(cs, 2, ExampleKey, 2);
    assert [1, 2][1..] == [2];
    assert ClosureEach(cs, [1, 2], ExampleKey, 2) == Some([] + []);
    assert Stored(cs[0], ExampleKey) == [1, 2];
    assert [1, 2] + [] == [1, 2];
    assert Closure(cs, 0, ExampleKey, 3) == Some([1, 2]);
    assert (0.5 * (2 as real)).Floor == 1;
  }
}
