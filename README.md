# Expert.js semantic network, modelled in Dafny

Expert.js (`lib/expert.js`) is a small in-memory knowledge base. A `Domain()`
holds a semantic network, where concepts are the vertices and relations are
the typed arcs. Its state is a closure-local store `_db` made of:

- a concept registry and a relation registry;
- two independent auto-id counters;
- the link table of every concept, which maps a relation id to the ordered
  list of linked concepts.

Relations can be transitive, can have an inverse and can imply a more
abstract relation. Two built-in relations, `isa` and `example`, are inverses
of each other and give class/instance inheritance. Establishing a fact
links two concepts, links them back under the inverse, and repeats this
down the `implies` chain.

A relation is also a function. Called on some concepts, it returns the
concepts that every one of them links to, counting transitive closure and
links inherited through `isa`. Called with a target as well, it says whether
the target is among them. Finally, `serialize` exports the whole network as
a plain snapshot.

The model has these modules:

- `Values`: ids (`Num` / `Str`), JavaScript truthiness of an id,
  `Array.prototype.indexOf` as a method with a loop, and sequence facts.
- `Model`: the entities (`Concept`, `Relation`, the `_db` store as
  `Store`) and the invariant `WellFormed` that every operation keeps.
  Concepts and relations are JavaScript objects compared by identity, and a
  registry entry can be overwritten while the old object is still linked.
  So the model keeps every object in an append-only arena. A reference is the
  object's creation index, and a registry maps an id to the reference
  registered under it last.
- `Links`: `_link`, the duplicate-free append into a link table, as the
  function `WithLink`.
- `Traversal`: `_immediateLinks` and `_allLinks` as recursive functions
  with a depth bound. Each is proved against an independent meaning:
  reachability along stored links, and inheritance along `isa` walks.
- `Query`: Underscore's `_.intersection` and the relation used as a
  predicate; the index of the random pick of `any`.
- `Facts`: `Fact` as a function on the concept arena, with what it adds
  and what it leaves alone.
- `Snapshots`: `serialize` as left folds over registration order, with the
  dedup test of the code as written and, for comparison, the intended one.
- `ExpertDomain`: the `Domain` class, whose fields are the `_db` store.
  Each of its methods is proved to keep `Valid()` and to produce the state
  given by the functions above: `Concept.create`, `Concept.fetch`, `$`,
  `Relation.create`, `Relation.fetch`, `implies`, `_link`, `Fact`,
  `concept.fact`, the relation call, `any` and `serialize` (its three nested
  loops).
- `Findings`: the two defects described below, each shown on a concrete
  domain next to its corrected version.
- `Scenarios`: the behaviours the repository's test files check, stated on
  concrete networks through the model's functions.

In four places the code does not do what it evidently intends. The model
follows the code each time:

- Overwriting: the comments at lib/expert.js:198-201 and lib/expert.js:205-207
  speak of a unique id per concept. Nothing enforces this. Creating a
  concept or relation under an id already in use replaces the registry
  entry (lib/expert.js:50, lib/expert.js:164), and the old object stays
  linked wherever it was linked.
- Inverse wiring: the wiring at lib/expert.js:159-162 sets both inverse references, so
  that `R` and `S` are each other's inverse. But when `S` already had an
  inverse `T`, `T` keeps pointing at `S` and the pair is no longer symmetric.
- `$`: lib/expert.js:213-214 looks the concept up under `conceptId` and,
  when it is missing, creates it from `conceptId`. Evidently the new
  concept is meant to be found under that id next time. It is created
  under the next counter value instead (first finding).
- Dedup in `serialize`: lib/expert.js:247-249 skips A's link to B under R
  when B's entry, already emitted, has a list under the inverse of R. The
  point of the skip is that the other side already records the link. But
  the test does not check that the list contains A (second finding).

Because of the overwriting, a snapshot has one entry per registry key, not
one per object created.

## Model

| member | source | states |
|---|---|---|
| Values.IndexOf | lib/expert.js:99 | `indexOf`: -1 exactly when the element is absent, otherwise the position of its first occurrence |
| Values.AppendFresh | lib/expert.js:99 | appending an element that is not in a duplicate-free list keeps it duplicate-free |
| Links.WithLink | lib/expert.js:92-101 | after `_link`, the target is in the list under the relation id; the old list is a prefix of the new one, which is at most one longer; the list is unchanged exactly when the target was already there; every other list is unchanged; a new key is appended to the key order |
| Links.LinkIdempotent | lib/expert.js:92-101 | linking the same target twice equals linking it once |
| Links.LinkKeepsNoDup | lib/expert.js:98-99 | a duplicate-free link list stays duplicate-free, so the target occurs in it exactly once |
| Links.LinkKeepsTable | lib/expert.js:92-101 | linking under a registered relation id keeps the link table well formed (keys each once, lists duplicate-free) |
| Links.LinkKeepsClosed | lib/expert.js:92-101 | linking two concepts of the arena keeps every stored link inside the arena |
| Traversal.ImmediateMeaning | lib/expert.js:59-76 | `_immediateLinks` starts with the stored list; for a non-transitive relation it is exactly the stored list; for a transitive one it holds exactly the concepts reachable by one or more links under the relation |
| Traversal.ClosureSound | lib/expert.js:67-74 | every concept the transitive expansion returns is reachable from the start along stored links |
| Traversal.ClosureComplete | lib/expert.js:67-74 | the last concept of every walk along stored links is in the transitive expansion of the first |
| Traversal.ClosureMono | lib/expert.js:67-74 | once the transitive expansion completes within a depth bound, a larger bound gives the same list |
| Traversal.AllLinksMono | lib/expert.js:79-89 | once `_allLinks` completes within a depth bound, a larger bound gives the same list |
| Traversal.AllLinksShape | lib/expert.js:79-89 | `_allLinks` starts with `_immediateLinks`; for `example` it is exactly `_immediateLinks`; otherwise its members are exactly the immediate links and the `_allLinks` members of every direct `isa` parent |
| Traversal.Inherits | lib/expert.js:79-89 | along any `isa` walk, a concept's `_allLinks` contain every `_allLinks` member of the walk's last ancestor |
| Traversal.AllLinksEachMember | lib/expert.js:85-87 | the concatenation over parents holds exactly the members of each parent's `_allLinks` |
| Query.Intersect | lib/expert.js:118-121 | `_.intersection(first, ...others)` holds exactly the elements of `first` that every other list contains, each once, in the order of their first occurrence in `first` |
| Query.IntersectAll | lib/expert.js:118-121 | the intersection of a list of lists holds exactly the common elements, duplicate-free, in the first list's order; no list gives nothing |
| Query.LinksOfEach | lib/expert.js:120-121 | mapping `_allLinks` over the sources gives, position by position, each source's `_allLinks` |
| Query.RelatedMeaning | lib/expert.js:114-126 | without a target the relation returns exactly the concepts in the `_allLinks` of every source, duplicate-free, in the first source's order, and nothing for no source |
| Query.RandomIndex | lib/expert.js:106 | `Math.floor(u * n)` for a draw `u` in [0, 1) is a valid index into a non-empty list |
| Facts.Chain | lib/expert.js:179-181 | the relations a fact is established under start with the given relation and follow the `implies` references |
| Facts.StepFrame | lib/expert.js:171-175 | the first two steps of a fact add the forward link and the link back under the inverse, keep ids, only grow lists, and add nothing else |
| Facts.FactEstablishes | lib/expert.js:170-182 | after `Fact(s, R, o)` the object is linked from the subject under every relation of the `implies` chain, and the subject from the object under the inverse of each one that has one |
| Facts.FactGains | lib/expert.js:170-182 | the only new links a fact adds are the object under the chain's relations at the subject and the subject under their inverses at the object |
| Facts.FactGrows | lib/expert.js:170-182 | a fact keeps every concept's id, keeps every list as a prefix of its new value, and leaves every concept other than the subject and the object unchanged |
| Snapshots.EmitList | lib/expert.js:246-253 | the ids pushed for one link list are exactly the ids of the targets the dedup test does not skip |
| Snapshots.RelationsPartMeaning | lib/expert.js:235-241 | the relation loop gives one entry per key, each the entry of the relation registered under it |
| Snapshots.SerializedRelations | lib/expert.js:235-241 | one relation entry per registry key, with `isTransitive` copied and the `inverseFor` and `implies` ids present exactly when those references are set, naming the relations they point to |
| Snapshots.SerializedConceptKeys | lib/expert.js:242-257 | one concept entry per registry key |
| Snapshots.SerializedLinks | lib/expert.js:245-256 | an id is emitted under relation `l` exactly when it is the id of a stored link of that concept under `l` that the dedup test does not skip against the entries emitted before the concept; so a stored link is left out only when that test skips it |
| Snapshots.SerializedIntendedKeepsLinks | lib/expert.js:247-253 | with the corrected dedup test, every stored link is in the snapshot in one of its two directions |
| ExpertDomain.AddRelation | lib/expert.js:159-162 | the new relation is appended with the given id and flag, the given inverse reference and no implied relation |
| ExpertDomain.AddRelationFrame | lib/expert.js:159-162 | the relation the new one is the inverse for now points back at the new one; all other existing relations are unchanged, and all keep their ids and flags |
| ExpertDomain.AddRelationWired | lib/expert.js:159-162 | after the inverse wiring every inverse and implied reference still points to a relation of the arena |
| ExpertDomain.WithConceptKeeps | lib/expert.js:46-51 | registering a new concept keeps the store well formed |
| ExpertDomain.WithRelationKeeps | lib/expert.js:137-164 | registering a new relation, with its inverse wiring, keeps the store well formed |
| ExpertDomain.RegisterKeeps | lib/expert.js:50 | registering an id (fresh or already used) keeps a registry's key list duplicate-free and in step with the index |
| ExpertDomain.ImpliesKeeps | lib/expert.js:154-157 | setting or clearing an implied relation keeps the store well formed |
| ExpertDomain.LinkKeeps | lib/expert.js:92-101 | linking two concepts under a relation of the arena keeps the store well formed |
| ExpertDomain.Domain.constructor | lib/expert.js:186-188 | a new domain has empty concept registries, both counters at 0, and `isa` and `example`, both transitive and each the inverse of the other, registered under their ids |
| ExpertDomain.Domain.CreateConcept | lib/expert.js:46-51 | a concept with no links is appended; its id is the given truthy id, or else the concept counter, which then goes up by one; it is registered under that id, replacing any earlier entry; relations are unchanged; the new store is `WithConcept` of the old one |
| ExpertDomain.Domain.FetchConcept | lib/expert.js:208-210 | a concept exactly when one is registered under the id, and then the one registered under it last, which carries that id |
| ExpertDomain.Domain.GetOrCreate | lib/expert.js:212-216 | `$` as written: a registered concept is returned and the store is unchanged; otherwise the new store is `WithConcept` of the old one with a concept under the concept counter, not under the requested id, and the counter goes up by one; the relations are unchanged either way |
| ExpertDomain.Domain.GetOrCreateById | lib/expert.js:212-216 | `$` as intended: a registered concept is returned and the store is unchanged; otherwise the new store is `WithConcept` of the old one under the requested id when it is truthy, and under the counter, which then goes up by one, when it is not; afterwards a truthy requested id is registered and names the returned concept |
| ExpertDomain.Domain.CreateRelation | lib/expert.js:112-167 | a relation is appended under the given truthy id or the relation counter; the relation it is the inverse for is pointed back at it; it is registered under its id; the concepts are unchanged; the store stays well formed |
| ExpertDomain.Domain.FetchRelation | lib/expert.js:221-223 | a relation exactly when one is registered under the id, and then the one registered under it last, which carries that id |
| ExpertDomain.Domain.Implies | lib/expert.js:154-157 | only the relation's implied reference changes, to the given relation or, for `implies(undefined)`, to none, and the relation itself is returned |
| ExpertDomain.Domain.Link | lib/expert.js:92-101 | only the one concept's link table changes, as `WithLink` describes, and the registries stay |
| ExpertDomain.Domain.Fact | lib/expert.js:170-182 | the concepts become `ApplyFact` of the old concepts, the registries are unchanged and the store stays well formed |
| ExpertDomain.Domain.ConceptFact | lib/expert.js:53-56 | the same fact, returning the subject |
| ExpertDomain.Domain.Call | lib/expert.js:114-135 | without a target, the duplicate-free concepts in every source's `_allLinks`, in the first source's order; with a target, true exactly when at least one source is given and the target is in every source's `_allLinks` |
| ExpertDomain.Domain.Any | lib/expert.js:103-107 | an unregistered relation id is an error; an empty `_allLinks` gives no value; otherwise the pick is the member at `floor(u * n)` |
| ExpertDomain.Domain.EmitTargets | lib/expert.js:246-254 | the inner loop pushes exactly the fold `EmitList` onto the list under the relation id |
| ExpertDomain.Domain.EmitConcept | lib/expert.js:245-255 | the loop over a concept's link table gives the fold `EmitLinks` |
| ExpertDomain.Domain.EmitRelations | lib/expert.js:235-241 | the relation loop gives the fold `RelationsPart` |
| ExpertDomain.Domain.EmitConcepts | lib/expert.js:242-257 | the concept loop gives the fold `ConceptsPart` |
| ExpertDomain.Domain.Serialize | lib/expert.js:230-259 | `serialize()` returns `Serialized` of the store with the dedup test as written |
| Findings.LosingReached | lib/expert.js:137-182 | creating b, a and c, then `r`, then `Fact(a, r, b)`, then `rp` as the inverse for `r`, then `Fact(b, rp, c)`, from a new domain, leaves exactly the store on which the link is lost |
| Findings.SerializeLosesLink | lib/expert.js:247-249 | on that domain, which is well formed, a stored link appears in neither direction of the snapshot |
| Findings.IntendedKeepsLink | lib/expert.js:247-249 | on the same domain, the corrected test keeps that link |
| Findings.DollarForgetsId | lib/expert.js:212-216 | `$("x")` twice on a new domain creates two concepts, the first under the id 0 |
| Findings.DollarKeepsId | lib/expert.js:212-216 | the corrected `$("x")` twice gives one concept, registered under "x" |
| Scenarios.TransitivityScenario | test/expert.relation.js:28-48 | after ant < dog and dog < elephant, elephant is among the ant's `smallerThan` links exactly when the relation was created transitive |
| Scenarios.InverseScenario | test/expert.relation.js:50-63 | after dog `isa` mammal, elephant `isa` mammal and dog `smallerThan` elephant, the elephant's `biggerThan` links are exactly [dog] |
| Scenarios.ImpliesScenario | test/expert.relation.js:65-73 | after wing `attachedTo` plane, where `attachedTo` implies `partOf`, the wing's `partOf` links are [plane] |
| Scenarios.ExampleScenario | test/expert.concept.js:30-41 | after dog `isa` mammal and cat `isa` mammal, the mammal's `example` links are [dog, cat]; the member at `floor(u * n)` of them, which `any` returns, is dog or cat for every draw, and each of them for some draw |

## Left out

- Prototype method sugar: the per-relation method on `Concept.prototype` and
  its name validator `_isValidFunctionName` (lib/expert.js:140-147,
  lib/expert.js:263-277) are left out. They are only a shorter way to call
  `Fact(this, relation, target)`, which `Domain.ConceptFact` models.
- Non-termination: `_immediateLinks`, `_allLinks` and `Fact` recurse without
  a cycle guard and do not terminate on cyclic graphs. The traversals take a
  depth bound and return nothing when it is exceeded. `ClosureMono` and
  `AllLinksMono` show that the bound never changes a result that exists.
  `Fact` takes a ghost bound on the length of the `implies` chain, which a
  cyclic chain cannot meet, so the model has no run for it.
- Random choice: `Math.random()` in `any` is an input `u` in [0, 1). Its
  distribution is not modelled.
- Key coercion: JavaScript turns object keys into strings, so the ids `5`
  and `"5"` name the same entry. Here `Num(5)` and `Str("5")` are distinct.
- Enumeration order: `serialize` enumerates object keys, and JavaScript lists
  integer-like keys first. The model enumerates registries and link tables
  in registration order (first use, for link keys).
- `isTransitive` is modelled as an optional boolean. A truthy non-boolean
  value, which the source would also accept, is not modelled.
- `Domain.Call`: it takes its sources as a sequence. The flattening
  `[].concat(linkedConcepts)` of a single concept or an array is not
  modelled, and a target that is not a concept is not accepted.
- `Domain.Any`: the TypeError that an unregistered relation id raises
  inside `_allLinks` is modelled as the result `NoSuchRelation`.
- `Domain.CreateRelation`: `inverseFor` must be a relation of the domain,
  because the model refers to relations by reference. A descriptor that is
  not an object is not modelled.
- `Domain.Implies`: its argument is a relation of the domain or, for
  `implies(undefined)`, none, which clears the implied relation as
  lib/expert.js:155 does. Any other value the source would store is not
  modelled.
- Domain methods in the scenarios: the test scenarios start from a new
  domain and are stated through the model's functions (`WithConcept`,
  `WithRelation`, `ApplyFact`, `AllLinks`) rather than by running the
  `Domain` methods. The methods are proved equal to those functions.
- Underscore internals: `_.each`, `_.map` and `_.intersection` are modelled
  by their effect only.

## Findings

| source | as written | input that shows it | evidently intended | confidence | as-written member | corrected member |
|---|---|---|---|---|---|---|
| lib/expert.js:212-216 | `$(conceptId)` creates a missing concept with `new Concept(conceptId)`. The descriptor is then the id itself, which has no `id` property, so the concept gets the next counter value as its id. | `$("x")` twice on a new domain: the first call creates concept 0 under id 0 and the second creates another concept | a missing concept is created under the requested id, so the next `$` with that id finds it | not executed; high | Findings.DollarForgetsId (over ExpertDomain.Domain.GetOrCreate) | Findings.DollarKeepsId (over ExpertDomain.Domain.GetOrCreateById) |
| lib/expert.js:247-249 | The link A→B under R is skipped when R has an inverse R' and B's already emitted entry has any list under R'. The test does not check that the list contains A. | B is emitted first, holding only C under R'; then A's link to B under R is skipped, so the link appears in neither entry | skip only when B's list under R' contains A, so every stored link is in the snapshot in at least one direction | not executed; high | Findings.SerializeLosesLink (over Snapshots.SerializedLinks with the test as written) | Findings.IntendedKeepsLink, Snapshots.SerializedIntendedKeepsLinks |
