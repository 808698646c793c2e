/** `Concept.prototype._link`: the duplicate-free append into a concept's link
    table (lib/expert.js:92-101). */
module Links {
  import opened Values
  import opened Model

  /** The concept after `c._link(relation, target)` for a relation whose id is `key`:
      a missing list is created holding just `target`, an existing one gets
      `target` appended unless it is already there. */
  function WithLink(c: Concept, key: Id, target: ConceptRef): (r: Concept)
    ensures r.id == c.id
    ensures target in Stored(r, key)
    ensures Stored(c, key) <= Stored(r, key) && |Stored(r, key)| <= |Stored(c, key)| + 1
    ensures Stored(r, key) == Stored(c, key) <==> target in Stored(c, key)
    ensures forall k :: k != key ==> Stored(r, k) == Stored(c, k)
    ensures r.links.Keys == c.links.Keys + {key}
    ensures r.linkOrder == if key in c.links then c.linkOrder else c.linkOrder + [key]
  {
    if key !in c.links then
      c.(links := c.links[key := [target]], linkOrder := c.linkOrder + [key])
    else if target in c.links[key] then
      c
    else
      c.(links := c.links[key := c.links[key] + [target]])
  }

  /** The link is idempotent: linking the same target twice is linking it once. */
  lemma LinkIdempotent(c: Concept, key: Id, target: ConceptRef)
    ensures WithLink(WithLink(c, key, target), key, target) == WithLink(c, key, target)
  {
  }

  /** A duplicate-free list stays duplicate-free; since the target is in it
      afterwards, it occurs there exactly once. */
  lemma {:induction false} LinkKeepsNoDup(c: Concept, key: Id, target: ConceptRef)
    requires NoDup(Stored(c, key))
    ensures NoDup(Stored(WithLink(c, key, target), key))
  {
    if target !in Stored(c, key) {
      AppendFresh(Stored(c, key), target);
      assert Stored(WithLink(c, key, target), key) == Stored(c, key) + [target];
    }
  }

  /** Linking under a registered relation id keeps the link table well formed. */
  lemma {:induction false} LinkKeepsTable(c: Concept, key: Id, target: ConceptRef, relationIndex: map<Id, RelationRef>)
    requires LinkTable(c, relationIndex) && key in relationIndex
    ensures LinkTable(WithLink(c, key, target), relationIndex)
  {
    var r := WithLink(c, key, target);
    if key !in c.links {
      AppendFresh(c.linkOrder, key);
    }
    forall k | k in r.links
      ensures k in relationIndex && NoDup(r.links[k])
    {
      if k == key {
        LinkKeepsNoDup(c, key, target);
      } else {
        assert Stored(r, k) == Stored(c, k);
      }
    }
  }

  /** Linking a concept of the arena keeps every stored link inside the arena. */
  lemma LinkKeepsClosed(cs: seq<Concept>, c: ConceptRef, key: Id, target: ConceptRef)
    requires Closed(cs) && c < |cs| && target < |cs|
    ensures Closed(cs[c := WithLink(cs[c], key, target)])
  {
    var cs' := cs[c := WithLink(cs[c], key, target)];
    forall i, k | 0 <= i < |cs'|
      ensures AllBelow(Stored(cs'[i], k), |cs'|)
    {
      if i == c {
        assert AllBelow(Stored(cs[c], k), |cs|);
      } else {
        assert AllBelow(Stored(cs[i], k), |cs|);
      }
    }
  }
}
