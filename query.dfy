/** The relation used as a predicate (lib/expert.js:114-135): the links that
    every given source concept has under the relation, intersected the way
    Underscore's `_.intersection` does it, and the random pick of `any`
    (lib/expert.js:103-107). */
module Query {
  import opened Values
  import opened Model
  import opened Traversal

  /** `x` is in every list. */
  predicate InAll(x: ConceptRef, lists: seq<seq<ConceptRef>>) {
    forall i :: 0 <= i < |lists| ==> x in lists[i]
  }

  /** On a prefix, the first occurrence of an element of the prefix is where it is in the whole. */
  lemma {:induction false} FirstIndexPrefix(s: seq<ConceptRef>, n: nat, y: ConceptRef)
    requires n <= |s| && y in s[..n]
    ensures FirstIndex(s, y) == FirstIndex(s[..n], y)
  {
    if s[0] != y {
      assert s[..n][1..] == s[1..][..n - 1];
      FirstIndexPrefix(s[1..], n - 1, y);
    }
  }

  /** `_.intersection(first, ...others)`: the elements of `first` that every
      other list contains, each once, in the order they first occur in `first`.
      Elements are compared by identity, which references are. */
  function Intersect(first: seq<ConceptRef>, others: seq<seq<ConceptRef>>): (r: seq<ConceptRef>)
    ensures forall x :: x in r <==> x in first && InAll(x, others)
    ensures NoDup(r)
    ensures forall i, j :: 0 <= i < j < |r| ==> FirstIndex(first, r[i]) < FirstIndex(first, r[j])
    decreases |first|
  {
    if first == [] then []
    else
      var acc := Intersect(first[..|first| - 1], others);
      IntersectStep(first, others, acc);
      var x := first[|first| - 1];
      if x in acc || !InAll(x, others) then acc else acc + [x]
  }

  /** One more element of `first`: it is kept when every other list has it
      and it was not kept before. */
  lemma IntersectStep(first: seq<ConceptRef>, others: seq<seq<ConceptRef>>, acc: seq<ConceptRef>)
    requires |first| > 0
    requires forall y :: y in acc <==> y in first[..|first| - 1] && InAll(y, others)
    requires NoDup(acc)
    requires forall i, j :: 0 <= i < j < |acc| ==>
      (acc[i] in first[..|first| - 1] && acc[j] in first[..|first| - 1] &&
       FirstIndex(first[..|first| - 1], acc[i]) < FirstIndex(first[..|first| - 1], acc[j]))
    ensures var x := first[|first| - 1];
      var r := if x in acc || !InAll(x, others) then acc else acc + [x];
      (forall y :: y in r <==> y in first && InAll(y, others)) && NoDup(r) &&
      (forall i, j :: 0 <= i < j < |r| ==> r[i] in first && r[j] in first && FirstIndex(first, r[i]) < FirstIndex(first, r[j]))
  {
    var n := |first| - 1;
    var x := first[n];
    assert first == first[..n] + [x];
    forall y | y in acc
      ensures y in first && FirstIndex(first, y) == FirstIndex(first[..n], y)
    {
      FirstIndexPrefix(first, n, y);
    }
    if !(x in acc || !InAll(x, others)) {
      assert x !in first[..n];
      assert FirstIndex(first, x) == n;
      AppendFresh(acc, x);
      var r := acc + [x];
      forall i, j | 0 <= i < j < |r|
        ensures r[i] in first && r[j] in first && FirstIndex(first, r[i]) < FirstIndex(first, r[j])
      {
        assert r[i] == acc[i] && r[i] in acc;
        if j < |acc| {
          assert r[j] == acc[j] && r[j] in acc;
        } else {
          assert r[j] == x;
        }
      }
    }
  }

  /** `_.intersection.apply(this, lists)`: the elements common to all lists,
      in the order of the first; no list at all gives the empty list. */
  function IntersectAll(lists: seq<seq<ConceptRef>>): (r: seq<ConceptRef>)
    ensures forall x :: x in r <==> |lists| > 0 && InAll(x, lists)
    ensures NoDup(r)
    ensures |lists| > 0 ==> forall x :: x in r ==> x in lists[0]
    ensures |lists| > 0 ==> forall i, j :: 0 <= i < j < |r| ==> FirstIndex(lists[0], r[i]) < FirstIndex(lists[0], r[j])
  {
    if lists == [] then []
    else
      assert forall x :: InAll(x, lists) <==> x in lists[0] && InAll(x, lists[1..]) by {
        forall x
          ensures InAll(x, lists) <==> x in lists[0] && InAll(x, lists[1..])
        {
          if x in lists[0] && InAll(x, lists[1..]) {
            forall i | 0 <= i < |lists|
              ensures x in lists[i]
            {
              if i > 0 {
                assert lists[i] == lists[1..][i - 1];
              }
            }
          }
          if InAll(x, lists) {
            forall i | 0 <= i < |lists[1..]|
              ensures x in lists[1..][i]
            {
              assert lists[1..][i] == lists[i + 1];
            }
          }
        }
      }
      Intersect(lists[0], lists[1..])
  }

  /** `_.map([].concat(sources), lc => lc._allLinks(rel))`; None when any of
      them exceeds the depth bound. */
  function LinksOfEach(cs: seq<Concept>, rel: Relation, isExample: bool, sources: seq<ConceptRef>, fuel: nat)
    : (r: Option<seq<seq<ConceptRef>>>)
    requires Closed(cs) && AllBelow(sources, |cs|)
    ensures r.Some? <==> forall i :: 0 <= i < |sources| ==> AllLinks(cs, sources[i], rel, isExample, fuel).Some?
    ensures r.Some? ==> |r.value| == |sources|
    ensures r.Some? ==> forall i :: 0 <= i < |sources| ==> r.value[i] == AllLinks(cs, sources[i], rel, isExample, fuel).value
    decreases |sources|
  {
    if sources == [] then Some([])
    else
      match AllLinks(cs, sources[0], rel, isExample, fuel)
      case None => None
      case Some(first) =>
        match LinksOfEach(cs, rel, isExample, sources[1..], fuel)
        case None =>
          assert forall i :: 1 <= i < |sources| ==> sources[1..][i - 1] == sources[i];
          None
        case Some(rest) =>
          assert forall i :: 1 <= i < |sources| ==> sources[1..][i - 1] == sources[i];
          Some([first] + rest)
  }

  /** `rel(sources)`: the concepts that are in the `_allLinks` of every source. */
  function Related(cs: seq<Concept>, rel: Relation, isExample: bool, sources: seq<ConceptRef>, fuel: nat)
    : Option<seq<ConceptRef>>
    requires Closed(cs) && AllBelow(sources, |cs|)
  {
    match LinksOfEach(cs, rel, isExample, sources, fuel)
    case None => None
    case Some(lists) => Some(IntersectAll(lists))
  }

  /** What the relation returns without a target: the duplicate-free list of
      concepts that lie in the `_allLinks` of every source, in the order of
      the first source's list; nothing when there is no source. */
  lemma RelatedMeaning(cs: seq<Concept>, rel: Relation, isExample: bool, sources: seq<ConceptRef>, fuel: nat)
    requires Closed(cs) && AllBelow(sources, |cs|) && Related(cs, rel, isExample, sources, fuel).Some?
    ensures forall i :: 0 <= i < |sources| ==> AllLinks(cs, sources[i], rel, isExample, fuel).Some?
    ensures forall x :: x in Related(cs, rel, isExample, sources, fuel).value <==>
      |sources| > 0 && forall i :: 0 <= i < |sources| ==> x in AllLinks(cs, sources[i], rel, isExample, fuel).value
    ensures NoDup(Related(cs, rel, isExample, sources, fuel).value)
    ensures |sources| > 0 ==> var r := Related(cs, rel, isExample, sources, fuel).value;
      forall i, j :: 0 <= i < j < |r| ==>
        FirstIndex(AllLinks(cs, sources[0], rel, isExample, fuel).value, r[i]) <
        FirstIndex(AllLinks(cs, sources[0], rel, isExample, fuel).value, r[j])
  {
    var lists := LinksOfEach(cs, rel, isExample, sources, fuel).value;
    forall x
      ensures InAll(x, lists) <==> forall i :: 0 <= i < |sources| ==> x in AllLinks(cs, sources[i], rel, isExample, fuel).value
    {
    }
  }

  /** `Math.floor(Math.random() * n)` for a draw `u` of `Math.random()`. */
  function RandomIndex(u: real, n: nat): (i: int)
    requires 0.0 <= u < 1.0
    ensures n > 0 ==> 0 <= i < n
  {
    assert u * (n as real) <= 1.0 * (n as real);
    (u * (n as real)).Floor
  }
}
