/** Values shared by the whole model: optional values, the ids that concepts
    and relations carry, and the few sequence facts the rest relies on. */
module Values {

  datatype Option<+T> = None | Some(value: T)

  /** An id as a program hands it to the knowledge base: a number or a string.
      The ids a domain assigns by itself are the numbers 0, 1, 2, ... */
  datatype Id = Num(n: int) | Str(s: string)

  /** JavaScript truthiness of an id: `0` and `""` are falsy, so an explicit
      id of that kind falls back to the counter (`descriptor.id || counter++`). */
  predicate Truthy(id: Id) {
    match id
    case Num(n) => n != 0
    case Str(s) => s != ""
  }

  /** No element occurs twice. */
  predicate NoDup<T(==)>(s: seq<T>) {
    forall i, j :: 0 <= i < j < |s| ==> s[i] != s[j]
  }

  /** Every element is a valid index into a collection of `n` elements. */
  predicate AllBelow(s: seq<nat>, n: nat) {
    forall i :: 0 <= i < |s| ==> s[i] < n
  }

  /** The list a map holds under `k`, or the empty list when there is none. */
  function Get<K, V>(m: map<K, seq<V>>, k: K): seq<V> {
    if k in m then m[k] else []
  }

  /** Position of the first occurrence of `x` in `s`. */
  function FirstIndex<T(==)>(s: seq<T>, x: T): (i: nat)
    requires x in s
    ensures i < |s| && s[i] == x && x !in s[..i]
  {
    if s[0] == x then 0 else 1 + FirstIndex(s[1..], x)
  }

  /** `Array.prototype.indexOf`: the first position of `x` in `s`, or -1. */
  method IndexOf<T(==)>(s: seq<T>, x: T) returns (i: int)
    ensures -1 <= i < |s|
    ensures i < 0 <==> x !in s
    ensures 0 <= i ==> s[i] == x && x !in s[..i]
  {
    i := 0;
    while i < |s|
      invariant 0 <= i <= |s|
      invariant x !in s[..i]
    {
      if s[i] == x {
        return;
      }
      i := i + 1;
    }
    i := -1;
  }

  /** Appending an element that is not yet present keeps a list duplicate-free. */
  lemma {:induction false} AppendFresh<T>(s: seq<T>, x: T)
    requires NoDup(s) && x !in s
    ensures NoDup(s + [x])
  {
    forall i, j | 0 <= i < j < |s + [x]|
      ensures (s + [x])[i] != (s + [x])[j]
    {
      if j == |s| {
        assert (s + [x])[i] == s[i];
        assert s[i] in s;
      } else {
        assert (s + [x])[i] == s[i] && (s + [x])[j] == s[j];
      }
    }
  }
}
