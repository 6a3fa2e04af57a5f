/** Insertion-ordered containers shared by both backends: the string interner and
    the `IndexMap`, with the list facts their invariants are phrased in. */
module Collections {

  datatype Option<+T> = None | Some(value: T)

  type byte = b: int | 0 <= b < 256

  ghost predicate Distinct<T>(s: seq<T>) {
    forall i, j :: 0 <= i < j < |s| ==> s[i] != s[j]
  }

  /** The position of the first `x` in `s`. */
  function IndexOf<T(==)>(s: seq<T>, x: T): (r: Option<nat>)
    ensures r.Some? <==> x in s
    ensures r.Some? ==> r.value < |s| && s[r.value] == x
    ensures r.Some? ==> x !in s[..r.value]
  {
    if s == [] then None
    else
      var front := IndexOf(s[..|s| - 1], x);
      if front.Some? then front
      else if s[|s| - 1] == x then Some(|s| - 1)
      else None
  }

  lemma IndexOfFirst<T>(s: seq<T>, q: nat)
    requires q < |s|
    ensures IndexOf(s, s[q]).Some? && IndexOf(s, s[q]).value <= q
  {
    hide IndexOf;
    var r := IndexOf(s, s[q]).value;
    assert forall k :: 0 <= k < r ==> s[k] == s[..r][k];
  }

  lemma IndexOfDistinct<T>(s: seq<T>, i: nat)
    requires i < |s| && Distinct(s)
    ensures IndexOf(s, s[i]) == Some(i)
  {
  }

  /** Concatenation of the pieces, in order. */
  function Flatten<T>(pieces: seq<seq<T>>): seq<T> {
    if pieces == [] then []
    else Flatten(pieces[..|pieces| - 1]) + pieces[|pieces| - 1]
  }

  lemma FlattenLast<T>(pieces: seq<seq<T>>, last: seq<T>)
    ensures Flatten(pieces + [last]) == Flatten(pieces) + last
  {
  }

  /** `s` with every repetition of an earlier element dropped: the key order an
      `IndexMap` ends up with after inserting the elements of `s` one by one. */
  function Dedup<T(==, !new)>(s: seq<T>): (r: seq<T>)
    ensures Distinct(r)
    ensures forall x :: x in r <==> x in s
    ensures |r| <= |s|
  {
    if s == [] then []
    else
      var front := Dedup(s[..|s| - 1]);
      assert s == s[..|s| - 1] + [s[|s| - 1]];
      if s[|s| - 1] in front then front else front + [s[|s| - 1]]
  }

  /** Nothing was dropped exactly when nothing was repeated. */
  lemma {:induction false} DedupIdentity<T(!new)>(s: seq<T>)
    ensures |Dedup(s)| == |s| <==> Distinct(s)
    ensures Distinct(s) ==> Dedup(s) == s
  {
    hide Distinct;
    if s != [] {
      var front := s[..|s| - 1];
      DedupIdentity(front);
      DistinctSnoc(front, s[|s| - 1]);
      assert s == front + [s[|s| - 1]];
    } else {
      assert Distinct(s) by { DistinctEmpty(s); }
    }
  }

  lemma DistinctEmpty<T>(s: seq<T>)
    requires s == []
    ensures Distinct(s)
  {
  }

  lemma DistinctSnoc<T>(s: seq<T>, x: T)
    ensures Distinct(s + [x]) <==> Distinct(s) && x !in s
  {
    assert forall i :: 0 <= i < |s| ==> (s + [x])[i] == s[i];
    assert (s + [x])[|s|] == x;
  }

  lemma DedupSnoc<T(!new)>(s: seq<T>, x: T)
    ensures Dedup(s + [x]) == if x in Dedup(s) then Dedup(s) else Dedup(s) + [x]
  {
  }

  lemma DistinctPrefix<T>(s: seq<T>, t: seq<T>)
    requires Distinct(s + t)
    ensures Distinct(s) && Distinct(t)
    ensures forall x :: x in s ==> x !in t
  {
    assert forall i :: 0 <= i < |s| ==> (s + t)[i] == s[i];
    assert forall i :: 0 <= i < |t| ==> (s + t)[|s| + i] == t[i];
  }

  /** A map that remembers insertion order; inserting under a known key replaces
      the value and keeps its position. */
  datatype IndexMap<K(==), V> = IndexMap(keys: seq<K>, values: seq<V>) {
    ghost predicate Valid() {
      |keys| == |values| && Distinct(keys)
    }

    function Insert(k: K, v: V): (m: IndexMap<K, V>)
      requires |keys| == |values|
      ensures Valid() ==> m.Valid()
      ensures k in m.keys
      ensures m.keys == if k in keys then keys else keys + [k]
      ensures k !in keys ==> m.values == values + [v]
    {
      match IndexOf(keys, k)
      case Some(i) => IndexMap(keys, values[i := v])
      case None => IndexMap(keys + [k], values + [v])
    }
  }

  /** The interner hands out 0, 1, 2, ... in insertion order and never forgets. */
  function Intern(strings: seq<string>, s: string): (r: (seq<string>, nat))
    ensures r.0 == if s in strings then strings else strings + [s]
    ensures r.1 < |r.0| && r.0[r.1] == s
    ensures Distinct(strings) ==> Distinct(r.0)
    ensures s !in strings ==> r.1 == |strings|
  {
    match IndexOf(strings, s)
    case Some(i) => (strings, i)
    case None => (strings + [s], |strings|)
  }
}
