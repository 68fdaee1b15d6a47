/** Generic facts about sequences used by the builder and the matcher. */
module Seqs {
  /** The concatenation of `f(x)` over the elements `x` of `s`, in order. */
  function Flatten<T, U>(s: seq<T>, f: T -> seq<U>): seq<U> {
    if s == [] then [] else Flatten(s[..|s| - 1], f) + f(s[|s| - 1])
  }

  /** Flattening distributes over concatenation: the parts keep their order. */
  lemma {:induction false} FlattenConcat<T, U>(a: seq<T>, b: seq<T>, f: T -> seq<U>)
    ensures Flatten(a + b, f) == Flatten(a, f) + Flatten(b, f)
    decreases |b|
  {
    if b == [] {
      assert a + b == a;
    } else {
      var n := |b| - 1;
      assert (a + b)[..|a| + n] == a + b[..n];
      FlattenConcat(a, b[..n], f);
    }
  }

  /** No element occurs twice. */
  predicate NoDuplicates<T(==)>(s: seq<T>) {
    forall a, b :: 0 <= a < b < |s| ==> s[a] != s[b]
  }

  /** The position of the first occurrence of `x` in `s`, or `|s|` when `x` does not occur. */
  function FirstIndex<T(==)>(s: seq<T>, x: T): (i: nat)
    ensures i <= |s|
    ensures i < |s| <==> x in s
    ensures i < |s| ==> s[i] == x
    ensures forall k :: 0 <= k < i ==> s[k] != x
  {
    if s == [] then 0
    else if s[0] == x then 0
    else 1 + FirstIndex(s[1..], x)
  }

  /** The first occurrence of an element of a prefix is the same in the whole sequence. */
  lemma FirstIndexInPrefix<T>(s: seq<T>, n: nat, x: T)
    requires n <= |s| && x in s[..n]
    ensures FirstIndex(s, x) == FirstIndex(s[..n], x)
  {
    var i := FirstIndex(s[..n], x);
    var j := FirstIndex(s, x);
    assert forall k :: 0 <= k < n ==> s[..n][k] == s[k];
    assert s[i] == x;
    assert !(j < i);
  }

  /** The elements of `s` with every repetition after the first occurrence removed. */
  function Distinct<T(==)>(s: seq<T>): (d: seq<T>)
    ensures forall i :: 0 <= i < |d| ==> d[i] in s
    ensures forall i :: 0 <= i < |s| ==> s[i] in d
    ensures NoDuplicates(d)
  {
    if s == [] then []
    else
      var rest := Distinct(s[..|s| - 1]);
      var x := s[|s| - 1];
      if x in rest then rest else rest + [x]
  }

  /** Extending a sequence by one element extends its distinct elements by it if it is new. */
  lemma DistinctSnoc<T>(s: seq<T>, x: T)
    ensures Distinct(s + [x]) == if x in Distinct(s) then Distinct(s) else Distinct(s) + [x]
  {
    assert (s + [x])[..|s|] == s;
  }

  /**
   * `Distinct` keeps first-seen order: of two of its elements, the earlier one
   * occurs first in `s`.
   */
  lemma {:induction false} DistinctFirstSeen<T>(s: seq<T>)
    ensures forall a, b :: 0 <= a < b < |Distinct(s)| ==>
              FirstIndex(s, Distinct(s)[a]) < FirstIndex(s, Distinct(s)[b])
  {
    if s != [] {
      var n := |s| - 1;
      var p := s[..n];
      var x := s[n];
      DistinctFirstSeen(p);
      var rest := Distinct(p);
      var d := Distinct(s);
      forall a, b | 0 <= a < b < |d| ensures FirstIndex(s, d[a]) < FirstIndex(s, d[b]) {
        assert d[a] == rest[a] && d[a] in p;
        FirstIndexInPrefix(s, n, d[a]);
        if b < |rest| {
          assert d[b] == rest[b] && d[b] in p;
          FirstIndexInPrefix(s, n, d[b]);
        } else {
          assert d[b] == x && x !in p;
        }
      }
    }
  }
}
