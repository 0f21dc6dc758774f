/**
 A JavaScript `Set` of node ids: no duplicates, and iteration in insertion
 order. It is modelled as a sequence without repetitions; `Add` appends a new
 element, `Delete` takes one out without reordering the rest.
 */
module InsertionOrderedSet {

  predicate Distinct(s: seq<string>) {
    forall i, j :: 0 <= i < j < |s| ==> s[i] != s[j]
  }

  /** Position of the first occurrence of `x` in `s`. */
  function IndexOf(s: seq<string>, x: string): (i: nat)
    requires x in s
    ensures i < |s| && s[i] == x && x !in s[..i]
  {
    if s[0] == x then 0
    else
      var j := IndexOf(s[1..], x);
      assert s[..j + 1] == [s[0]] + s[1..][..j];
      j + 1
  }

  /** An occurrence with no earlier one is the first occurrence. */
  lemma IndexOfAt(s: seq<string>, x: string, k: nat)
    requires k < |s| && s[k] == x && x !in s[..k]
    ensures IndexOf(s, x) == k
  {
  }

  /** An element occurring before position `k` first occurs before `k`. */
  lemma IndexOfBefore(s: seq<string>, x: string, k: nat)
    requires k <= |s| && x in s[..k]
    ensures IndexOf(s, x) < k
  {
  }

  lemma IndexOfDistinct(s: seq<string>, k: nat)
    requires Distinct(s) && k < |s|
    ensures IndexOf(s, s[k]) == k
  {
    assert s[k] !in s[..k];
    IndexOfAt(s, s[k], k);
  }

  /** `Set.prototype.add`: a new element goes last, a present one changes nothing. */
  function Add(s: seq<string>, x: string): (r: seq<string>)
    ensures forall v :: v in r <==> v in s || v == x
    ensures |s| <= |r| <= |s| + 1 && r[..|s|] == s
    ensures Distinct(s) ==> Distinct(r)
  {
    if x in s then s else s + [x]
  }

  /**
   Adding the element at position `i` of `order` to a set holding the
   elements of `order` before `i` keeps it without repeats and in order.
   */
  lemma AddKeepsOrder(order: seq<string>, s: seq<string>, i: nat)
    requires i < |order| && Distinct(s) && InOrder(order, s)
    requires forall v :: v in s <==> v in order[..i]
    ensures Distinct(Add(s, order[i])) && InOrder(order, Add(s, order[i]))
    ensures forall v :: v in Add(s, order[i]) <==> v in order[..i + 1]
  {
    var x := order[i];
    assert order[..i + 1] == order[..i] + [x];
    if x !in s {
      IndexOfAt(order, x, i);
      var r := s + [x];
      forall j, k | 0 <= j < k < |r|
        ensures Before(order, r[j], r[k])
      {
        if k < |s| {
          assert r[j] == s[j] && r[k] == s[k];
        } else {
          assert r[j] == s[j] && s[j] in order[..i];
          IndexOfBefore(order, s[j], i);
        }
      }
    }
  }

  /** `Set.prototype.delete`. */
  function Delete(s: seq<string>, x: string): (r: seq<string>)
    requires Distinct(s)
    ensures Distinct(r)
    ensures forall y :: y in r <==> y in s && y != x
    ensures |r| == if x in s then |s| - 1 else |s|
  {
    if x in s then
      var k := IndexOf(s, x);
      var r := s[..k] + s[k + 1..];
      assert forall i :: 0 <= i < |r| ==> r[i] == if i < k then s[i] else s[i + 1];
      assert forall y :: y in s && y != x ==> y in r by {
        forall y | y in s && y != x ensures y in r {
          var j :| 0 <= j < |s| && s[j] == y;
          assert r[if j < k then j else j - 1] == y;
        }
      }
      r
    else s
  }

  /** `a` occurs in `order` before `b` does. */
  predicate Before(order: seq<string>, a: string, b: string) {
    a in order && b in order && IndexOf(order, a) < IndexOf(order, b)
  }

  /** `s` lists its elements in the order of their first occurrence in `order`. */
  predicate InOrder(order: seq<string>, s: seq<string>) {
    forall i, j :: 0 <= i < j < |s| ==> Before(order, s[i], s[j])
  }

  /** Leaving out one position keeps the others in their order. */
  lemma SkipKeepsOrder(order: seq<string>, s: seq<string>, k: nat)
    requires k < |s| && InOrder(order, s)
    ensures InOrder(order, s[..k] + s[k + 1..])
  {
    var r := s[..k] + s[k + 1..];
    forall i, j | 0 <= i < j < |r|
      ensures Before(order, r[i], r[j])
    {
      var i', j' := if i < k then i else i + 1, if j < k then j else j + 1;
      assert r[i] == s[i'] && r[j] == s[j'];
    }
  }

  /** Deleting an element keeps the others in their order. */
  lemma DeleteKeepsOrder(order: seq<string>, s: seq<string>, x: string)
    requires Distinct(s) && InOrder(order, s)
    ensures InOrder(order, Delete(s, x))
  {
    if x in s {
      SkipKeepsOrder(order, s, IndexOf(s, x));
    }
  }
}
