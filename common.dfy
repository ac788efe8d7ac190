/** Failure-compatible wrappers shared by the whole model. */
module Common {

  datatype Option<+T> = None | Some(value: T)

  /** The outcome of an operation that can be refused with an error. */
  datatype Result<+R, +E> = Ok(value: R) | Err(error: E)

  /** Keeps the elements of `s` that satisfy `p`, in their original order
      (a Django `QuerySet.filter` applied to an ordered row sequence). */
  function Filter<T(!new)>(s: seq<T>, p: T -> bool): (r: seq<T>)
    ensures |r| <= |s|
    ensures forall x :: x in r <==> x in s && p(x)
    ensures forall i :: 0 <= i < |r| ==> p(r[i])
    ensures forall x :: multiset(r)[x] == if p(x) then multiset(s)[x] else 0
  {
    if s == [] then []
    else
      assert s == [s[0]] + s[1..];
      (if p(s[0]) then [s[0]] else []) + Filter(s[1..], p)
  }

  // ---------------------------------------------------------------------
  // Listing in a model's `Meta.ordering`.

  /** `leq` ("may be listed before") compares any two values and chains. */
  ghost predicate TotalPreorder<T(!new)>(leq: (T, T) -> bool) {
    && (forall a, b :: leq(a, b) || leq(b, a))
    && (forall a, b, c :: leq(a, b) && leq(b, c) ==> leq(a, c))
  }

  predicate Ordered<T>(s: seq<T>, leq: (T, T) -> bool) {
    forall i, j :: 0 <= i < j < |s| ==> leq(s[i], s[j])
  }

  /** In ordered values the first may precede every later one. */
  lemma FirstPrecedesRest<T>(s: seq<T>, leq: (T, T) -> bool)
    requires Ordered(s, leq) && s != []
    ensures forall y :: y in multiset(s[1..]) ==> leq(s[0], y)
  {
    forall y | y in multiset(s[1..]) ensures leq(s[0], y) {
      var k :| 0 <= k < |s[1..]| && s[1..][k] == y;
      assert s[k + 1] == y;
    }
  }

  /** A value that may precede all of some ordered values can go in front. */
  lemma ConsInOrder<T>(h: T, r: seq<T>, leq: (T, T) -> bool)
    requires Ordered(r, leq)
    requires forall y :: y in multiset(r) ==> leq(h, y)
    ensures Ordered([h] + r, leq)
  {
    forall i, j | 0 <= i < j < |[h] + r| ensures leq(([h] + r)[i], ([h] + r)[j]) {
      if i == 0 {
        assert ([h] + r)[j] == r[j - 1];
        assert r[j - 1] in multiset(r);
      } else {
        assert ([h] + r)[i] == r[i - 1] && ([h] + r)[j] == r[j - 1];
      }
    }
  }

  /** Puts `x` in front of the first value it may precede. */
  function Insert<T(!new)>(x: T, s: seq<T>, leq: (T, T) -> bool): (r: seq<T>)
    requires TotalPreorder(leq) && Ordered(s, leq)
    ensures Ordered(r, leq)
    ensures multiset(r) == multiset(s) + multiset{x}
  {
    if s == [] then [x]
    else
      FirstPrecedesRest(s, leq);
      assert s == [s[0]] + s[1..];
      if leq(x, s[0]) then
        ConsInOrder(x, s, leq);
        [x] + s
      else
        var rest := Insert(x, s[1..], leq);
        ConsInOrder(s[0], rest, leq);
        [s[0]] + rest
  }

  /** The values in `leq` order; values that tie keep their relative order. */
  function Sort<T(!new)>(s: seq<T>, leq: (T, T) -> bool): (r: seq<T>)
    requires TotalPreorder(leq)
    ensures Ordered(r, leq)
    ensures multiset(r) == multiset(s)
  {
    if s == [] then []
    else
      assert s == [s[0]] + s[1..];
      Insert(s[0], Sort(s[1..], leq), leq)
  }

  /** Number of elements of `s` that satisfy `p`. */
  function Count<T>(s: seq<T>, p: T -> bool): (n: nat)
    ensures n <= |s|
    ensures n == 0 <==> forall i :: 0 <= i < |s| ==> !p(s[i])
  {
    if s == [] then 0
    else (if p(s[0]) then 1 else 0) + Count(s[1..], p)
  }

  lemma {:induction false} CountAppend<T>(s: seq<T>, x: T, p: T -> bool)
    ensures Count(s + [x], p) == Count(s, p) + (if p(x) then 1 else 0)
  {
    if s != [] {
      assert (s + [x])[1..] == s[1..] + [x];
      CountAppend(s[1..], x, p);
    }
  }

  /** Replacing one element changes the count by the difference of the two
      elements' contributions, and by nothing else. */
  lemma {:induction false} CountUpdate<T>(s: seq<T>, i: nat, x: T, p: T -> bool)
    requires i < |s|
    ensures Count(s[i := x], p) + (if p(s[i]) then 1 else 0)
         == Count(s, p) + (if p(x) then 1 else 0)
  {
    if i > 0 {
      assert s[i := x][1..] == s[1..][i - 1 := x];
      CountUpdate(s[1..], i - 1, x, p);
    } else {
      assert s[i := x][1..] == s[1..];
    }
  }
}
