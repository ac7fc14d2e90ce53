/**
 * The array idioms the selection code is written with: `filter` against
 * one value or a list, `includes`, `every` and `[...new Set(xs)]`.
 */
module JsArray {

  /** No element occurs twice. */
  predicate Distinct<T(==,!new)>(s: seq<T>) {
    forall i, j :: 0 <= i < j < |s| ==> s[i] != s[j]
  }

  /** `s.filter((p) => p !== x)`. */
  function Without<T(==,!new)>(s: seq<T>, x: T): (r: seq<T>)
    ensures |r| <= |s|
    ensures forall y :: y in r <==> y in s && y != x
  {
    if s == [] then []
    else (if s[0] == x then [] else [s[0]]) + Without(s[1..], x)
  }

  /** `s.filter((p) => !xs.includes(p))`. */
  function WithoutAll<T(==,!new)>(s: seq<T>, xs: seq<T>): (r: seq<T>)
    ensures |r| <= |s|
    ensures forall y :: y in r <==> y in s && y !in xs
  {
    if s == [] then []
    else (if s[0] in xs then [] else [s[0]]) + WithoutAll(s[1..], xs)
  }

  /** Removing nothing keeps the sequence as it is. */
  lemma {:induction false} WithoutAllNothing<T(!new)>(s: seq<T>, xs: seq<T>)
    requires forall y :: y in s ==> y !in xs
    ensures WithoutAll(s, xs) == s
  {
    if s != [] {
      assert s[0] in s;
      WithoutAllNothing(s[1..], xs);
    }
  }

  /** `xs.every((p) => s.includes(p))`. */
  function Every<T(==,!new)>(xs: seq<T>, s: seq<T>): (b: bool)
    ensures b <==> forall y :: y in xs ==> y in s
  {
    if xs == [] then true else xs[0] in s && Every(xs[1..], s)
  }

  /** `xs.some((p) => s.includes(p))`. */
  function Any<T(==,!new)>(xs: seq<T>, s: seq<T>): (b: bool)
    ensures b <==> exists y :: y in xs && y in s
  {
    if xs == [] then false else xs[0] in s || Any(xs[1..], s)
  }

  /** `[...new Set(s)]`: the first occurrence of each element, in order. */
  function Dedup<T(==,!new)>(s: seq<T>): (r: seq<T>)
    ensures |r| <= |s|
    ensures forall y :: y in r <==> y in s
    ensures Distinct(r)
  {
    if s == [] then []
    else
      var init := s[..|s| - 1];
      var last := s[|s| - 1];
      assert forall y :: y in s <==> y in init || y == last;
      if last in init then Dedup(init) else Dedup(init) + [last]
  }

  /** Appending never reorders what was there: the old distinct elements come first. */
  lemma {:induction false} DedupPrefix<T(!new)>(a: seq<T>, b: seq<T>)
    ensures |Dedup(a)| <= |Dedup(a + b)|
    ensures Dedup(a + b)[..|Dedup(a)|] == Dedup(a)
    decreases |b|
  {
    if b == [] {
      assert a + b == a;
    } else {
      var b' := b[..|b| - 1];
      DedupPrefix(a, b');
      assert (a + b)[..|a + b| - 1] == a + b';
    }
  }

  /** A sequence without repetitions is its own deduplication. */
  lemma {:induction false} DedupDistinct<T(!new)>(s: seq<T>)
    requires Distinct(s)
    ensures Dedup(s) == s
  {
    if s != [] {
      var init := s[..|s| - 1];
      assert Distinct(init);
      DedupDistinct(init);
      assert s[|s| - 1] !in init;
      assert init + [s[|s| - 1]] == s;
    }
  }
}
