/**
 * The nested objects that `buildFileTree` and `buildTreeFromDiffs` grow,
 * seen flat: every node is named by the segment path that leads to it from
 * the root, and `order` lists the node paths in the order the nodes were
 * created (the order `Object.values` and `Object.entries` visit them). The
 * `current` pointer those builders move down the tree is a prefix of the
 * path being inserted.
 */
module PathTree {

  type Path = seq<string>

  datatype Flat<N> = Flat(nodes: map<Path, N>, order: seq<Path>)

  function Empty<N>(): Flat<N> { Flat(map[], []) }

  predicate IsPrefix(q: Path, r: Path) { |q| <= |r| && r[..|q|] == q }

  predicate IsChild(q: Path, c: Path) { |c| == |q| + 1 && c[..|q|] == q }

  /**
   * A well-formed tree: `order` lists every node once, the root itself is
   * not a node, and every proper prefix of a node is a node (the folders
   * passed on the way down).
   */
  ghost predicate Valid<N>(t: Flat<N>) {
    && (forall q :: q in t.nodes <==> q in t.order)
    && (forall i, j :: 0 <= i < j < |t.order| ==> t.order[i] != t.order[j])
    && (forall q :: q in t.nodes ==> |q| > 0)
    && (forall q, k :: q in t.nodes && 0 < k < |q| ==> q[..k] in t.nodes)
  }

  lemma EmptyValid<N>()
    ensures Valid(Empty<N>())
  {
  }

  /** `if (!current[part]) current[part] = node`: an existing node is kept. */
  function Add<N>(t: Flat<N>, q: Path, n: N): (r: Flat<N>)
    ensures q in r.nodes
    ensures r.nodes.Keys == t.nodes.Keys + {q}
    ensures forall p :: p in t.nodes ==> r.nodes[p] == t.nodes[p]
    ensures q !in t.nodes ==> r.nodes[q] == n
  {
    if q in t.nodes then t else Flat(t.nodes[q := n], t.order + [q])
  }

  /** Adding a node whose proper prefixes are already nodes keeps the tree well formed. */
  lemma AddValid<N>(t: Flat<N>, q: Path, n: N)
    requires Valid(t)
    requires |q| > 0 && forall k :: 0 < k < |q| ==> q[..k] in t.nodes
    ensures Valid(Add(t, q, n))
  {
    var r := Add(t, q, n);
    if q !in t.nodes {
      forall i, j | 0 <= i < j < |r.order| ensures r.order[i] != r.order[j] {
        if j == |t.order| {
          assert r.order[i] == t.order[i];
        } else {
          assert r.order[i] == t.order[i] && r.order[j] == t.order[j];
        }
      }
      forall p | p in r.order ensures p in r.nodes {
        if p != q {
          assert p in t.order;
        }
      }
    }
  }

  /** Overwrites the value of an existing node. */
  function Set<N>(t: Flat<N>, q: Path, n: N): (r: Flat<N>)
    requires q in t.nodes
    ensures r.nodes.Keys == t.nodes.Keys && r.order == t.order
    ensures r.nodes[q] == n
    ensures forall p :: p in t.nodes && p != q ==> r.nodes[p] == t.nodes[p]
  {
    Flat(t.nodes[q := n], t.order)
  }

  lemma SetValid<N>(t: Flat<N>, q: Path, n: N)
    requires Valid(t) && q in t.nodes
    ensures Valid(Set(t, q, n))
  {
  }

  /** The length of the longest node path. */
  function Height(order: seq<Path>): (h: nat)
    ensures forall c :: c in order ==> |c| <= h
  {
    if order == [] then 0
    else
      var rest := Height(order[..|order| - 1]);
      var last := |order[|order| - 1]|;
      assert forall c :: c in order ==> c in order[..|order| - 1] || c == order[|order| - 1];
      if last <= rest then rest else last
  }

  /** The children of `q`, in creation order. */
  function Children(order: seq<Path>, q: Path): (cs: seq<Path>)
    ensures |cs| <= |order|
    ensures forall c :: c in cs <==> c in order && IsChild(q, c)
  {
    if order == [] then []
    else
      var last := order[|order| - 1];
      assert forall c :: c in order <==> c in order[..|order| - 1] || c == last;
      Children(order[..|order| - 1], q) + (if IsChild(q, last) then [last] else [])
  }

  /**
   * What `own` yields for `q` (when it is a node) followed by what it
   * yields for every child subtree, children in creation order: the shape
   * of a depth-first walk of the nested objects.
   */
  function Gather<N, L>(t: Flat<N>, q: Path, own: N -> seq<L>): seq<L>
    requires |q| <= Height(t.order)
    decreases Height(t.order) - |q|, |t.order| + 1
  {
    (if q in t.nodes then own(t.nodes[q]) else [])
      + GatherAll(t, q, Children(t.order, q), own)
  }

  /** `Gather` of each subtree in `cs`, concatenated. */
  function GatherAll<N, L>(t: Flat<N>, q: Path, cs: seq<Path>, own: N -> seq<L>): seq<L>
    requires |q| <= Height(t.order)
    requires |cs| <= |t.order|
    requires forall c :: c in cs ==> c in t.order && IsChild(q, c)
    decreases Height(t.order) - |q|, |cs|
  {
    if cs == [] then []
    else
      var c := cs[|cs| - 1];
      assert c in cs && c in t.order;
      assert IsChild(q, c);
      assert |c| == |q| + 1;
      assert |c| <= Height(t.order);
      GatherAll(t, q, cs[..|cs| - 1], own) + Gather(t, c, own)
  }

  /** The children of a node of a well-formed tree are nodes one level further down. */
  lemma ChildIsNode<N>(t: Flat<N>, q: Path, k: nat)
    requires Valid(t)
    requires k < |Children(t.order, q)|
    ensures var c := Children(t.order, q)[k];
      c in t.nodes && IsChild(q, c) && |c| <= Height(t.order)
  {
    assert Children(t.order, q)[k] in Children(t.order, q);
  }

  /** Walking the children one more step appends the walk of that child. */
  lemma GatherAllStep<N, L>(t: Flat<N>, q: Path, own: N -> seq<L>, k: nat)
    requires |q| <= Height(t.order)
    requires k < |Children(t.order, q)|
    ensures var cs := Children(t.order, q);
      && |cs[k]| <= Height(t.order)
      && GatherAll(t, q, cs[..k + 1], own) == GatherAll(t, q, cs[..k], own) + Gather(t, cs[k], own)
  {
    var cs := Children(t.order, q);
    assert cs[k] in cs;
    var d := cs[..k + 1];
    assert d[..|d| - 1] == cs[..k] && d[|d| - 1] == cs[k];
    assert forall c :: c in d ==> c in cs;
    assert GatherAll(t, q, d, own) == GatherAll(t, q, d[..|d| - 1], own) + Gather(t, d[|d| - 1], own);
  }

  lemma {:induction false} GatherAllMembers<N, L>(t: Flat<N>, q: Path, cs: seq<Path>, own: N -> seq<L>, x: L)
    requires |q| <= Height(t.order)
    requires |cs| <= |t.order|
    requires forall c :: c in cs ==> c in t.order && IsChild(q, c)
    ensures x in GatherAll(t, q, cs, own) <==> exists c :: c in cs && x in Gather(t, c, own)
    decreases |cs|
  {
    if cs != [] {
      var init := cs[..|cs| - 1];
      var last := cs[|cs| - 1];
      assert last in cs;
      assert GatherAll(t, q, cs, own) == GatherAll(t, q, init, own) + Gather(t, last, own);
      GatherAllMembers(t, q, init, own, x);
      if x in GatherAll(t, q, cs, own) {
        if x in GatherAll(t, q, init, own) {
          var c :| c in init && x in Gather(t, c, own);
          assert c in cs;
        }
      } else {
        forall c | c in cs ensures x !in Gather(t, c, own) {
          if c != last {
            assert c in init;
          }
        }
      }
    }
  }

  /** A prefix of a child's prefix is a prefix. */
  lemma PrefixOfChild(q: Path, c: Path, r: Path)
    requires IsChild(q, c) && IsPrefix(c, r)
    ensures IsPrefix(q, r)
  {
    assert r[..|q|] == r[..|c|][..|q|];
  }

  /** Everything a walk from `q` meets comes from a node `r` at or below `q`. */
  lemma {:induction false} GatherSound<N, L>(t: Flat<N>, q: Path, own: N -> seq<L>, x: L) returns (r: Path)
    requires |q| <= Height(t.order)
    requires x in Gather(t, q, own)
    ensures r in t.nodes && IsPrefix(q, r) && x in own(t.nodes[r])
    decreases Height(t.order) - |q|
  {
    if q in t.nodes && x in own(t.nodes[q]) {
      r := q;
    } else {
      var cs := Children(t.order, q);
      assert x in GatherAll(t, q, cs, own);
      GatherAllMembers(t, q, cs, own, x);
      var c :| c in cs && x in Gather(t, c, own);
      r := GatherSound(t, c, own, x);
      PrefixOfChild(q, c, r);
    }
  }

  /** A walk from `q` meets every node below `q` of a well-formed tree. */
  lemma {:induction false} GatherComplete<N, L>(t: Flat<N>, q: Path, own: N -> seq<L>, r: Path, x: L)
    requires Valid(t)
    requires |q| <= Height(t.order)
    requires r in t.nodes && IsPrefix(q, r) && x in own(t.nodes[r])
    ensures x in Gather(t, q, own)
    decreases Height(t.order) - |q|
  {
    if r != q {
      var cs := Children(t.order, q);
      var c := r[..|q| + 1];
      if |q| + 1 < |r| {
        assert c in t.nodes;
      } else {
        assert c == r;
      }
      assert c[..|q|] == q;
      assert IsChild(q, c);
      assert c in cs;
      assert r[..|c|] == c;
      GatherComplete(t, c, own, r, x);
      GatherAllMembers(t, q, cs, own, x);
    }
  }

  /**
   * A walk from `q` meets exactly what `own` yields for the nodes at or
   * below `q`.
   */
  lemma GatherMembers<N, L>(t: Flat<N>, q: Path, own: N -> seq<L>, x: L)
    requires Valid(t)
    requires |q| <= Height(t.order)
    ensures x in Gather(t, q, own) <==> exists r :: r in t.nodes && IsPrefix(q, r) && x in own(t.nodes[r])
  {
    if x in Gather(t, q, own) {
      var r := GatherSound(t, q, own, x);
    }
    if exists r :: r in t.nodes && IsPrefix(q, r) && x in own(t.nodes[r]) {
      var r :| r in t.nodes && IsPrefix(q, r) && x in own(t.nodes[r]);
      GatherComplete(t, q, own, r, x);
    }
  }
}
