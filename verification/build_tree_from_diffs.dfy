/**
 * src/utils/buildTreeFromDiffs.js: diffs are inserted one after another by
 * walking their "/"-segments down from the root. A missing node is created
 * (a file node for the last segment, a folder node otherwise) and the walk
 * descends into `children`. An existing node is never replaced, so the first
 * diff at a path wins, and a file whose path is already a folder is dropped.
 * Descending through an existing file node reads `children` of a file, which
 * is `undefined`, and the next step throws a `TypeError`.
 * `convertToArray` then turns the children maps into arrays, recursively.
 */
module BuildTreeFromDiffs {
  import opened Wrappers
  import opened JsString
  import opened PathTree
  import opened FileTreeUtils

  datatype DiffNode =
    | FileLeaf(name: string, path: string, status: string)
    | Folder(name: string)

  type DiffTree = Flat<DiffNode>

  /** The `TypeError` thrown when the walk continues below a file node. */
  datatype BuildError = ChildrenOfFile(path: string)

  /** A node of the returned array. */
  datatype Entry =
    | FileEntry(name: string, path: string, status: string)
    | FolderEntry(name: string, children: seq<Entry>)

  /** The node created for segment `i` of `d`'s path. */
  function NewNode(parts: Path, i: nat, d: DiffFile): DiffNode
    requires i < |parts|
  {
    if i == |parts| - 1 then FileLeaf(parts[i], d.path, d.status) else Folder(parts[i])
  }

  /** The inner `forEach` from the node of `parts[..i]` on. */
  function InsertFrom(t: DiffTree, parts: Path, i: nat, d: DiffFile): Result<DiffTree, BuildError>
    requires i <= |parts|
    decreases |parts| - i
  {
    if i == |parts| then Success(t)
    else
      var q := parts[..i + 1];
      var t1 := Add(t, q, NewNode(parts, i, d));
      if i < |parts| - 1 && t1.nodes[q].FileLeaf? then Failure(ChildrenOfFile(d.path))
      else InsertFrom(t1, parts, i + 1, d)
  }

  function InsertDiff(t: DiffTree, d: DiffFile): Result<DiffTree, BuildError> {
    InsertFrom(t, Parts(d), 0, d)
  }

  /** The tree after the outer `forEach`, or the error that stopped it. */
  function DiffTreeOf(diffs: seq<DiffFile>): Result<DiffTree, BuildError> {
    if diffs == [] then Success(Empty())
    else match DiffTreeOf(diffs[..|diffs| - 1])
      case Failure(e) => Failure(e)
      case Success(t) => InsertDiff(t, diffs[|diffs| - 1])
  }

  /** `convertToArray(obj)` for the children of `q`, in creation order. */
  function ConvertToArray(t: DiffTree, q: Path): seq<Entry>
    requires Valid(t) && |q| <= Height(t.order)
    decreases Height(t.order) - |q|, |t.order| + 1
  {
    ConvertChildren(t, q, Children(t.order, q))
  }

  function ConvertChildren(t: DiffTree, q: Path, cs: seq<Path>): seq<Entry>
    requires Valid(t) && |q| <= Height(t.order)
    requires |cs| <= |t.order|
    requires forall c :: c in cs ==> c in t.order && IsChild(q, c)
    decreases Height(t.order) - |q|, |cs|
  {
    if cs == [] then []
    else
      var c := cs[|cs| - 1];
      assert c in cs && c in t.order && IsChild(q, c);
      ConvertChildren(t, q, cs[..|cs| - 1]) + [ConvertNode(t, c)]
  }

  function ConvertNode(t: DiffTree, c: Path): Entry
    requires Valid(t) && c in t.order
    decreases Height(t.order) - |c| + 1, 0
  {
    match t.nodes[c]
      case FileLeaf(name, path, status) => FileEntry(name, path, status)
      case Folder(name) => FolderEntry(name, ConvertToArray(t, c))
  }

  /** The file paths found in the returned array, depth first. */
  function Leaves(es: seq<Entry>): seq<string>
    decreases es
  {
    if es == [] then [] else Leaves(es[..|es| - 1]) + EntryLeaves(es[|es| - 1])
  }

  function EntryLeaves(e: Entry): seq<string>
    decreases e
  {
    match e
      case FileEntry(_, path, _) => [path]
      case FolderEntry(_, children) => Leaves(children)
  }

  /** `buildTreeFromDiffs(diffs)`. */
  method BuildTree(diffs: seq<DiffFile>) returns (r: Result<seq<Entry>, BuildError>)
    ensures diffs == [] ==> r == Success([])
    ensures DiffTreeOf(diffs).Failure? ==> r == Failure(DiffTreeOf(diffs).error)
    ensures DiffTreeOf(diffs).Success? ==>
      Valid(DiffTreeOf(diffs).value) && r == Success(ConvertToArray(DiffTreeOf(diffs).value, []))
  {
    var root: DiffTree := Empty();
    for n := 0 to |diffs|
      invariant DiffTreeOf(diffs[..n]) == Success(root)
    {
      var res := InsertOne(root, diffs[n]);
      assert diffs[..n + 1][..n] == diffs[..n];
      match res {
        case Failure(e) =>
          FailureSticks(diffs, n + 1);
          return Failure(e);
        case Success(t) =>
          root := t;
      }
    }
    assert diffs[..|diffs|] == diffs;
    DiffTreeValid(diffs);
    EmptyValid<DiffNode>();
    r := Success(ConvertToArray(root, []));
  }

  /** The inner `forEach`: the segments of one diff walked down from the root. */
  method InsertOne(root0: DiffTree, diff: DiffFile) returns (res: Result<DiffTree, BuildError>)
    ensures res == InsertDiff(root0, diff)
  {
    var root := root0;
    var parts := Split(diff.path, '/');
    var i := 0;
    while i < |parts|
      invariant 0 <= i <= |parts|
      invariant InsertFrom(root, parts, i, diff) == InsertFrom(root0, parts, 0, diff)
    {
      var isFile := i == |parts| - 1;
      root := Add(root, parts[..i + 1], NewNode(parts, i, diff));
      if !isFile && root.nodes[parts[..i + 1]].FileLeaf? {
        return Failure(ChildrenOfFile(diff.path));
      }
      i := i + 1;
    }
    return Success(root);
  }

  /** Once an insertion has thrown, the whole call has thrown with that error. */
  lemma {:induction false} FailureSticks(diffs: seq<DiffFile>, n: nat)
    requires n <= |diffs|
    requires DiffTreeOf(diffs[..n]).Failure?
    ensures DiffTreeOf(diffs) == DiffTreeOf(diffs[..n])
    decreases |diffs| - n
  {
    if n == |diffs| {
      assert diffs[..n] == diffs;
    } else {
      assert diffs[..n + 1][..n] == diffs[..n];
      FailureSticks(diffs, n + 1);
    }
  }

  // ------------------------------------------------------- one insertion

  /** The walk passes through folders only: `parts` can be followed without a throw. */
  ghost predicate Walkable(t: DiffTree, parts: Path) {
    && parts in t.nodes
    && forall j :: 0 < j < |parts| ==> parts[..j] in t.nodes && t.nodes[parts[..j]].Folder?
  }

  /**
   * A successful walk from segment `i` adds exactly the prefixes it passes,
   * keeps every existing node as it was, and leaves `parts` walkable.
   */
  lemma {:induction false} InsertFromEffect(t: DiffTree, parts: Path, i: nat, d: DiffFile)
    requires i < |parts|
    requires forall j :: 0 < j <= i ==> parts[..j] in t.nodes && t.nodes[parts[..j]].Folder?
    requires InsertFrom(t, parts, i, d).Success?
    ensures var r := InsertFrom(t, parts, i, d).value;
      && (forall q :: q in r.nodes <==> q in t.nodes || (i < |q| <= |parts| && q == parts[..|q|]))
      && (forall q :: q in t.nodes ==> r.nodes[q] == t.nodes[q])
      && (forall q :: q in r.nodes && q !in t.nodes ==> 0 < |q| && r.nodes[q] == NewNode(parts, |q| - 1, d))
      && Walkable(r, parts)
  {
    InsertFromNodes(t, parts, i, d);
    InsertFromWalkable(t, parts, i, d);
  }

  lemma InsertFromNodes(t: DiffTree, parts: Path, i: nat, d: DiffFile)
    requires i < |parts|
    requires InsertFrom(t, parts, i, d).Success?
    ensures var r := InsertFrom(t, parts, i, d).value;
      && (forall q :: q in r.nodes <==> q in t.nodes || (i < |q| <= |parts| && q == parts[..|q|]))
      && (forall q :: q in t.nodes ==> r.nodes[q] == t.nodes[q])
      && (forall q :: q in r.nodes && q !in t.nodes ==> 0 < |q| && r.nodes[q] == NewNode(parts, |q| - 1, d))
  {
    InsertFromKeys(t, parts, i, d);
    InsertFromKeeps(t, parts, i, d);
    InsertFromNew(t, parts, i, d);
  }

  lemma InsertFromKeys(t: DiffTree, parts: Path, i: nat, d: DiffFile)
    requires i < |parts|
    requires InsertFrom(t, parts, i, d).Success?
    ensures var r := InsertFrom(t, parts, i, d).value;
      forall q :: q in r.nodes <==> q in t.nodes || (i < |q| <= |parts| && q == parts[..|q|])
  {
    forall q ensures q in InsertFrom(t, parts, i, d).value.nodes <==> q in t.nodes || (i < |q| <= |parts| && q == parts[..|q|]) {
      InsertFromKeysAt(t, parts, i, d, q);
    }
  }

  /** A path is a node after the walk exactly when it was one before or is a prefix the walk passed. */
  lemma {:induction false} InsertFromKeysAt(t: DiffTree, parts: Path, i: nat, d: DiffFile, q: Path)
    requires i < |parts|
    requires InsertFrom(t, parts, i, d).Success?
    ensures q in InsertFrom(t, parts, i, d).value.nodes <==> q in t.nodes || (i < |q| <= |parts| && q == parts[..|q|])
    decreases |parts| - i
  {
    var c := parts[..i + 1];
    var t1 := Add(t, c, NewNode(parts, i, d));
    assert |c| == i + 1;
    if i == |parts| - 1 {
      assert InsertFrom(t, parts, i, d) == Success(t1);
    } else {
      assert InsertFrom(t, parts, i, d) == InsertFrom(t1, parts, i + 1, d);
      InsertFromKeysAt(t1, parts, i + 1, d, q);
    }
  }

  lemma {:induction false} InsertFromKeeps(t: DiffTree, parts: Path, i: nat, d: DiffFile)
    requires i < |parts|
    requires InsertFrom(t, parts, i, d).Success?
    ensures var r := InsertFrom(t, parts, i, d).value;
      forall q :: q in t.nodes ==> q in r.nodes && r.nodes[q] == t.nodes[q]
    decreases |parts| - i
  {
    var q := parts[..i + 1];
    var t1 := Add(t, q, NewNode(parts, i, d));
    if i == |parts| - 1 {
      assert InsertFrom(t, parts, i, d).value == t1;
    } else {
      assert InsertFrom(t, parts, i, d) == InsertFrom(t1, parts, i + 1, d);
      InsertFromKeeps(t1, parts, i + 1, d);
      assert |q| == i + 1;
    }
  }

  lemma InsertFromNew(t: DiffTree, parts: Path, i: nat, d: DiffFile)
    requires i < |parts|
    requires InsertFrom(t, parts, i, d).Success?
    ensures var r := InsertFrom(t, parts, i, d).value;
      forall q :: q in r.nodes && q !in t.nodes ==> 0 < |q| <= |parts| && r.nodes[q] == NewNode(parts, |q| - 1, d)
  {
    var r := InsertFrom(t, parts, i, d).value;
    forall p | p in r.nodes && p !in t.nodes
      ensures 0 < |p| <= |parts| && r.nodes[p] == NewNode(parts, |p| - 1, d)
    {
      InsertFromNewAt(t, parts, i, d, p);
    }
  }

  /** A node the walk created is the one made for its own segment. */
  lemma {:induction false} InsertFromNewAt(t: DiffTree, parts: Path, i: nat, d: DiffFile, p: Path)
    requires i < |parts|
    requires InsertFrom(t, parts, i, d).Success?
    requires p in InsertFrom(t, parts, i, d).value.nodes && p !in t.nodes
    ensures 0 < |p| <= |parts| && InsertFrom(t, parts, i, d).value.nodes[p] == NewNode(parts, |p| - 1, d)
    decreases |parts| - i
  {
    var q := parts[..i + 1];
    var t1 := Add(t, q, NewNode(parts, i, d));
    assert |q| == i + 1;
    if i == |parts| - 1 {
      assert InsertFrom(t, parts, i, d) == Success(t1);
    } else {
      var res := InsertFrom(t1, parts, i + 1, d);
      assert InsertFrom(t, parts, i, d) == res;
      if p == q {
        InsertFromKeeps(t1, parts, i + 1, d);
        assert res.value.nodes[q] == t1.nodes[q];
      } else {
        assert p !in t1.nodes;
        InsertFromNewAt(t1, parts, i + 1, d, p);
      }
    }
  }

  lemma {:induction false} InsertFromWalkable(t: DiffTree, parts: Path, i: nat, d: DiffFile)
    requires i < |parts|
    requires forall j :: 0 < j <= i ==> parts[..j] in t.nodes && t.nodes[parts[..j]].Folder?
    requires InsertFrom(t, parts, i, d).Success?
    ensures Walkable(InsertFrom(t, parts, i, d).value, parts)
    decreases |parts| - i
  {
    var q := parts[..i + 1];
    var t1 := Add(t, q, NewNode(parts, i, d));
    var r := InsertFrom(t, parts, i, d).value;
    if i == |parts| - 1 {
      assert r == t1;
      assert q == parts;
      forall j | 0 < j < |parts| ensures parts[..j] in r.nodes && r.nodes[parts[..j]].Folder? {
        assert parts[..j] in t.nodes;
      }
    } else {
      assert InsertFrom(t, parts, i, d) == InsertFrom(t1, parts, i + 1, d);
      forall j | 0 < j <= i + 1 ensures parts[..j] in t1.nodes && t1.nodes[parts[..j]].Folder? {
        if j <= i {
          assert parts[..j] in t.nodes;
        }
      }
      InsertFromWalkable(t1, parts, i + 1, d);
    }
  }

  /** A walk that throws met an existing file node on the way down. */
  lemma {:induction false} InsertFromFailure(t: DiffTree, parts: Path, i: nat, d: DiffFile)
    requires i < |parts|
    requires forall j :: 0 < j <= i ==> parts[..j] in t.nodes && t.nodes[parts[..j]].Folder?
    requires InsertFrom(t, parts, i, d).Failure?
    ensures exists j :: i < j < |parts| && parts[..j] in t.nodes && t.nodes[parts[..j]].FileLeaf?
    decreases |parts| - i
  {
    var q := parts[..i + 1];
    var t1 := Add(t, q, NewNode(parts, i, d));
    if !(i < |parts| - 1 && t1.nodes[q].FileLeaf?) {
      forall j | 0 < j <= i + 1 ensures parts[..j] in t1.nodes && t1.nodes[parts[..j]].Folder? {
        if j <= i {
          assert parts[..j] in t.nodes;
        }
      }
      InsertFromFailure(t1, parts, i + 1, d);
      var j :| i + 1 < j < |parts| && parts[..j] in t1.nodes && t1.nodes[parts[..j]].FileLeaf?;
      assert |parts[..j]| != |q|;
    }
  }

  /** Walking a path that can already be walked changes nothing. */
  lemma {:induction false} WalkableUnchanged(t: DiffTree, parts: Path, i: nat, d: DiffFile)
    requires i <= |parts|
    requires Walkable(t, parts)
    ensures InsertFrom(t, parts, i, d) == Success(t)
    decreases |parts| - i
  {
    if i < |parts| {
      var q := parts[..i + 1];
      if i + 1 < |parts| {
        assert q in t.nodes && t.nodes[q].Folder?;
      } else {
        assert q == parts;
      }
      WalkableUnchanged(t, parts, i + 1, d);
    }
  }

  /** A walk that must go below an existing file node throws. */
  lemma {:induction false} DescentThroughFile(t: DiffTree, parts: Path, i: nat, d: DiffFile, k: nat)
    requires i < k < |parts|
    requires parts[..k] in t.nodes && t.nodes[parts[..k]].FileLeaf?
    ensures InsertFrom(t, parts, i, d).Failure?
    decreases |parts| - i
  {
    var q := parts[..i + 1];
    var t1 := Add(t, q, NewNode(parts, i, d));
    if i + 1 < k {
      DescentThroughFile(t1, parts, i + 1, d, k);
    } else {
      assert q == parts[..k];
    }
  }

  /** A walk stays possible once the tree only grows around it. */
  lemma WalkableGrows(t: DiffTree, r: DiffTree, parts: Path)
    requires Walkable(t, parts)
    requires forall q :: q in t.nodes ==> q in r.nodes && r.nodes[q] == t.nodes[q]
    ensures Walkable(r, parts)
  {
    forall j | 0 < j < |parts| ensures parts[..j] in r.nodes && r.nodes[parts[..j]].Folder? {
      assert parts[..j] in t.nodes;
    }
  }

  // ---------------------------------------------------- the whole build

  /** Every node is named by its last segment. */
  ghost predicate Named(t: DiffTree) {
    forall q :: q in t.nodes ==> |q| > 0 && t.nodes[q].name == q[|q| - 1]
  }

  /** A file node records one of the diffs, and that diff's path leads to it. */
  ghost predicate FilesRecorded(t: DiffTree, diffs: seq<DiffFile>) {
    forall q :: q in t.nodes && t.nodes[q].FileLeaf? ==>
      DiffFile(t.nodes[q].path, t.nodes[q].status) in diffs && Split(t.nodes[q].path, '/') == q
  }

  /** No node hangs below a file node. */
  ghost predicate FilesAreLeaves(t: DiffTree) {
    forall q, p :: q in t.nodes && p in t.nodes && t.nodes[q].FileLeaf? && IsPrefix(q, p) ==> p == q
  }

  /** A folder lies on the way to some diff. */
  ghost predicate FoldersLead(t: DiffTree, diffs: seq<DiffFile>) {
    forall q :: q in t.nodes && t.nodes[q].Folder? ==>
      exists d :: d in diffs && IsPrefix(q, Parts(d)) && q != Parts(d)
  }

  /** Every diff's path can be walked again without a throw. */
  ghost predicate AllWalkable(t: DiffTree, diffs: seq<DiffFile>) {
    forall d :: d in diffs ==> Walkable(t, Parts(d))
  }

  /** What holds of a successfully built tree. */
  ghost predicate Good(t: DiffTree, diffs: seq<DiffFile>) {
    && Valid(t)
    && Named(t)
    && FilesRecorded(t, diffs)
    && FilesAreLeaves(t)
    && FoldersLead(t, diffs)
    && AllWalkable(t, diffs)
  }

  lemma {:induction false} InsertFromValid(t: DiffTree, parts: Path, i: nat, d: DiffFile)
    requires i <= |parts|
    requires Valid(t)
    requires forall k :: 0 < k <= i ==> parts[..k] in t.nodes
    requires InsertFrom(t, parts, i, d).Success?
    ensures Valid(InsertFrom(t, parts, i, d).value)
    decreases |parts| - i
  {
    if i < |parts| {
      var q := parts[..i + 1];
      forall k | 0 < k < |q| ensures q[..k] in t.nodes {
        assert q[..k] == parts[..k];
      }
      AddValid(t, q, NewNode(parts, i, d));
      var t1 := Add(t, q, NewNode(parts, i, d));
      InsertFromValid(t1, parts, i + 1, d);
    }
  }

  lemma NamedKept(t: DiffTree, d: DiffFile)
    requires Named(t) && InsertDiff(t, d).Success?
    ensures Named(InsertDiff(t, d).value)
  {
    var parts := Parts(d);
    InsertFromEffect(t, parts, 0, d);
    var r := InsertDiff(t, d).value;
    forall q | q in r.nodes && q !in t.nodes ensures r.nodes[q].name == q[|q| - 1] {
      assert q[|q| - 1] == parts[|q| - 1];
    }
  }

  lemma FilesRecordedKept(t: DiffTree, diffs: seq<DiffFile>, d: DiffFile)
    requires FilesRecorded(t, diffs) && InsertDiff(t, d).Success?
    ensures FilesRecorded(InsertDiff(t, d).value, diffs + [d])
  {
    var parts := Parts(d);
    InsertFromEffect(t, parts, 0, d);
    var r := InsertDiff(t, d).value;
    var ds := diffs + [d];
    forall q | q in r.nodes && r.nodes[q].FileLeaf?
      ensures DiffFile(r.nodes[q].path, r.nodes[q].status) in ds && Split(r.nodes[q].path, '/') == q
    {
      if q !in t.nodes {
        assert |q| == |parts|;
        assert q == parts;
        assert d in ds;
      } else {
        assert DiffFile(t.nodes[q].path, t.nodes[q].status) in diffs;
      }
    }
  }

  lemma FoldersLeadKept(t: DiffTree, diffs: seq<DiffFile>, d: DiffFile)
    requires FoldersLead(t, diffs) && InsertDiff(t, d).Success?
    ensures FoldersLead(InsertDiff(t, d).value, diffs + [d])
  {
    var parts := Parts(d);
    InsertFromEffect(t, parts, 0, d);
    var r := InsertDiff(t, d).value;
    var ds := diffs + [d];
    forall q | q in r.nodes && r.nodes[q].Folder?
      ensures exists e :: e in ds && IsPrefix(q, Parts(e)) && q != Parts(e)
    {
      if q !in t.nodes {
        assert |q| < |parts|;
        assert d in ds && IsPrefix(q, parts) && q != parts;
      } else {
        var e :| e in diffs && IsPrefix(q, Parts(e)) && q != Parts(e);
        assert e in ds;
      }
    }
  }

  lemma AllWalkableKept(t: DiffTree, diffs: seq<DiffFile>, d: DiffFile)
    requires AllWalkable(t, diffs) && InsertDiff(t, d).Success?
    ensures AllWalkable(InsertDiff(t, d).value, diffs + [d])
  {
    InsertFromEffect(t, Parts(d), 0, d);
    var r := InsertDiff(t, d).value;
    forall e | e in diffs + [d] ensures Walkable(r, Parts(e)) {
      if e in diffs {
        WalkableGrows(t, r, Parts(e));
      }
    }
  }

  lemma FilesAreLeavesKept(t: DiffTree, d: DiffFile)
    requires Valid(t) && FilesAreLeaves(t) && InsertDiff(t, d).Success?
    ensures FilesAreLeaves(InsertDiff(t, d).value)
  {
    var r := InsertDiff(t, d).value;
    forall q, p | q in r.nodes && p in r.nodes && r.nodes[q].FileLeaf? && IsPrefix(q, p) ensures p == q {
      NothingBelowFile(t, d, q, p);
    }
  }

  /** After an insertion no node lies below a file node. */
  lemma NothingBelowFile(t: DiffTree, d: DiffFile, q: Path, p: Path)
    requires Valid(t) && FilesAreLeaves(t)
    requires InsertDiff(t, d).Success?
    requires var r := InsertDiff(t, d).value;
      q in r.nodes && p in r.nodes && r.nodes[q].FileLeaf? && IsPrefix(q, p)
    ensures p == q
  {
    var parts := Parts(d);
    InsertFromEffect(t, parts, 0, d);
    assert |q| < |p| ==> p[..|q|] == q;
    assert |q| < |p| && p !in t.nodes ==> IsPrefix(q, parts);
    assert |q| < |p| && p in t.nodes ==> q in t.nodes;
  }

  /** Every successfully built tree satisfies `Good`. */
  lemma {:induction false} DiffTreeGood(diffs: seq<DiffFile>)
    requires DiffTreeOf(diffs).Success?
    ensures Good(DiffTreeOf(diffs).value, diffs)
  {
    if diffs == [] {
      EmptyValid<DiffNode>();
    } else {
      var init := diffs[..|diffs| - 1];
      var d := diffs[|diffs| - 1];
      var t := DiffTreeOf(init).value;
      DiffTreeGood(init);
      InsertFromValid(t, Parts(d), 0, d);
      NamedKept(t, d);
      FilesRecordedKept(t, init, d);
      FilesAreLeavesKept(t, d);
      FoldersLeadKept(t, init, d);
      AllWalkableKept(t, init, d);
      assert init + [d] == diffs;
    }
  }

  lemma DiffTreeValid(diffs: seq<DiffFile>)
    requires DiffTreeOf(diffs).Success?
    ensures Valid(DiffTreeOf(diffs).value)
  {
    DiffTreeGood(diffs);
  }

  // ---------------------------------------------------------- properties

  /**
   * A diff whose path is already a node leaves the tree as it was: with a
   * file there the first diff at that path wins, with a folder there the
   * file is dropped.
   */
  lemma ExistingPathIgnored(diffs: seq<DiffFile>, d: DiffFile)
    requires DiffTreeOf(diffs).Success?
    requires Parts(d) in DiffTreeOf(diffs).value.nodes
    ensures DiffTreeOf(diffs + [d]) == DiffTreeOf(diffs)
  {
    var t := DiffTreeOf(diffs).value;
    var parts := Parts(d);
    DiffTreeGood(diffs);
    forall j | 0 < j < |parts| ensures parts[..j] in t.nodes && t.nodes[parts[..j]].Folder? {
      assert IsPrefix(parts[..j], parts);
    }
    WalkableUnchanged(t, parts, 0, d);
    assert (diffs + [d])[..|diffs|] == diffs;
  }

  /** Repeating a path: the first diff with it wins. */
  lemma FirstDiffWins(diffs: seq<DiffFile>, d: DiffFile)
    requires DiffTreeOf(diffs).Success?
    requires exists e :: e in diffs && e.path == d.path
    ensures DiffTreeOf(diffs + [d]) == DiffTreeOf(diffs)
  {
    DiffTreeGood(diffs);
    var e :| e in diffs && e.path == d.path;
    assert Walkable(DiffTreeOf(diffs).value, Parts(e));
    ExistingPathIgnored(diffs, d);
  }

  /**
   * After a successful prefix, the next diff throws exactly when its walk
   * has to go below a file node.
   */
  lemma ThrowsIffBelowFile(diffs: seq<DiffFile>, d: DiffFile)
    requires DiffTreeOf(diffs).Success?
    ensures var t := DiffTreeOf(diffs).value;
      DiffTreeOf(diffs + [d]).Failure? <==>
        exists k :: 0 < k < |Parts(d)| && Parts(d)[..k] in t.nodes && t.nodes[Parts(d)[..k]].FileLeaf?
    ensures DiffTreeOf(diffs + [d]).Failure? ==> DiffTreeOf(diffs + [d]).error == ChildrenOfFile(d.path)
  {
    var t := DiffTreeOf(diffs).value;
    var parts := Parts(d);
    assert (diffs + [d])[..|diffs|] == diffs;
    if InsertDiff(t, d).Failure? {
      InsertFromFailure(t, parts, 0, d);
      FailureError(t, parts, 0, d);
    }
    if exists k :: 0 < k < |parts| && parts[..k] in t.nodes && t.nodes[parts[..k]].FileLeaf? {
      var k :| 0 < k < |parts| && parts[..k] in t.nodes && t.nodes[parts[..k]].FileLeaf?;
      DescentThroughFile(t, parts, 0, d, k);
    }
  }

  /** The only error a walk raises names the diff being inserted. */
  lemma {:induction false} FailureError(t: DiffTree, parts: Path, i: nat, d: DiffFile)
    requires i <= |parts|
    requires InsertFrom(t, parts, i, d).Failure?
    ensures InsertFrom(t, parts, i, d).error == ChildrenOfFile(d.path)
    decreases |parts| - i
  {
    var q := parts[..i + 1];
    var t1 := Add(t, q, NewNode(parts, i, d));
    if !(i < |parts| - 1 && t1.nodes[q].FileLeaf?) {
      FailureError(t1, parts, i + 1, d);
    }
  }

  /**
   * A file path followed by a path below it throws, where `buildFileTree`
   * keeps both (`FileTreeUtils.FileAndFolder`).
   */
  lemma FileThenDeeper(f: DiffFile, g: DiffFile, y: string)
    requires Parts(g) == Parts(f) + [y]
    ensures DiffTreeOf([f, g]) == Failure(ChildrenOfFile(g.path))
  {
    var pf := Parts(f);
    assert [f][..0] == [];
    assert [] + [f] == [f];
    ThrowsIffBelowFile([], f);
    assert DiffTreeOf([f]) == InsertDiff(Empty(), f);
    InsertFromEffect(Empty(), pf, 0, f);
    var t := DiffTreeOf([f]).value;
    assert t.nodes[pf] == FileLeaf(pf[|pf| - 1], f.path, f.status);
    assert [f] + [g] == [f, g];
    assert Parts(g)[..|pf|] == pf;
    ThrowsIffBelowFile([f], g);
  }

  /** No diff's path lies strictly below another diff's path. */
  ghost predicate NoNesting(diffs: seq<DiffFile>) {
    forall d, e :: d in diffs && e in diffs && IsPrefix(Parts(e), Parts(d)) ==> Parts(e) == Parts(d)
  }

  /** An insertion into a built tree throws only below the path of an earlier diff. */
  lemma ThrowsBelowEarlierDiff(diffs: seq<DiffFile>, d: DiffFile)
    requires DiffTreeOf(diffs).Success?
    ensures DiffTreeOf(diffs + [d]).Failure? ==>
      exists e :: e in diffs && IsPrefix(Parts(e), Parts(d)) && Parts(e) != Parts(d)
  {
    var t := DiffTreeOf(diffs).value;
    ThrowsIffBelowFile(diffs, d);
    if DiffTreeOf(diffs + [d]).Failure? {
      DiffTreeGood(diffs);
      var k :| 0 < k < |Parts(d)| && Parts(d)[..k] in t.nodes && t.nodes[Parts(d)[..k]].FileLeaf?;
      var q := Parts(d)[..k];
      var e := DiffFile(t.nodes[q].path, t.nodes[q].status);
      assert e in diffs && Parts(e) == q;
      assert IsPrefix(q, Parts(d)) && |q| != |Parts(d)|;
    }
  }

  /** Without nested paths the build never throws. */
  lemma {:induction false} NoNestingSucceeds(diffs: seq<DiffFile>)
    requires NoNesting(diffs)
    ensures DiffTreeOf(diffs).Success?
  {
    if diffs != [] {
      var init := diffs[..|diffs| - 1];
      var d := diffs[|diffs| - 1];
      assert forall e :: e in init ==> e in diffs;
      NoNestingSucceeds(init);
      assert init + [d] == diffs;
      ThrowsBelowEarlierDiff(init, d);
    }
  }

  /** A node's own contribution to the file paths of the array. */
  function LeafPath(n: DiffNode): seq<string> {
    if n.FileLeaf? then [n.path] else []
  }

  /** A file node of a built tree has no children. */
  lemma NoChildrenBelowFile(t: DiffTree, c: Path)
    requires Valid(t) && FilesAreLeaves(t)
    requires c in t.nodes && t.nodes[c].FileLeaf?
    ensures Children(t.order, c) == []
  {
    var cs := Children(t.order, c);
    assert forall x :: x in cs ==> IsPrefix(c, x) && |x| != |c|;
    FirstIsMember(cs);
  }

  lemma FirstIsMember(cs: seq<Path>)
    ensures cs == [] || cs[0] in cs
  {
  }

  /** The arrays hold, depth first, the paths of the file nodes below `q`. */
  lemma {:induction false} LeavesOfConvert(t: DiffTree, q: Path)
    requires Valid(t) && FilesAreLeaves(t) && |q| <= Height(t.order)
    requires q !in t.nodes || t.nodes[q].Folder?
    ensures Leaves(ConvertToArray(t, q)) == Gather(t, q, LeafPath)
    decreases Height(t.order) - |q|, |t.order| + 1
  {
    var cs := Children(t.order, q);
    assert ConvertToArray(t, q) == ConvertChildren(t, q, cs);
    assert Gather(t, q, LeafPath) == [] + GatherAll(t, q, cs, LeafPath);
    LeavesOfChildren(t, q, cs);
  }

  lemma {:induction false} LeavesOfChildren(t: DiffTree, q: Path, cs: seq<Path>)
    requires Valid(t) && FilesAreLeaves(t) && |q| <= Height(t.order)
    requires |cs| <= |t.order|
    requires forall c :: c in cs ==> c in t.order && IsChild(q, c)
    ensures Leaves(ConvertChildren(t, q, cs)) == GatherAll(t, q, cs, LeafPath)
    decreases Height(t.order) - |q|, |cs|
  {
    if cs != [] {
      var c := cs[|cs| - 1];
      var init := cs[..|cs| - 1];
      assert c in cs && c in t.order && IsChild(q, c);
      assert forall x :: x in init ==> x in cs;
      LeavesOfChildren(t, q, init);
      var es := ConvertChildren(t, q, init);
      var e := ConvertNode(t, c);
      assert ConvertChildren(t, q, cs) == es + [e];
      assert (es + [e])[..|es|] == es;
      assert Leaves(es + [e]) == Leaves(es) + EntryLeaves(e);
      LeavesOfNode(t, c);
      assert GatherAll(t, q, cs, LeafPath) == GatherAll(t, q, init, LeafPath) + Gather(t, c, LeafPath);
    }
  }

  lemma {:induction false} LeavesOfNode(t: DiffTree, c: Path)
    requires Valid(t) && FilesAreLeaves(t) && c in t.order
    ensures EntryLeaves(ConvertNode(t, c)) == Gather(t, c, LeafPath)
    decreases Height(t.order) - |c| + 1, 0
  {
    if t.nodes[c].FileLeaf? {
      NoChildrenBelowFile(t, c);
      assert Gather(t, c, LeafPath) == [t.nodes[c].path] + GatherAll(t, c, [], LeafPath);
    } else {
      LeavesOfConvert(t, c);
    }
  }

  /**
   * Without nested paths the array's file paths are exactly the input paths:
   * every diff shows up and nothing else does.
   */
  lemma LeavesAreInputPaths(diffs: seq<DiffFile>, x: string)
    requires NoNesting(diffs)
    ensures DiffTreeOf(diffs).Success?
    ensures var t := DiffTreeOf(diffs).value;
      Valid(t) && (x in Leaves(ConvertToArray(t, [])) <==> exists d :: d in diffs && d.path == x)
  {
    NoNestingSucceeds(diffs);
    var t := DiffTreeOf(diffs).value;
    DiffTreeGood(diffs);
    assert [] !in t.nodes;
    if x in Leaves(ConvertToArray(t, [])) {
      LeafOfTreeIsInput(t, diffs, x);
    }
    if exists d :: d in diffs && d.path == x {
      var d :| d in diffs && d.path == x;
      InputIsLeafOfTree(t, diffs, d);
    }
  }

  /** Every leaf of the returned array holds the path of one of the diffs. */
  lemma LeafOfTreeIsInput(t: DiffTree, diffs: seq<DiffFile>, x: string)
    requires Good(t, diffs) && [] !in t.nodes
    requires x in Leaves(ConvertToArray(t, []))
    ensures exists d :: d in diffs && d.path == x
  {
    LeavesOfConvert(t, []);
    var r := GatherSound(t, [], LeafPath, x);
    LeafIsInput(t, diffs, r);
  }

  /** Without nested paths, the path of every diff is a leaf of the returned array. */
  lemma InputIsLeafOfTree(t: DiffTree, diffs: seq<DiffFile>, d: DiffFile)
    requires Good(t, diffs) && NoNesting(diffs) && [] !in t.nodes
    requires d in diffs
    ensures d.path in Leaves(ConvertToArray(t, []))
  {
    LeavesOfConvert(t, []);
    var ps := InputIsLeaf(t, diffs, d);
    GatherComplete(t, [], LeafPath, ps, d.path);
  }

  /** A file node of a built tree holds the path of one of the diffs. */
  lemma LeafIsInput(t: DiffTree, diffs: seq<DiffFile>, r: Path)
    requires FilesRecorded(t, diffs)
    requires r in t.nodes && t.nodes[r].FileLeaf?
    ensures exists d :: d in diffs && d.path == t.nodes[r].path
  {
    assert DiffFile(t.nodes[r].path, t.nodes[r].status) in diffs;
  }

  /** Without nested paths, each diff ends at a file node that holds its path. */
  lemma InputIsLeaf(t: DiffTree, diffs: seq<DiffFile>, d: DiffFile) returns (ps: Path)
    requires Good(t, diffs) && NoNesting(diffs)
    requires d in diffs
    ensures ps in t.nodes && IsPrefix([], ps) && d.path in LeafPath(t.nodes[ps])
  {
    ps := Parts(d);
    assert Walkable(t, ps);
    if t.nodes[ps].Folder? {
      assert false;
    }
    SplitInjective(t.nodes[ps].path, d.path, '/');
  }
}
