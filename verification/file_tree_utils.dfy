/**
 * src/utils/fileTreeUtils.js: `buildFileTree` splits each file's path on
 * "/" and walks down from the root, creating a `{ __children, __files }`
 * node for every segment not seen yet and putting the file on the node of
 * its last segment.
 *
 * A node is modelled by its `__file` (`None` until a file lands on it);
 * `__children` is the flat tree's child relation and `__files`, which stays
 * the empty list, is not represented.
 */
module FileTreeUtils {
  import opened Wrappers
  import opened JsString
  import opened PathTree

  /** A changed file as the panels list it. */
  datatype DiffFile = DiffFile(path: string, status: string)

  type FileTree = Flat<Option<DiffFile>>

  /** `file.path.split("/")`. */
  function Parts(f: DiffFile): (ps: Path)
    ensures |ps| >= 1
  {
    Split(f.path, '/')
  }

  /**
   * The inner loop from `current` = the node of `parts[..i]` on: create the
   * next node unless it exists, and on the last segment set `__file`.
   */
  function InsertFrom(t: FileTree, parts: Path, i: nat, f: DiffFile): FileTree
    requires i <= |parts|
    decreases |parts| - i
  {
    if i == |parts| then t
    else
      var t1 := Add(t, parts[..i + 1], None);
      var t2 := if i == |parts| - 1 then Set(t1, parts[..i + 1], Some(f)) else t1;
      InsertFrom(t2, parts, i + 1, f)
  }

  /** One iteration of the outer loop. */
  function InsertFile(t: FileTree, f: DiffFile): FileTree {
    InsertFrom(t, Parts(f), 0, f)
  }

  /** The tree after the files are inserted one after another. */
  function FileTreeOf(files: seq<DiffFile>): FileTree {
    if files == [] then Empty()
    else InsertFile(FileTreeOf(files[..|files| - 1]), files[|files| - 1])
  }

  /** `buildFileTree(files)`. */
  method BuildFileTree(files: seq<DiffFile>) returns (root: FileTree)
    ensures root == FileTreeOf(files)
    ensures files == [] ==> root.nodes == map[] && root.order == []
  {
    root := Empty();
    for n := 0 to |files|
      invariant root == FileTreeOf(files[..n])
    {
      var file := files[n];
      var parts := Split(file.path, '/');
      ghost var start := root;
      var i := 0;
      while i < |parts|
        invariant 0 <= i <= |parts|
        invariant InsertFrom(root, parts, i, file) == InsertFrom(start, parts, 0, file)
      {
        root := Add(root, parts[..i + 1], None);
        if i == |parts| - 1 {
          root := Set(root, parts[..i + 1], Some(file));
        }
        i := i + 1;
      }
      assert files[..n + 1][..n] == files[..n];
    }
    assert files[..|files|] == files;
  }

  // ------------------------------------------------------------ properties

  lemma {:induction false} InsertFromValid(t: FileTree, parts: Path, i: nat, f: DiffFile)
    requires i <= |parts|
    requires Valid(t)
    requires forall k :: 0 < k <= i ==> parts[..k] in t.nodes
    ensures Valid(InsertFrom(t, parts, i, f))
    decreases |parts| - i
  {
    if i < |parts| {
      var q := parts[..i + 1];
      forall k | 0 < k < |q| ensures q[..k] in t.nodes {
        assert q[..k] == parts[..k];
      }
      AddValid(t, q, None);
      var t1 := Add(t, q, None);
      var t2 := if i == |parts| - 1 then Set(t1, q, Some(f)) else t1;
      if i == |parts| - 1 {
        SetValid(t1, q, Some(f));
      }
      InsertFromValid(t2, parts, i + 1, f);
    }
  }

  /** Every tree the builder returns is well formed. */
  lemma {:induction false} FileTreeValid(files: seq<DiffFile>)
    ensures Valid(FileTreeOf(files))
  {
    if files == [] {
      EmptyValid<Option<DiffFile>>();
    } else {
      FileTreeValid(files[..|files| - 1]);
      InsertFromValid(FileTreeOf(files[..|files| - 1]), Parts(files[|files| - 1]), 0, files[|files| - 1]);
    }
  }

  /**
   * The inner loop adds exactly the prefixes of `parts` it walks through,
   * never replaces a node, and changes a value only where the file lands.
   */
  lemma {:induction false} InsertFromEffect(t: FileTree, parts: Path, i: nat, f: DiffFile)
    requires i < |parts|
    ensures var r := InsertFrom(t, parts, i, f);
      && (forall q :: q in r.nodes <==> q in t.nodes || (i < |q| <= |parts| && q == parts[..|q|]))
      && parts in r.nodes && r.nodes[parts] == Some(f)
      && (forall q :: q in t.nodes && q != parts ==> r.nodes[q] == t.nodes[q])
      && (forall q :: q in r.nodes && q !in t.nodes && q != parts ==> r.nodes[q] == None)
    decreases |parts| - i
  {
    var q := parts[..i + 1];
    var t1 := Add(t, q, None);
    var t2 := if i == |parts| - 1 then Set(t1, q, Some(f)) else t1;
    var r := InsertFrom(t, parts, i, f);
    assert r == InsertFrom(t2, parts, i + 1, f);
    if i == |parts| - 1 {
      assert q == parts;
      assert r == t2;
    } else {
      InsertFromEffect(t2, parts, i + 1, f);
      assert |q| == i + 1 && q != parts;
    }
  }

  lemma InsertFileEffect(t: FileTree, f: DiffFile)
    ensures var r := InsertFile(t, f);
      && (forall q :: q in r.nodes <==> q in t.nodes || exists j :: 0 < j <= |Parts(f)| && q == Parts(f)[..j])
      && Parts(f) in r.nodes && r.nodes[Parts(f)] == Some(f)
      && (forall q :: q in t.nodes && q != Parts(f) ==> r.nodes[q] == t.nodes[q])
      && (forall q :: q in r.nodes && q !in t.nodes && q != Parts(f) ==> r.nodes[q] == None)
  {
    var ps := Parts(f);
    InsertFromEffect(t, ps, 0, f);
    forall q ensures (exists j :: 0 < j <= |ps| && q == ps[..j]) <==> (0 < |q| <= |ps| && q == ps[..|q|]) {
      if exists j :: 0 < j <= |ps| && q == ps[..j] {
        var j :| 0 < j <= |ps| && q == ps[..j];
        assert |q| == j;
      }
    }
  }

  /** The nodes are exactly the non-empty prefixes of the files' segment paths. */
  lemma {:induction false} NodesArePrefixes(files: seq<DiffFile>, q: Path)
    ensures q in FileTreeOf(files).nodes <==>
      exists k, j :: 0 <= k < |files| && 0 < j <= |Parts(files[k])| && q == Parts(files[k])[..j]
  {
    if files != [] {
      var init := files[..|files| - 1];
      var f := files[|files| - 1];
      NodesArePrefixes(init, q);
      InsertFileEffect(FileTreeOf(init), f);
      if q in FileTreeOf(files).nodes {
        if q in FileTreeOf(init).nodes {
          var k, j :| 0 <= k < |init| && 0 < j <= |Parts(init[k])| && q == Parts(init[k])[..j];
          assert files[k] == init[k];
        } else {
          var j :| 0 < j <= |Parts(f)| && q == Parts(f)[..j];
          assert files[|files| - 1] == f;
        }
      }
      if exists k, j :: 0 <= k < |files| && 0 < j <= |Parts(files[k])| && q == Parts(files[k])[..j] {
        var k, j :| 0 <= k < |files| && 0 < j <= |Parts(files[k])| && q == Parts(files[k])[..j];
        if k < |init| {
          assert files[k] == init[k];
        } else {
          assert files[k] == f;
        }
      }
    }
  }

  /** A file sits only on the node of its own path, and it is one of the inputs. */
  lemma {:induction false} FileOnItsOwnPath(files: seq<DiffFile>, q: Path)
    requires q in FileTreeOf(files).nodes && FileTreeOf(files).nodes[q].Some?
    ensures FileTreeOf(files).nodes[q].value in files
    ensures Parts(FileTreeOf(files).nodes[q].value) == q
  {
    var init := files[..|files| - 1];
    var f := files[|files| - 1];
    InsertFileEffect(FileTreeOf(init), f);
    if q != Parts(f) {
      FileOnItsOwnPath(init, q);
      assert FileTreeOf(init).nodes[q].value in init;
    }
  }

  /**
   * Following a file's segments reaches a node holding that file, unless a
   * later file has the same path: the last one wins.
   */
  lemma {:induction false} LastFileWins(files: seq<DiffFile>, k: nat)
    requires k < |files|
    requires forall j :: k < j < |files| ==> files[j].path != files[k].path
    ensures Parts(files[k]) in FileTreeOf(files).nodes
    ensures FileTreeOf(files).nodes[Parts(files[k])] == Some(files[k])
  {
    var init := files[..|files| - 1];
    var f := files[|files| - 1];
    InsertFileEffect(FileTreeOf(init), f);
    if k < |files| - 1 {
      assert init[k] == files[k];
      LastFileWins(init, k);
      assert Parts(f) != Parts(files[k]) by {
        if Parts(f) == Parts(files[k]) {
          SplitInjective(f.path, files[k].path, '/');
        }
      }
    }
  }

  /** Inserting more files never removes a node. */
  lemma {:induction false} NodesPersist(files: seq<DiffFile>, n: nat)
    requires n <= |files|
    ensures FileTreeOf(files[..n]).nodes.Keys <= FileTreeOf(files).nodes.Keys
    decreases |files| - n
  {
    if n < |files| {
      var t := FileTreeOf(files[..n]);
      assert files[..n + 1][..n] == files[..n];
      InsertFileEffect(t, files[n]);
      NodesPersist(files, n + 1);
    } else {
      assert files[..n] == files;
    }
  }

  /**
   * A path can be a file and a folder at once: after "a" and "a/b" the node
   * of "a" keeps its file and has the node of "a/b" as a child.
   */
  lemma FileAndFolder(f: DiffFile, g: DiffFile, y: string)
    requires Parts(g) == Parts(f) + [y]
    ensures var t := FileTreeOf([f, g]);
      && Parts(f) in t.nodes && t.nodes[Parts(f)] == Some(f)
      && Parts(g) in Children(t.order, Parts(f))
  {
    var files := [f, g];
    assert f.path != g.path by {
      assert |Parts(g)| != |Parts(f)|;
    }
    LastFileWins(files, 0);
    LastFileWins(files, 1);
    FileTreeValid(files);
    var pf := Parts(f);
    assert Parts(g)[..|pf|] == pf;
  }
}
