/**
 * src/components/FileTreeView.jsx: one level of the file tree built by
 * `buildFileTree`, with a checkbox per file and a tri-state checkbox per
 * folder. Selection is a list of file paths; the checkbox handlers compute
 * the next list from the previous one.
 */
module FileTreeView {
  import opened Wrappers
  import opened JsArray
  import opened PathTree
  import opened FileTreeUtils

  /** A node's own contribution to `collectAllFilePaths`: its file's path, if any. */
  function OwnPath(n: Option<DiffFile>): seq<string> {
    if n.Some? then [n.value.path] else []
  }

  /**
   * `collectAllFilePaths(node)`: the node's own file path first, then the
   * paths collected from each child in creation order.
   */
  method CollectAllFilePaths(t: FileTree, q: Path) returns (files: seq<string>)
    requires Valid(t) && q in t.nodes
    ensures files == Gather(t, q, OwnPath)
    decreases Height(t.order) - |q|
  {
    files := [];
    if t.nodes[q].Some? {
      files := files + [t.nodes[q].value.path];
    }
    var children := Children(t.order, q);
    var below: seq<string> := [];
    for k := 0 to |children|
      invariant below == GatherAll(t, q, children[..k], OwnPath)
    {
      ChildIsNode(t, q, k);
      var sub := CollectAllFilePaths(t, children[k]);
      GatherAllStep(t, q, OwnPath, k);
      below := below + sub;
    }
    assert children[..|children|] == children;
    files := files + below;
  }

  /**
   * On a tree built from `files`, a folder collects exactly the paths of the
   * input files that lie below it.
   */
  lemma CollectedPaths(files: seq<DiffFile>, q: Path, x: string)
    requires |q| <= Height(FileTreeOf(files).order)
    ensures x in Gather(FileTreeOf(files), q, OwnPath) <==>
      exists f :: f in files && IsPrefix(q, Parts(f)) && f.path == x
  {
    if x in Gather(FileTreeOf(files), q, OwnPath) {
      CollectedSound(files, q, x);
    }
    if exists f :: f in files && IsPrefix(q, Parts(f)) && f.path == x {
      var f :| f in files && IsPrefix(q, Parts(f)) && f.path == x;
      CollectedComplete(files, q, f);
    }
  }

  /** Each collected path is the path of an input file below `q`. */
  lemma CollectedSound(files: seq<DiffFile>, q: Path, x: string)
    requires |q| <= Height(FileTreeOf(files).order)
    requires x in Gather(FileTreeOf(files), q, OwnPath)
    ensures exists f :: f in files && IsPrefix(q, Parts(f)) && f.path == x
  {
    var t := FileTreeOf(files);
    var r := GatherSound(t, q, OwnPath, x);
    FileOnItsOwnPath(files, r);
    var f := t.nodes[r].value;
    assert f in files && IsPrefix(q, Parts(f)) && f.path == x;
  }

  /** The path of each input file below `q` is collected. */
  lemma CollectedComplete(files: seq<DiffFile>, q: Path, f: DiffFile)
    requires |q| <= Height(FileTreeOf(files).order)
    requires f in files && IsPrefix(q, Parts(f))
    ensures f.path in Gather(FileTreeOf(files), q, OwnPath)
  {
    var t := FileTreeOf(files);
    FileTreeValid(files);
    var k :| 0 <= k < |files| && files[k] == f;
    var last := LastWithPath(files, k);
    LastFileWins(files, last);
    assert Parts(files[last]) == Parts(f);
    assert OwnPath(t.nodes[Parts(f)]) == [f.path];
    GatherComplete(t, q, OwnPath, Parts(f), f.path);
  }

  /** The last index holding a file with the same path as `files[k]`. */
  function LastWithPath(files: seq<DiffFile>, k: nat): (j: nat)
    requires k < |files|
    ensures k <= j < |files| && files[j].path == files[k].path
    ensures forall i :: j < i < |files| ==> files[i].path != files[j].path
    decreases |files| - k
  {
    if exists i :: k < i < |files| && files[i].path == files[k].path then
      var i :| k < i < |files| && files[i].path == files[k].path;
      LastWithPath(files, i)
    else k
  }

  // ------------------------------------------------------- folder checkbox

  /** The folder checkbox: `checked`, `indeterminate` and `disabled`. */
  datatype FolderCheckbox = FolderCheckbox(checked: bool, indeterminate: bool, disabled: bool)

  /**
   * `allSelected`, `partiallySelected` and `!hasFiles` for a folder whose
   * collected paths are `all`. Both flags are off for a folder without
   * files and they are never on together.
   */
  function FolderState(all: seq<string>, selected: seq<string>): (c: FolderCheckbox)
    ensures c.disabled <==> all == []
    ensures c.checked <==> all != [] && forall p :: p in all ==> p in selected
    ensures c.indeterminate <==>
      (exists p :: p in all && p in selected) && (exists p :: p in all && p !in selected)
    ensures !(c.checked && c.indeterminate)
  {
    var hasFiles := |all| > 0;
    var allSelected := hasFiles && Every(all, selected);
    var partiallySelected := hasFiles && !allSelected && Any(all, selected);
    FolderCheckbox(allSelected, partiallySelected, !hasFiles)
  }

  /**
   * The folder checkbox's `onChange`: with every path of the folder already
   * selected they are all removed; otherwise they are all added, after the
   * previous selection and without repetitions. Nothing happens for a
   * folder without files.
   */
  function ToggleFolder(all: seq<string>, prev: seq<string>): (r: seq<string>)
    ensures all == [] ==> r == prev
    ensures all != [] && Every(all, prev) ==> r == WithoutAll(prev, all)
    ensures all != [] && !Every(all, prev) ==>
      && (forall p :: p in r <==> p in prev || p in all)
      && Distinct(r)
      && |Dedup(prev)| <= |r| && r[..|Dedup(prev)|] == Dedup(prev)
  {
    if all == [] then prev
    else if Every(all, prev) then WithoutAll(prev, all)
    else
      DedupPrefix(prev, all);
      Dedup(prev + all)
  }

  /**
   * A folder toggle flips the folder checkbox and leaves the selection of
   * every path outside the folder as it was.
   */
  lemma ToggleFolderFlips(all: seq<string>, prev: seq<string>)
    requires all != []
    ensures FolderState(all, ToggleFolder(all, prev)).checked <==> !FolderState(all, prev).checked
    ensures !FolderState(all, ToggleFolder(all, prev)).indeterminate
    ensures forall p :: p !in all ==> (p in ToggleFolder(all, prev) <==> p in prev)
  {
    var r := ToggleFolder(all, prev);
    if Every(all, prev) {
      assert all[0] in all && all[0] !in r;
    }
  }

  /** Deselecting a fully selected folder and selecting it again gives back the same set. */
  lemma ToggleFolderTwice(all: seq<string>, prev: seq<string>)
    requires all != [] && Every(all, prev)
    ensures forall p :: p in ToggleFolder(all, ToggleFolder(all, prev)) <==> p in prev
  {
    var r := ToggleFolder(all, prev);
    assert all[0] in all && all[0] !in r;
  }

  // --------------------------------------------------------- file checkbox

  /**
   * The file checkbox's `onChange`, where `checked` is what the checkbox
   * showed (`selected.includes(file.path)` at render time).
   */
  function ToggleFile(path: string, checked: bool, prev: seq<string>): (r: seq<string>)
    ensures checked ==> path !in r && forall p :: p != path ==> (p in r <==> p in prev)
    ensures !checked ==> r == prev + [path]
  {
    if checked then Without(prev, path) else prev + [path]
  }

  /** When the checkbox shows the current selection, a click flips that one path. */
  lemma ToggleFileFlips(path: string, prev: seq<string>)
    ensures var r := ToggleFile(path, path in prev, prev);
      && (path in r <==> path !in prev)
      && forall p :: p != path ==> (p in r <==> p in prev)
  {
  }

  // ------------------------------------------------------------ rendering

  predicate IsHiddenName(name: string) {
    |name| >= 2 && name[..2] == "__"
  }

  /** What `renderNode` draws for one entry of a node's children. */
  datatype Row =
    | FileRow(name: string, path: string, checked: bool)
    | FolderRow(name: string, key: string, box: FolderCheckbox, node: Path)

  /**
   * The row for the child node `c`: none for a name starting with "__"; a
   * file row when the node holds a file, whatever children it has; a folder
   * row otherwise. The nested view renders the folder's children, with an
   * empty `prefix`, so the key is the bare name.
   */
  function RowFor(t: FileTree, c: Path, selected: seq<string>): (row: Option<Row>)
    requires Valid(t) && c in t.nodes
    ensures row.Some? <==> !IsHiddenName(c[|c| - 1])
    ensures row.Some? ==> row.value.name == c[|c| - 1]
    ensures row.Some? ==> (row.value.FileRow? <==> t.nodes[c].Some?)
  {
    var name := c[|c| - 1];
    if IsHiddenName(name) then None
    else if t.nodes[c].Some? then
      var file := t.nodes[c].value;
      Some(FileRow(name, file.path, file.path in selected))
    else
      Some(FolderRow(name, name, FolderState(Gather(t, c, OwnPath), selected), c))
  }

  /** `renderNode(node)` over the children of `q`, in creation order. */
  function RenderRows(t: FileTree, cs: seq<Path>, selected: seq<string>): (rows: seq<Row>)
    requires Valid(t) && forall c :: c in cs ==> c in t.nodes
    ensures |rows| <= |cs|
    ensures forall i :: 0 <= i < |rows| ==> !IsHiddenName(rows[i].name)
    ensures forall c :: c in cs && !IsHiddenName(c[|c| - 1]) ==> RowFor(t, c, selected).value in rows
  {
    if cs == [] then []
    else
      var c := cs[|cs| - 1];
      assert c in cs;
      var init := RenderRows(t, cs[..|cs| - 1], selected);
      assert forall d :: d in cs ==> d in cs[..|cs| - 1] || d == c;
      var row := RowFor(t, c, selected);
      init + (if row.Some? then [row.value] else [])
  }

  /**
   * A node holding a file is drawn as a file row only, so no folder row, and
   * hence no nested view of its children, is ever drawn for it.
   */
  lemma FileNodeHidesChildren(t: FileTree, cs: seq<Path>, selected: seq<string>, c: Path)
    requires Valid(t) && forall d :: d in cs ==> d in t.nodes
    requires c in cs && t.nodes[c].Some?
    ensures forall i :: 0 <= i < |RenderRows(t, cs, selected)| ==>
      !(RenderRows(t, cs, selected)[i].FolderRow? && RenderRows(t, cs, selected)[i].node == c)
  {
    if cs != [] {
      var init := cs[..|cs| - 1];
      if c in init {
        FileNodeHidesChildren(t, init, selected, c);
      }
      forall d | d in init ensures d in t.nodes {
        assert d in cs;
      }
      var rows := RenderRows(t, cs, selected);
      forall i | 0 <= i < |rows| ensures !(rows[i].FolderRow? && rows[i].node == c) {
        if i >= |RenderRows(t, init, selected)| {
          var last := cs[|cs| - 1];
          assert last in cs;
          if c != last {
            FolderRowNode(t, last, selected);
          }
        } else if c !in init {
          FolderRowsOfInit(t, init, selected, c);
        }
      }
    }
  }

  lemma FolderRowNode(t: FileTree, c: Path, selected: seq<string>)
    requires Valid(t) && c in t.nodes
    ensures RowFor(t, c, selected).Some? && RowFor(t, c, selected).value.FolderRow? ==>
      RowFor(t, c, selected).value.node == c
  {
  }

  /** A folder row names the node it was drawn for, which is one of `cs`. */
  lemma {:induction false} FolderRowsOfInit(t: FileTree, cs: seq<Path>, selected: seq<string>, c: Path)
    requires Valid(t) && forall d :: d in cs ==> d in t.nodes
    requires c !in cs
    ensures forall i :: 0 <= i < |RenderRows(t, cs, selected)| ==>
      !(RenderRows(t, cs, selected)[i].FolderRow? && RenderRows(t, cs, selected)[i].node == c)
  {
    if cs != [] {
      var init := cs[..|cs| - 1];
      forall d | d in init ensures d in t.nodes && d != c {
        assert d in cs;
      }
      FolderRowsOfInit(t, init, selected, c);
      var last := cs[|cs| - 1];
      assert last in cs;
      FolderRowNode(t, last, selected);
    }
  }

  // --------------------------------------------------------- folder opening

  /** `openFolders[path] ?? false`. */
  function IsOpen(open: map<string, bool>, path: string): bool {
    path in open && open[path]
  }

  /** `toggleFolderOpen(path)`: flips one folder and no other. */
  function ToggleFolderOpen(open: map<string, bool>, path: string): (r: map<string, bool>)
    ensures IsOpen(r, path) <==> !IsOpen(open, path)
    ensures forall p :: p != path ==> IsOpen(r, p) == IsOpen(open, p)
  {
    open[path := !IsOpen(open, path)]
  }
}
