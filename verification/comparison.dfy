/**
 * What the two ZIP-against-branch panels (src/components/panels/ZipDiffPanel.jsx
 * and `ZipComparePanel` in src/App.jsx) share: the archive entries, the tree
 * listing, one comparison result per entry, the list shown (`visibleFiles`),
 * the selection a compare leaves behind, and the `exportSelected` filter.
 */
module Comparison {
  import opened Wrappers

  /** An XML file read from the uploaded archive. */
  datatype ZipEntry = ZipEntry(path: string, text: string)

  /** One node of `getTreeRecursive(...).tree`: `path`, `sha` and `type`. */
  datatype TreeEntry = TreeEntry(path: string, sha: string, kind: string)

  datatype Status = Added | Same | Modified

  /** One result of `runCompare`; an absent field is `None`. */
  datatype Comparison = Comparison(path: string, status: Status, zipText: Option<string>, repoSha: Option<string>)

  /** `{ path: c.path, text: c.zipText }`, as handed to `downloadAsZip`. */
  datatype ExportFile = ExportFile(path: string, text: Option<string>)

  /** `comparison.filter((c) => c.status !== "same")`. */
  function VisibleFiles(cs: seq<Comparison>): (vs: seq<Comparison>)
    ensures |vs| <= |cs|
    ensures forall c :: c in vs <==> c in cs && c.status != Same
  {
    if cs == [] then []
    else
      var init := cs[..|cs| - 1];
      var last := cs[|cs| - 1];
      assert forall c :: c in cs <==> c in init || c == last;
      VisibleFiles(init) + (if last.status != Same then [last] else [])
  }

  /** `results.filter((c) => c.status !== "same").map((c) => c.path)`: the selection after a compare. */
  function ChangedPaths(cs: seq<Comparison>): (ps: seq<string>)
    ensures |ps| == |VisibleFiles(cs)|
    ensures forall i :: 0 <= i < |ps| ==> ps[i] == VisibleFiles(cs)[i].path
  {
    if cs == [] then []
    else ChangedPaths(cs[..|cs| - 1]) + (if cs[|cs| - 1].status != Same then [cs[|cs| - 1].path] else [])
  }

  /** `comparison.filter((c) => selected.includes(c.path)).map(...)`. */
  function ExportFiles(cs: seq<Comparison>, selected: seq<string>): (fs: seq<ExportFile>)
    ensures |fs| <= |cs|
    ensures selected == [] ==> fs == []
    ensures forall f :: f in fs <==>
      exists c :: c in cs && c.path in selected && f == ExportFile(c.path, c.zipText)
  {
    if cs == [] then []
    else
      var init := cs[..|cs| - 1];
      var last := cs[|cs| - 1];
      assert forall c :: c in cs <==> c in init || c == last;
      ExportFiles(init, selected) + (if last.path in selected then [ExportFile(last.path, last.zipText)] else [])
  }

  /** The export entries of a list of comparisons, one each, in order. */
  function ExportOf(cs: seq<Comparison>): (fs: seq<ExportFile>)
    ensures |fs| == |cs|
    ensures forall i :: 0 <= i < |cs| ==> fs[i] == ExportFile(cs[i].path, cs[i].zipText)
  {
    if cs == [] then [] else ExportOf(cs[..|cs| - 1]) + [ExportFile(cs[|cs| - 1].path, cs[|cs| - 1].zipText)]
  }

  /**
   * The list shown keeps comparison order and every copy: it distributes
   * over concatenation, one result at a time.
   */
  lemma {:induction false} VisibleFilesAppend(a: seq<Comparison>, b: seq<Comparison>)
    ensures VisibleFiles(a + b) == VisibleFiles(a) + VisibleFiles(b)
    decreases |b|
  {
    if b == [] {
      assert a + b == a;
    } else {
      var init := b[..|b| - 1];
      var last := b[|b| - 1];
      assert (a + b)[..|a + b| - 1] == a + init;
      assert (a + b)[|a + b| - 1] == last;
      VisibleFilesAppend(a, init);
    }
  }

  /** A single result is shown exactly when it is not "same". */
  lemma VisibleFilesOne(c: Comparison)
    ensures VisibleFiles([c]) == if c.status != Same then [c] else []
  {
    assert [c][..0] == [];
  }

  /**
   * The export keeps comparison order and gives one entry per selected
   * result, duplicates included: it distributes over concatenation.
   */
  lemma {:induction false} ExportFilesAppend(a: seq<Comparison>, b: seq<Comparison>, selected: seq<string>)
    ensures ExportFiles(a + b, selected) == ExportFiles(a, selected) + ExportFiles(b, selected)
    decreases |b|
  {
    if b == [] {
      assert a + b == a;
    } else {
      var init := b[..|b| - 1];
      var last := b[|b| - 1];
      assert (a + b)[..|a + b| - 1] == a + init;
      assert (a + b)[|a + b| - 1] == last;
      ExportFilesAppend(a, init, selected);
    }
  }

  /** A single result is exported, as `{ path, text }`, exactly when its path is selected. */
  lemma ExportFilesOne(c: Comparison, selected: seq<string>)
    ensures ExportFiles([c], selected) == if c.path in selected then [ExportFile(c.path, c.zipText)] else []
  {
    assert [c][..0] == [];
  }

  /** No two results share a path. */
  predicate UniquePaths(cs: seq<Comparison>) {
    forall i, j :: 0 <= i < j < |cs| ==> cs[i].path != cs[j].path
  }

  /** A path is selected after a compare exactly when some result with that path changed. */
  lemma {:induction false} ChangedPathsMembers(cs: seq<Comparison>, x: string)
    ensures x in ChangedPaths(cs) <==> exists c :: c in cs && c.status != Same && c.path == x
  {
    if cs != [] {
      var init := cs[..|cs| - 1];
      ChangedPathsMembers(init, x);
      assert forall c :: c in cs <==> c in init || c == cs[|cs| - 1];
    }
  }

  /**
   * A selection that holds the path of every changed result and of no
   * unchanged one exports exactly the changed results, in order.
   */
  lemma {:induction false} ExportOfChanged(cs: seq<Comparison>, selected: seq<string>)
    requires forall c :: c in cs ==> (c.path in selected <==> c.status != Same)
    ensures ExportFiles(cs, selected) == ExportOf(VisibleFiles(cs))
  {
    if cs != [] {
      var init := cs[..|cs| - 1];
      var last := cs[|cs| - 1];
      assert cs == init + [last];
      forall c | c in init ensures c.path in selected <==> c.status != Same {
        assert c in cs;
      }
      ExportOfChanged(init, selected);
      assert last.path in selected <==> last.status != Same by {
        assert last in cs;
      }
      if last.status != Same {
        ExportOfSnoc(VisibleFiles(init), last);
      }
    }
  }

  /** Appending a result appends its export entry. */
  lemma ExportOfSnoc(vs: seq<Comparison>, c: Comparison)
    ensures ExportOf(vs + [c]) == ExportOf(vs) + [ExportFile(c.path, c.zipText)]
  {
    assert (vs + [c])[..|vs|] == vs;
  }

  /**
   * Exporting straight after a compare whose results have distinct paths
   * exports the changed results and nothing else, in comparison order.
   */
  lemma ExportAfterCompare(cs: seq<Comparison>)
    requires UniquePaths(cs)
    ensures ExportFiles(cs, ChangedPaths(cs)) == ExportOf(VisibleFiles(cs))
  {
    var selected := ChangedPaths(cs);
    forall c | c in cs ensures c.path in selected <==> c.status != Same {
      ChangedPathsMembers(cs, c.path);
    }
    ExportOfChanged(cs, selected);
  }
}
