/**
 * src/App.jsx: the older, single-file version of the application. Its
 * `ZipComparePanel` compares an archive with a branch like
 * src/components/panels/ZipDiffPanel.jsx, but hashes the archive text RAW
 * with its own `gitBlobSha`, keeps only tree nodes of type "blob", keys
 * both sides by `normalizePath`, and keeps the archive text on every
 * result. `BranchDiffPanel` can compare two different branches only.
 */
module App {
  import opened Wrappers
  import opened Encoding
  import opened JsString
  import opened DiffUtils
  import opened CommonUtils
  import opened Comparison
  import opened JsArray
  import ZipDiffPanel

  type Props = ZipDiffPanel.Props
  type Repo = ZipDiffPanel.Repo
  type Download = ZipDiffPanel.Download

  /** `detail`: the path and the two texts handed to `diffText`. */
  datatype Detail = Detail(path: string, repoText: string, zipText: Option<string>)

  const NoXmlFound: string := "No XML files found in ZIP."
  const IdenticalFile: string := "File is identical."

  // ------------------------------------------------------------ gitBlobSha

  /** The blob name of the raw UTF-8 bytes of `text ?? ""`. */
  function RawSha(p: Platform, text: Option<string>): (sha: string)
    ensures |sha| == 40 && IsLowerHex(sha)
    ensures ParseHex(sha) == Some(p.sha1(BlobFrame(Utf8Encode(text.GetOr("")))))
  {
    BlobSha(p, Utf8Encode(text.GetOr("")))
  }

  /**
   * `gitBlobSha(text)` of src/App.jsx: "blob ", the byte length, a NUL and
   * the bytes of the text, as it is, copied into one buffer and hashed.
   */
  method GitBlobSha(p: Platform, text: Option<string>) returns (sha: string)
    ensures sha == RawSha(p, text)
    ensures |sha| == 40 && IsLowerHex(sha)
    ensures ParseHex(sha) == Some(p.sha1(BlobFrame(Utf8Encode(text.GetOr("")))))
  {
    var bytes := Utf8Encode(if text.Some? then text.value else "");
    var header := BlobHeader(|bytes|);
    var buf := AssembleFrame(header, bytes);
    sha := HexString(p.sha1(buf[..]));
  }

  /**
   * The two `gitBlobSha`s disagree on a line that ends in a blank: this one
   * frames the blank, the one of src/utils/diffUtils.js frames the text
   * without it.
   */
  lemma RawAndNormalizedFramesDiffer(p: Platform, w: string)
    requires IsWord(w)
    ensures BlobFrame(Utf8Encode(Some(w + " ").GetOr(""))) != BlobFrame(Utf8Encode(NormalizeXmlText(p, Some(w + " "))))
  {
    TrailingBlankNormalized(p, w);
    BlankChangesFrame(w);
  }

  // --------------------------------------------------------------- blobMap

  /** The `type` of a file node in a tree listing. */
  const BlobKind: string := "blob"

  /** `node.type === "blob" && /\.xml$/i.test(node.path)`. */
  predicate IsXmlBlob(node: TreeEntry) {
    node.kind == BlobKind && HasXmlExtension(node.path)
  }

  /** The map the loop builds: later nodes overwrite earlier ones at the same key. */
  function BlobMapOf(nodes: seq<TreeEntry>): map<string, string> {
    if nodes == [] then map[]
    else
      var m := BlobMapOf(nodes[..|nodes| - 1]);
      var last := nodes[|nodes| - 1];
      if IsXmlBlob(last) then m[NormalizePath(last.path) := last.sha] else m
  }

  /** Each key of `blobMap` is the normalised path of an XML blob of the listing, at index `j`. */
  lemma {:induction false} BlobMapSound(nodes: seq<TreeEntry>, k: string) returns (j: nat)
    requires k in BlobMapOf(nodes)
    ensures j < |nodes| && IsXmlBlob(nodes[j]) && NormalizePath(nodes[j].path) == k
  {
    assert nodes != [];
    var i := |nodes| - 1;
    var m := BlobMapOf(nodes[..i]);
    assert BlobMapOf(nodes) == if IsXmlBlob(nodes[i]) then m[NormalizePath(nodes[i].path) := nodes[i].sha] else m;
    if IsXmlBlob(nodes[i]) && NormalizePath(nodes[i].path) == k {
      j := i;
    } else {
      j := BlobMapSound(nodes[..i], k);
    }
  }

  /** Every XML blob of the listing has its normalised path as a key of `blobMap`. */
  lemma {:induction false} BlobMapComplete(nodes: seq<TreeEntry>, e: TreeEntry)
    requires e in nodes && IsXmlBlob(e)
    ensures NormalizePath(e.path) in BlobMapOf(nodes)
  {
    var init := nodes[..|nodes| - 1];
    var last := nodes[|nodes| - 1];
    if e != last {
      assert e in init by { assert nodes == init + [last]; }
      BlobMapComplete(init, e);
    }
  }

  /** One more node of the listing: the loop body's step. */
  lemma BlobMapOfStep(nodes: seq<TreeEntry>, i: nat)
    requires i < |nodes|
    ensures BlobMapOf(nodes[..i + 1]) ==
      if IsXmlBlob(nodes[i]) then BlobMapOf(nodes[..i])[NormalizePath(nodes[i].path) := nodes[i].sha]
      else BlobMapOf(nodes[..i])
  {
    assert nodes[..i + 1][..i] == nodes[..i];
  }

  /** The `for` loop over `tree.tree || []` filling `blobMap`. */
  method BuildBlobMap(tree: Option<seq<TreeEntry>>) returns (m: map<string, string>)
    ensures m == BlobMapOf(tree.GetOr([]))
  {
    m := map[];
    var nodes := if tree.Some? then tree.value else [];
    for i := 0 to |nodes|
      invariant m == BlobMapOf(nodes[..i])
    {
      var node := nodes[i];
      BlobMapOfStep(nodes, i);
      if node.kind == BlobKind && HasXmlExtension(node.path) {
        m := m[NormalizePath(node.path) := node.sha];
      }
    }
    assert nodes[..|nodes|] == nodes;
  }

  // ------------------------------------------------------------ classifying

  /**
   * The `mapLimit` callback of `ZipComparePanel`: the normalised path is
   * looked up; a missing or empty sha means "added" with a null `repoSha`;
   * otherwise the raw-text hash decides between "same" and "modified".
   * Every result keeps the archive text.
   */
  function Classify(p: Platform, m: map<string, string>, e: ZipEntry): Comparison
  {
    var path := NormalizePath(e.path);
    if path !in m || m[path] == "" then Comparison(path, Added, Some(e.text), None)
    else if RawSha(p, Some(e.text)) == m[path] then Comparison(path, Same, Some(e.text), Some(m[path]))
    else Comparison(path, Modified, Some(e.text), Some(m[path]))
  }

  /**
   * What a result of `Classify` says: the normalised path and the archive
   * text; "added" exactly for a path the map lacks or maps to ""; and
   * "same" exactly when the raw-text object name equals the listed sha,
   * whose digest is then the digest of the archive text's blob.
   */
  lemma ClassifyCases(p: Platform, m: map<string, string>, e: ZipEntry)
    ensures var c := Classify(p, m, e);
      && c.path == NormalizePath(e.path) && c.zipText == Some(e.text)
      && (c.status == Added <==> c.path !in m || m[c.path] == "")
      && (c.status == Added ==> c.repoSha == None)
      && (c.status != Added ==> c.repoSha == Some(m[c.path]))
      && (c.status == Same <==> c.path in m && m[c.path] != "" && RawSha(p, Some(e.text)) == m[c.path])
      && (c.status == Same ==> ParseHex(m[c.path]) == Some(p.sha1(BlobFrame(Utf8Encode(e.text)))))
  {
  }

  /** The results `mapLimit` resolves to: one per archive entry, in archive order. */
  function CompareAll(p: Platform, m: map<string, string>, entries: seq<ZipEntry>): (cs: seq<Comparison>)
    ensures |cs| == |entries|
    ensures forall k :: 0 <= k < |entries| ==> cs[k] == Classify(p, m, entries[k])
  {
    seq(|entries|, k requires 0 <= k < |entries| => Classify(p, m, entries[k]))
  }

  /**
   * The `mapLimit` call of `runCompare`: the classifying callback never
   * throws, so the call resolves to one result per entry, in order.
   */
  method CompareEntries(p: Platform, m: map<string, string>, entries: seq<ZipEntry>) returns (cs: seq<Comparison>)
    requires |entries| > 0
    ensures cs == CompareAll(p, m, entries)
  {
    var mapper: (ZipEntry, nat) -> Result<Comparison, string> := (e, k) => Success(Classify(p, m, e));
    var r;
    ghost var claims;
    r, claims := MapLimit(entries, ZipDiffPanel.Workers, mapper);
    assert r.Success?;
    cs := r.value;
  }

  /**
   * What a successful `runCompare` leaves behind: one result per archive
   * entry, classified against the blob map of the listing, and the paths of
   * the changed ones, which become the selection.
   */
  function CompareOutcome(p: Platform, tree: Option<seq<TreeEntry>>, entries: seq<ZipEntry>): (seq<Comparison>, seq<string>) {
    var cs := CompareAll(p, BlobMapOf(tree.GetOr([])), entries);
    (cs, ChangedPaths(cs))
  }

  /**
   * After a successful compare there is one result per archive entry, and a
   * path is selected exactly when some result with that path changed.
   */
  lemma CompareOutcomeSelects(p: Platform, tree: Option<seq<TreeEntry>>, entries: seq<ZipEntry>, x: string)
    ensures var (cs, sel) := CompareOutcome(p, tree, entries);
      && |cs| == |entries|
      && (x in sel <==> exists c :: c in cs && c.status != Same && c.path == x)
  {
    ChangedPathsMembers(CompareAll(p, BlobMapOf(tree.GetOr([])), entries), x);
  }

  /**
   * The successful half of `runCompare`, given the message the snackbar
   * holds: the "No XML files" message would replace it only for an empty
   * result list, which a non-empty archive never gives.
   */
  method CompareListing(p: Platform, tree: Option<seq<TreeEntry>>, entries: seq<ZipEntry>, snack: Option<string>)
    returns (results: seq<Comparison>, changed: seq<string>, snack': Option<string>)
    requires |entries| > 0
    ensures (results, changed) == CompareOutcome(p, tree, entries)
    ensures |results| == |entries|
    ensures snack' == snack
  {
    var m := BuildBlobMap(tree);
    results := CompareEntries(p, m, entries);
    changed := ChangedPaths(results);
    snack' := if |results| == 0 then Some(NoXmlFound) else snack;
  }

  /**
   * Against a repository blob holding a normal text `w`, the archive text
   * `w + " "` is "same" for src/components/panels/ZipDiffPanel.jsx and
   * "modified" here, unless SHA-1 collides on the two frames.
   */
  lemma PanelsDisagree(p: Platform, w: string, path: string)
    requires IsWord(w)
    requires p.sha1(BlobFrame(Utf8Encode(w + " "))) != p.sha1(BlobFrame(Utf8Encode(w)))
    requires NormalizePath(path) == path
    ensures var sha := BlobSha(p, Utf8Encode(w));
      && ZipDiffPanel.Classify(p, map[path := sha], ZipEntry(path, w + " ")).status == Same
      && Classify(p, map[path := sha], ZipEntry(path, w + " ")).status == Modified
  {
    var sha := BlobSha(p, Utf8Encode(w));
    TrailingBlankNormalized(p, w);
    assert |sha| == 40;
    assert ZipDiffPanel.ZipSha(p, w + " ") == sha;
    if RawSha(p, Some(w + " ")) == sha {
      BlobShaDeterminesDigest(p, Utf8Encode(w + " "), Utf8Encode(w));
      assert false;
    }
  }

  // -------------------------------------------------------------- selection

  /** `toggleSelected(path)`: every copy of a selected path goes; an unselected one is appended. */
  function Toggled(prev: seq<string>, path: string): (r: seq<string>)
    ensures path in prev ==> path !in r && forall x :: x != path ==> (x in r <==> x in prev)
    ensures path !in prev ==> r == prev + [path]
  {
    if path in prev then Without(prev, path) else prev + [path]
  }

  /** Toggling twice gives the selection back as a set, and exactly when the path was not selected. */
  lemma ToggledTwice(prev: seq<string>, path: string)
    ensures forall x :: x in Toggled(Toggled(prev, path), path) <==> x in prev
    ensures path !in prev ==> Toggled(Toggled(prev, path), path) == prev
  {
    if path !in prev {
      WithoutAllNothing(prev, [path]);
      WithoutOne(prev + [path], path);
      assert WithoutAll(prev + [path], [path]) == WithoutAll(prev, [path]) + WithoutAll([path], [path]) by {
        WithoutAllAppend(prev, [path], [path]);
      }
    }
  }

  /** Filtering one value out is filtering out the list holding it. */
  lemma {:induction false} WithoutOne(s: seq<string>, x: string)
    ensures Without(s, x) == WithoutAll(s, [x])
  {
    if s != [] {
      WithoutOne(s[1..], x);
    }
  }

  lemma {:induction false} WithoutAllAppend(a: seq<string>, b: seq<string>, xs: seq<string>)
    ensures WithoutAll(a + b, xs) == WithoutAll(a, xs) + WithoutAll(b, xs)
  {
    if a != [] {
      assert (a + b)[1..] == a[1..] + b;
      WithoutAllAppend(a[1..], b, xs);
    } else {
      assert a + b == b;
    }
  }

  /** `canCompare` of `BranchDiffPanel`: a repo and two different, non-empty branches. */
  predicate CanCompare(repo: Option<Repo>, branchA: string, branchB: string) {
    repo.Some? && branchA != "" && branchB != "" && branchA != branchB
  }

  // ------------------------------------------------------------ the panel

  /** The state of `ZipComparePanel`. */
  class ZipComparePanel {
    var zipFile: Option<string>
    var zipEntries: seq<ZipEntry>
    var comparison: seq<Comparison>
    var detail: Option<Detail>
    var selected: seq<string>
    /** The message of the last snackbar opened. */
    var snack: Option<string>
    /** The last archive handed to `downloadAsZip`. */
    var download: Option<Download>

    constructor()
      ensures zipFile == None && zipEntries == [] && comparison == [] && detail == None
      ensures selected == [] && snack == None && download == None
    {
      zipFile := None;
      zipEntries := [];
      comparison := [];
      detail := None;
      selected := [];
      snack := None;
      download := None;
    }

    /**
     * `onPickZip(file)`: the entries, the comparison and the selection are
     * cleared first; then the file's entries are loaded, or the reader's
     * error is shown.
     */
    method OnPickZip(file: Option<string>, loaded: Result<seq<ZipEntry>, string>)
      modifies this
      ensures zipFile == file && comparison == [] && selected == []
      ensures detail == old(detail) && download == old(download)
      ensures file.None? ==> zipEntries == [] && snack == old(snack)
      ensures file.Some? && loaded.Success? ==>
        zipEntries == loaded.value &&
        snack == Some(ZipDiffPanel.LoadedPrefix + DecimalString(|loaded.value|) + ZipDiffPanel.LoadedSuffix)
      ensures file.Some? && loaded.Failure? ==>
        zipEntries == [] && snack == Some(ZipDiffPanel.ZipError + loaded.error)
    {
      zipFile := file;
      zipEntries := [];
      comparison := [];
      selected := [];
      if file.None? {
        return;
      }
      match loaded {
        case Success(entries) =>
          zipEntries := entries;
          snack := Some(ZipDiffPanel.LoadedPrefix + DecimalString(|entries|) + ZipDiffPanel.LoadedSuffix);
        case Failure(message) =>
          snack := Some(ZipDiffPanel.ZipError + message);
      }
    }

    /**
     * `runCompare`, given what `getTreeRecursive` answered. The "No XML
     * files" message is never shown: a compare runs only with archive
     * entries, and there is one result per entry.
     */
    method RunCompare(props: Props, p: Platform, listing: Result<Option<seq<TreeEntry>>, string>)
      modifies this
      ensures !ZipDiffPanel.CanRun(props, old(zipEntries)) ==> unchanged(this)
      ensures zipFile == old(zipFile) && zipEntries == old(zipEntries)
      ensures detail == old(detail) && download == old(download)
      ensures ZipDiffPanel.CanRun(props, old(zipEntries)) && listing.Failure? ==>
        && comparison == old(comparison) && selected == old(selected)
        && snack == Some(ZipDiffPanel.CompareFailed + listing.error)
      ensures ZipDiffPanel.CanRun(props, old(zipEntries)) && listing.Success? ==>
        && (comparison, selected) == CompareOutcome(p, listing.value, zipEntries)
        && |comparison| == |zipEntries|
        && snack == old(snack)
    {
      if !ZipDiffPanel.CanRun(props, zipEntries) {
        return;
      }
      match listing {
        case Failure(message) =>
          snack := Some(ZipDiffPanel.CompareFailed + message);
        case Success(tree) =>
          comparison, selected, snack := CompareListing(p, tree, zipEntries, snack);
      }
    }

    /**
     * `openDetail(c)`, given what `getBlobRaw` answers (asked only for a
     * non-empty `repoSha`). A "same" result opens a snackbar; any other
     * opens the raw texts, with no normalisation.
     */
    method OpenDetail(p: Platform, c: Comparison, fetched: Result<string, string>)
      modifies this
      ensures zipFile == old(zipFile) && zipEntries == old(zipEntries) && comparison == old(comparison)
      ensures selected == old(selected) && download == old(download)
      ensures c.status == Same ==> detail == old(detail) && snack == Some(IdenticalFile)
      ensures c.status != Same && ZipDiffPanel.Fetches(c) && fetched.Failure? ==>
        detail == old(detail) && snack == Some(ZipDiffPanel.DetailFailed + fetched.error)
      ensures c.status != Same && !(ZipDiffPanel.Fetches(c) && fetched.Failure?) ==>
        detail == Some(Detail(c.path, ZipDiffPanel.RepoRaw(c, fetched), c.zipText)) && snack == old(snack)
    {
      if c.status == Same {
        snack := Some(IdenticalFile);
        return;
      }
      var repoText := "";
      if ZipDiffPanel.Fetches(c) {
        if fetched.Failure? {
          snack := Some(ZipDiffPanel.DetailFailed + fetched.error);
          return;
        }
        repoText := fetched.value;
      }
      detail := Some(Detail(c.path, repoText, c.zipText));
    }

    /** The selection after `toggleSelected(path)`. */
    method ToggleSelected(path: string)
      modifies this
      ensures selected == Toggled(old(selected), path)
      ensures zipFile == old(zipFile) && zipEntries == old(zipEntries) && comparison == old(comparison)
      ensures detail == old(detail) && snack == old(snack) && download == old(download)
    {
      selected := Toggled(selected, path);
    }

    /**
     * `exportSelected`: the selected results as `{ path, text }` in
     * comparison order. An empty list opens a snackbar; without a repo,
     * `repo.name` throws and nothing is downloaded.
     */
    method ExportSelected(props: Props)
      modifies this
      ensures zipFile == old(zipFile) && zipEntries == old(zipEntries) && comparison == old(comparison)
      ensures selected == old(selected) && detail == old(detail)
      ensures ExportFiles(comparison, selected) == [] ==>
        snack == Some(ZipDiffPanel.NothingToExport) && download == old(download)
      ensures ExportFiles(comparison, selected) != [] ==> snack == old(snack)
      ensures ExportFiles(comparison, selected) != [] && props.repo.None? ==> download == old(download)
      ensures ExportFiles(comparison, selected) != [] && props.repo.Some? ==>
        download == Some(ZipDiffPanel.Download(ExportFiles(comparison, selected),
          "export_" + props.repo.value.name + "_" + props.branchRef + ".zip"))
    {
      var files := ExportFiles(comparison, selected);
      if files == [] {
        snack := Some(ZipDiffPanel.NothingToExport);
        return;
      }
      if props.repo.None? {
        return;
      }
      download := Some(ZipDiffPanel.Download(files, "export_" + props.repo.value.name + "_" + props.branchRef + ".zip"));
    }
  }
}
