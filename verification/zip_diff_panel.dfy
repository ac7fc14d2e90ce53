/**
 * src/components/panels/ZipDiffPanel.jsx: compares the XML files of an
 * uploaded archive with one branch. The branch's tree listing becomes a
 * path-to-sha map. An archive entry is "added" when its path has no sha,
 * "same" when the blob name of its normalised text equals that sha, and
 * "modified" otherwise. Every entry that is not "same" is shown and
 * selected; the selection can be exported and any entry opened in a
 * normalised text diff.
 *
 * The network, the archive reader and the diff library are outside the
 * model: what they return is a parameter of the method that awaits them.
 */
module ZipDiffPanel {
  import opened Wrappers
  import opened Encoding
  import opened JsString
  import opened DiffUtils
  import opened CommonUtils
  import opened Comparison

  datatype Repo = Repo(name: string, fullName: string)

  /** `token`, `repo` and `branchRef`; `None` is a repo that is not chosen. */
  datatype Props = Props(token: string, repo: Option<Repo>, branchRef: string)

  /** `detail`: the two texts handed to `diffText` and the two column labels. */
  datatype Detail = Detail(path: string, repoText: string, zipText: string, branchA: string, branchB: string)

  /** A `downloadAsZip(files, name)` call. */
  datatype Download = Download(files: seq<ExportFile>, name: string)

  /** The message of the `TypeError` raised by `tree.tree.filter` when the listing has no `tree`. */
  const TreeMissing: string := "Cannot read properties of undefined (reading 'filter')"

  const LoadedPrefix: string := "Loaded "
  const LoadedSuffix: string := " XML files from ZIP."
  const ZipError: string := "ZIP error: "
  const CompareFailed: string := "Comparison failed: "
  const DetailFailed: string := "Failed to load file details: "
  const Identical: string := "File is identical after normalization."
  const NothingToExport: string := "Nothing to export."

  /** How many archive entries are hashed at a time. */
  const Workers: int := 24

  /** `canRun`. */
  predicate CanRun(props: Props, zipEntries: seq<ZipEntry>) {
    props.token != "" && props.repo.Some? && props.branchRef != "" && |zipEntries| > 0
  }

  /**
   * `new Map(tree.filter((t) => /\.xml$/i.test(t.path)).map((n) => [n.path, n.sha]))`:
   * every XML path of the listing, raw, whatever its type, with the sha of
   * the last node that has it.
   */
  function BlobMap(tree: seq<TreeEntry>): (m: map<string, string>)
    ensures forall k :: k in m <==> HasXmlExtension(k) && exists e :: e in tree && e.path == k
  {
    if tree == [] then map[]
    else
      var init := tree[..|tree| - 1];
      var last := tree[|tree| - 1];
      assert forall e :: e in tree <==> e in init || e == last;
      var m := BlobMap(init);
      if HasXmlExtension(last.path) then m[last.path := last.sha] else m
  }

  /** `tree[j]` is the last node of the listing with path `k`. */
  predicate LastListing(tree: seq<TreeEntry>, k: string, j: int) {
    0 <= j < |tree| && tree[j].path == k && forall i :: j < i < |tree| ==> tree[i].path != k
  }

  /** The sha kept for a path is that of the last node listing it. */
  lemma {:induction false} BlobMapLastWins(tree: seq<TreeEntry>, k: string) returns (j: nat)
    requires k in BlobMap(tree)
    ensures LastListing(tree, k, j) && tree[j].sha == BlobMap(tree)[k]
  {
    var init := tree[..|tree| - 1];
    var last := tree[|tree| - 1];
    if last.path == k {
      j := |tree| - 1;
    } else {
      assert BlobMap(tree)[k] == BlobMap(init)[k];
      j := BlobMapLastWins(init, k);
      assert tree[j] == init[j];
      forall i | j < i < |tree| ensures tree[i].path != k {
        if i < |tree| - 1 {
          assert tree[i] == init[i];
        }
      }
    }
  }

  /** `await gitBlobSha(e.text)`: the blob name of the normalised text. */
  function ZipSha(p: Platform, text: string): string {
    BlobSha(p, Utf8Encode(NormalizeXmlText(p, Some(text))))
  }

  /**
   * The `mapLimit` callback. A missing or empty sha means "added", with the
   * archive text and no hashing. A "same" result carries neither text nor
   * sha, and a "modified" one carries both.
   */
  function Classify(p: Platform, m: map<string, string>, e: ZipEntry): Comparison
  {
    if e.path !in m || m[e.path] == "" then Comparison(e.path, Added, Some(e.text), None)
    else if ZipSha(p, e.text) == m[e.path] then Comparison(e.path, Same, None, None)
    else Comparison(e.path, Modified, Some(e.text), Some(m[e.path]))
  }

  /**
   * What a result of `Classify` says: the path as listed; "added" exactly
   * for a path the map lacks or maps to ""; "same" exactly when the hash of
   * the normalised archive text equals the listed sha, and then without
   * texts; otherwise the archive text, and for "modified" the listed sha.
   */
  lemma ClassifyCases(p: Platform, m: map<string, string>, e: ZipEntry)
    ensures var c := Classify(p, m, e);
      && c.path == e.path
      && (c.status == Added <==> e.path !in m || m[e.path] == "")
      && (c.status == Same <==> e.path in m && m[e.path] != "" && ZipSha(p, e.text) == m[e.path])
      && (c.status == Same ==>
            && c.zipText == None && c.repoSha == None
            && ParseHex(m[e.path]) == Some(p.sha1(BlobFrame(Utf8Encode(NormalizeXmlText(p, Some(e.text)))))))
      && (c.status == Added ==> c.zipText == Some(e.text) && c.repoSha == None)
      && (c.status == Modified ==> c.zipText == Some(e.text) && c.repoSha == Some(m[e.path]))
  {
  }

  /** The results `mapLimit` resolves to: one per archive entry, in archive order. */
  function CompareAll(p: Platform, m: map<string, string>, entries: seq<ZipEntry>): (cs: seq<Comparison>)
    ensures |cs| == |entries|
    ensures forall k :: 0 <= k < |entries| ==> cs[k] == Classify(p, m, entries[k])
  {
    seq(|entries|, k requires 0 <= k < |entries| => Classify(p, m, entries[k]))
  }

  /** Two archive texts that normalise alike are classified alike. */
  lemma ClassifyNormalized(p: Platform, m: map<string, string>, path: string, a: string, b: string)
    requires NormalizeXmlText(p, Some(a)) == NormalizeXmlText(p, Some(b))
    ensures Classify(p, m, ZipEntry(path, a)).status == Classify(p, m, ZipEntry(path, b)).status
  {
    assert ZipSha(p, a) == ZipSha(p, b);
    ClassifyCases(p, m, ZipEntry(path, a));
    ClassifyCases(p, m, ZipEntry(path, b));
  }

  /**
   * A repository blob whose text is already normal is "same" as every
   * archive text that normalises to it.
   */
  lemma SameAsNormalRepoBlob(p: Platform, m: map<string, string>, e: ZipEntry, raw: string)
    requires e.path in m && m[e.path] == BlobSha(p, Utf8Encode(raw))
    requires NormalizeXmlText(p, Some(raw)) == raw
    requires NormalizeXmlText(p, Some(e.text)) == raw
    ensures Classify(p, m, e).status == Same
  {
    assert |m[e.path]| == 40;
  }

  /**
   * Barring a SHA-1 collision between the two frames, "same" means the
   * normalised archive text has exactly the repository blob's bytes.
   */
  lemma SameMeansSameBytes(p: Platform, m: map<string, string>, e: ZipEntry, blob: seq<byte>)
    requires e.path in m && m[e.path] == BlobSha(p, blob)
    requires var z := Utf8Encode(NormalizeXmlText(p, Some(e.text)));
      p.sha1(BlobFrame(z)) == p.sha1(BlobFrame(blob)) ==> BlobFrame(z) == BlobFrame(blob)
    requires Classify(p, m, e).status == Same
    ensures Utf8Encode(NormalizeXmlText(p, Some(e.text))) == blob
  {
    var z := Utf8Encode(NormalizeXmlText(p, Some(e.text)));
    BlobShaDeterminesDigest(p, z, blob);
    FrameInjective(z, blob);
  }

  /** The panel's state. */
  class Panel {
    var zipEntries: seq<ZipEntry>
    var comparison: seq<Comparison>
    var detail: Option<Detail>
    var selected: seq<string>
    /** The message of the last snackbar opened. */
    var snack: Option<string>
    /** The last archive handed to `downloadAsZip`. */
    var download: Option<Download>

    constructor()
      ensures zipEntries == [] && comparison == [] && detail == None && selected == []
      ensures snack == None && download == None
    {
      zipEntries := [];
      comparison := [];
      detail := None;
      selected := [];
      snack := None;
      download := None;
    }

    /**
     * The `zipFile` effect: nothing without a file; otherwise the entries
     * read from it replace the old ones, or the reader's error is shown.
     * The previous comparison and selection stay as they were.
     */
    method LoadZip(hasZipFile: bool, loaded: Result<seq<ZipEntry>, string>)
      modifies this
      ensures !hasZipFile ==> unchanged(this)
      ensures hasZipFile && loaded.Success? ==>
        zipEntries == loaded.value && snack == Some(LoadedPrefix + DecimalString(|loaded.value|) + LoadedSuffix)
      ensures hasZipFile && loaded.Failure? ==>
        zipEntries == old(zipEntries) && snack == Some(ZipError + loaded.error)
      ensures comparison == old(comparison) && selected == old(selected)
      ensures detail == old(detail) && download == old(download)
    {
      if !hasZipFile {
        return;
      }
      match loaded {
        case Success(entries) =>
          zipEntries := entries;
          snack := Some(LoadedPrefix + DecimalString(|entries|) + LoadedSuffix);
        case Failure(message) =>
          snack := Some(ZipError + message);
      }
    }

    /**
     * `runCompare`, given what `getTreeRecursive` answered. The results
     * replace the comparison and the changed paths become the selection;
     * a failed listing only opens a snackbar.
     */
    method RunCompare(props: Props, p: Platform, listing: Result<Option<seq<TreeEntry>>, string>)
      modifies this
      ensures !CanRun(props, old(zipEntries)) ==> unchanged(this)
      ensures zipEntries == old(zipEntries) && detail == old(detail) && download == old(download)
      ensures CanRun(props, old(zipEntries)) && listing.Failure? ==>
        comparison == old(comparison) && selected == old(selected) && snack == Some(CompareFailed + listing.error)
      ensures CanRun(props, old(zipEntries)) && listing == Success(None) ==>
        comparison == old(comparison) && selected == old(selected) && snack == Some(CompareFailed + TreeMissing)
      ensures CanRun(props, old(zipEntries)) && listing.Success? && listing.value.Some? ==>
        && comparison == CompareAll(p, BlobMap(listing.value.value), zipEntries)
        && selected == ChangedPaths(comparison)
        && snack == old(snack)
    {
      if !CanRun(props, zipEntries) {
        return;
      }
      match listing {
        case Failure(message) =>
          snack := Some(CompareFailed + message);
        case Success(None) =>
          snack := Some(CompareFailed + TreeMissing);
        case Success(Some(tree)) =>
          var m := BlobMap(tree);
          var mapper: (ZipEntry, nat) -> Result<Comparison, string> := (e, k) => Success(Classify(p, m, e));
          var r;
          ghost var claims;
          r, claims := MapLimit(zipEntries, Workers, mapper);
          assert r.Success?;
          assert r.value == CompareAll(p, m, zipEntries);
          comparison := r.value;
          selected := ChangedPaths(r.value);
      }
    }

    /**
     * `openDetail(c)`, given what `getBlobRaw` answers (it is asked only
     * when `c.repoSha` is a non-empty string; otherwise the repository text
     * is ""). Texts equal after normalisation open a snackbar instead of a
     * diff.
     */
    method OpenDetail(props: Props, p: Platform, c: Comparison, fetched: Result<string, string>)
      modifies this
      ensures zipEntries == old(zipEntries) && comparison == old(comparison) && selected == old(selected)
      ensures download == old(download)
      ensures Fetches(c) && fetched.Failure? ==>
        detail == old(detail) && snack == Some(DetailFailed + fetched.error)
      ensures !(Fetches(c) && fetched.Failure?) && DiffFor(props, p, c, RepoRaw(c, fetched)).None? ==>
        detail == old(detail) && snack == Some(Identical)
      ensures !(Fetches(c) && fetched.Failure?) && DiffFor(props, p, c, RepoRaw(c, fetched)).Some? ==>
        detail == DiffFor(props, p, c, RepoRaw(c, fetched)) && snack == old(snack)
    {
      var repoRaw := "";
      if Fetches(c) {
        if fetched.Failure? {
          snack := Some(DetailFailed + fetched.error);
          return;
        }
        repoRaw := fetched.value;
      }
      var d := DiffFor(props, p, c, repoRaw);
      if d.None? {
        snack := Some(Identical);
        return;
      }
      detail := d;
    }

    /**
     * `exportSelected`: the selected results as `{ path, text }` in
     * comparison order. An empty list opens a snackbar; without a repo,
     * `repo.name` throws and nothing is downloaded.
     */
    method ExportSelected(props: Props)
      modifies this
      ensures zipEntries == old(zipEntries) && comparison == old(comparison) && selected == old(selected)
      ensures detail == old(detail)
      ensures ExportFiles(comparison, selected) == [] ==>
        snack == Some(NothingToExport) && download == old(download)
      ensures ExportFiles(comparison, selected) != [] ==> snack == old(snack)
      ensures ExportFiles(comparison, selected) != [] && props.repo.None? ==> download == old(download)
      ensures ExportFiles(comparison, selected) != [] && props.repo.Some? ==>
        download == Some(Download(ExportFiles(comparison, selected),
          "export_" + props.repo.value.name + "_" + props.branchRef + ".zip"))
    {
      var files := ExportFiles(comparison, selected);
      if files == [] {
        snack := Some(NothingToExport);
        return;
      }
      if props.repo.None? {
        return;
      }
      download := Some(Download(files, "export_" + props.repo.value.name + "_" + props.branchRef + ".zip"));
    }
  }

  /** `openDetail` asks for the repository blob only for a non-empty `repoSha`. */
  predicate Fetches(c: Comparison) {
    c.repoSha.Some? && c.repoSha.value != ""
  }

  /** The repository text `openDetail` compares with. */
  function RepoRaw(c: Comparison, fetched: Result<string, string>): string
    requires !(Fetches(c) && fetched.Failure?)
  {
    if Fetches(c) then fetched.value else ""
  }

  /** The label of the archive side of the diff dialog. */
  const ZipLabel: string := "ZIP"

  /**
   * The diff `openDetail` opens on the normalised texts, or `None` when
   * they agree and a snackbar is opened instead.
   */
  function DiffFor(props: Props, p: Platform, c: Comparison, repoRaw: string): Option<Detail> {
    var repoText := NormalizeXmlText(p, Some(repoRaw));
    var zipText := NormalizeXmlText(p, c.zipText);
    if repoText == zipText then None else Some(Detail(c.path, repoText, zipText, props.branchRef, ZipLabel))
  }

  /**
   * Opening an "added" result compares its text with the empty string: it
   * shows a diff exactly when the normalised archive text is not empty.
   */
  lemma OpenAddedShowsDiff(props: Props, p: Platform, c: Comparison, fetched: Result<string, string>)
    requires c.status == Added && c.repoSha == None
    ensures !Fetches(c)
    ensures DiffFor(props, p, c, RepoRaw(c, fetched)).None? <==> NormalizeXmlText(p, c.zipText) == ""
    ensures DiffFor(props, p, c, RepoRaw(c, fetched)).Some? ==>
      DiffFor(props, p, c, RepoRaw(c, fetched)).value.repoText == ""
  {
  }
}
