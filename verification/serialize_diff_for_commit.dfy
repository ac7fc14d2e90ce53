/**
 * src/utils/serializeDiffForCommit.js: the diff results of either panel
 * turned into the `{ path, content }` list a commit is made from. Missing
 * items and deletions are dropped, paths are put under `basePath`, and the
 * content is the first of four optional fields that is not nullish.
 */
module SerializeDiffForCommit {
  import opened Wrappers

  /**
   * One diff result. A field that is `null` or `undefined` is `None`; the
   * empty string is a value like any other.
   */
  datatype DiffItem = DiffItem(
    path: string,
    status: string,
    newContent: Option<string>,
    zipText: Option<string>,
    text: Option<string>,
    content: Option<string>)

  datatype CommitFile = CommitFile(path: string, content: string)

  /** `item && item.status !== "deleted"`. */
  predicate Kept(item: Option<DiffItem>) {
    item.Some? && item.value.status != "deleted"
  }

  /** `a ?? b ?? … ?? ""`: the first field that is present, else the empty string. */
  function FirstPresent(xs: seq<Option<string>>): (r: string)
    ensures (forall i :: 0 <= i < |xs| ==> xs[i].None?) ==> r == ""
    ensures forall k :: 0 <= k < |xs| && xs[k].Some? && (forall i :: 0 <= i < k ==> xs[i].None?) ==>
      r == xs[k].value
  {
    if xs == [] then ""
    else if xs[0].Some? then xs[0].value
    else FirstPresent(xs[1..])
  }

  /** The content of the commit file: `newContent`, then `zipText`, `text`, `content`. */
  function Content(item: DiffItem): string {
    FirstPresent([item.newContent, item.zipText, item.text, item.content])
  }

  /** `basePath ? `${basePath}/${item.path}` : item.path`. */
  function CommitPath(basePath: string, path: string): (r: string)
    ensures basePath == "" ==> r == path
    ensures basePath != "" ==> |r| == |basePath| + 1 + |path| && r[..|basePath| + 1] == basePath + "/" && r[|basePath| + 1..] == path
  {
    if basePath != "" then basePath + "/" + path else path
  }

  function Commit(item: DiffItem, basePath: string): CommitFile {
    CommitFile(CommitPath(basePath, item.path), Content(item))
  }

  /** The number of items that survive the filter. */
  function CountKept(items: seq<Option<DiffItem>>): nat {
    if items == [] then 0
    else CountKept(items[..|items| - 1]) + (if Kept(items[|items| - 1]) then 1 else 0)
  }

  /** The `filter` and `map` over an array of items. */
  function SerializeItems(items: seq<Option<DiffItem>>, basePath: string): (r: seq<CommitFile>)
    ensures |r| == CountKept(items)
    ensures forall f :: f in r ==> exists item :: item in items && Kept(item) && f == Commit(item.value, basePath)
    ensures forall item :: item in items && Kept(item) ==> Commit(item.value, basePath) in r
  {
    if items == [] then []
    else
      var init := items[..|items| - 1];
      var last := items[|items| - 1];
      assert forall item :: item in items <==> item in init || item == last;
      SerializeItems(init, basePath) + (if Kept(last) then [Commit(last.value, basePath)] else [])
  }

  /** `serializeDiffForCommit(diffs, basePath)`; `None` stands for anything that is not an array. */
  function Serialize(diffs: Option<seq<Option<DiffItem>>>, basePath: string): (r: seq<CommitFile>)
    ensures diffs.None? ==> r == []
    ensures diffs.Some? ==> r == SerializeItems(diffs.value, basePath)
  {
    if diffs.None? then [] else SerializeItems(diffs.value, basePath)
  }

  /** Serialising keeps the items' order: it distributes over concatenation. */
  lemma {:induction false} SerializeAppend(a: seq<Option<DiffItem>>, b: seq<Option<DiffItem>>, basePath: string)
    ensures SerializeItems(a + b, basePath) == SerializeItems(a, basePath) + SerializeItems(b, basePath)
    decreases |b|
  {
    if b == [] {
      assert a + b == a;
    } else {
      var b' := b[..|b| - 1];
      assert (a + b)[..|a + b| - 1] == a + b';
      assert (a + b)[|a + b| - 1] == b[|b| - 1];
      SerializeAppend(a, b', basePath);
    }
  }

  /** A deletion or a missing item never reaches the commit list. */
  lemma {:induction false} NoDeletionCommitted(items: seq<Option<DiffItem>>, basePath: string)
    requires forall item :: item in items ==> !Kept(item)
    ensures SerializeItems(items, basePath) == []
  {
    if items != [] {
      var init := items[..|items| - 1];
      assert items[|items| - 1] in items;
      assert forall item :: item in init ==> item in items;
      NoDeletionCommitted(init, basePath);
    }
  }

  /** An item given as an empty string wins over the fields after it. */
  lemma EmptyContentWins(item: DiffItem, rest: string)
    requires item.newContent == Some("") && item.zipText == Some(rest)
    ensures Content(item) == ""
  {
    var xs := [item.newContent, item.zipText, item.text, item.content];
    assert xs[0].Some?;
  }
}
