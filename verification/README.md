# github-GUI: the XML diff engine, modelled in Dafny

github-GUI is a React front end that compares the XML files of a GitHub
repository with each other (two branches) or with the XML files of an
uploaded ZIP archive. It shows the files that differ and can export them
or commit them. This project models the part of it that decides things:

- **git blob naming** (`src/utils/diffUtils.js`). Git's loose-object
  frame is `"blob " + decimal byte length + NUL + bytes`, as in Pro Git,
  section 10.2 "Git Objects". The frame is assembled in a fresh buffer
  and hashed with SHA-1 (FIPS 180-4). The result is rendered as 40
  lowercase hex digits.
- **text normalisation** (`normalizeXmlText`). This covers the optional
  mojibake repair, CRLF to LF, dropping trailing blanks, collapsing the
  final newlines, and `trimStart`.
- **archive-against-branch comparison**, in both versions:
  - `src/components/panels/ZipDiffPanel.jsx`;
  - the older `ZipComparePanel` of `src/App.jsx`.

  Each builds a path-to-sha map from the branch's tree listing. Each
  archive entry is classified as added, same or modified. The changed
  paths become the selection, and the selection can be exported or
  opened in a diff.
- **the bounded-concurrency `mapLimit`**, the `.xml` filter and
  `normalizePath` (`src/utils/commonUtils.js`).
- **the two tree builders**:
  - `buildFileTree` (`src/utils/fileTreeUtils.js`);
  - `buildTreeFromDiffs` (`src/utils/buildTreeFromDiffs.js`), which
    throws when a path goes below a file.
- **the file-tree checkbox logic** of `src/components/FileTreeView.jsx`.
- **the commit payload** of `src/utils/serializeDiffForCommit.js`.
- **the whitespace view** of `src/components/DiffDialog.jsx`.
- **the branch slots** of `src/components/RepoBranchPicker.jsx`.

## How the model is built

**Abstract primitives.** SHA-1 and the browser's UTF-8 decoder are not
written out. They are the fields `sha1` and `decodeUtf8` of a `Platform`
value that every hashing member takes as a parameter, so each property
holds for every hash function and decoder. UTF-8 encoding, decimal and
hex rendering, and the frame itself are written out and proved:
- the frame reads back to its content;
- the hex name parses back to its digest.

**Trees.** The nested JavaScript objects are kept flat: a map from
segment paths (`seq<string>`) to nodes, plus the order in which nodes
were created. The order is what `Object.values` and `Object.entries`
iterate in. The `current` pointer of the source's loops is the prefix
path reached so far.

**Loops.** Each loop is a method proved equal to a function, and the
properties are proved about that function.

**Component state.** Each component with state is a class whose fields
are its `useState` values. What an awaited network or archive call
returns is a parameter of the method that awaits it.

**Where the code and the design intent differ, the model follows the
code:**
- **Normalisation is not idempotent in general.**
  - A line ending in `"\r\r\n"` becomes `"\r\n"` on one pass and `"\n"`
    on the next (`DiffUtils.NotIdempotentOnCarriageReturns`).
  - Idempotence holds for text without carriage returns or mojibake
    trigger letters (`DiffUtils.NormalizeIdempotent`).
- **The two panels hash different things.**
  - `ZipDiffPanel.jsx` hashes the *normalised* archive text.
  - `App.jsx` hashes the *raw* text.
  - So a line ending in a blank is "same" in one panel and "modified" in
    the other (`App.PanelsDisagree`).
  - `gitBlobShaFromBytes` disagrees with `gitBlobSha` in the same way
    (`DiffUtils.TrailingBlankSplitsHashes`).
- **`App.jsx` never shows its "No XML files" message.** A compare runs
  only with archive entries, and `mapLimit` yields one result per entry
  (`App.CompareListing`).
- **`buildTreeFromDiffs` keeps the first diff at a path, drops a file
  whose path is already a folder, and throws** (reading `children` of a
  file) for a path below an earlier file. `buildFileTree` keeps both
  (`FileTreeUtils.FileAndFolder` versus `BuildTreeFromDiffs.FileThenDeeper`).

## Model

| member | source | states |
|---|---|---|
| Encoding.CharBytes | src/utils/diffUtils.js:45-46 | A character encodes to one to four bytes, one exactly when it is ASCII, and an ASCII character encodes as its own code |
| Encoding.Utf8Encode | src/utils/diffUtils.js:45-46 | The encoding of a string has at least one byte per character |
| Encoding.Utf8EncodeAppend | src/utils/diffUtils.js:45-46 | Encoding a concatenation is concatenating the encodings |
| Encoding.AsciiEncoding | src/utils/diffUtils.js:49 | ASCII text (the blob header) encodes to its character codes, one byte each |
| Encoding.Utf16Units | src/utils/diffUtils.js:23 | A string has at least one UTF-16 code unit per character, each below 0x10000 |
| Encoding.LowBytes | src/utils/diffUtils.js:23 | `Uint8Array.from` of code units keeps one byte per unit: the unit modulo 256 |
| Encoding.DecimalString | src/utils/diffUtils.js:49 | The length in the header is a non-empty string of decimal digits without a leading zero |
| Encoding.DecimalRoundTrip | src/utils/diffUtils.js:49 | The decimal rendering of a length parses back to that length |
| Encoding.DigitsOfDecimal | src/utils/diffUtils.js:49 | The digits of the rendering have the value of the number |
| Encoding.HexDigit | src/utils/diffUtils.js:57 | Each hex digit parses back to its value |
| Encoding.HexByte | src/utils/diffUtils.js:57 | `padStart(2, "0")` of a byte's base-16 form is two lowercase hex digits |
| Encoding.HexString | src/utils/diffUtils.js:56-58 | The digest is rendered as two lowercase hex digits per byte |
| Encoding.HexRoundTrip | src/utils/diffUtils.js:56-58 | The hex rendering of a digest parses back to the digest |
| JsString.TrimStart | src/utils/diffUtils.js:37 | `trimStart` keeps the longest suffix that does not start with whitespace and removes only whitespace |
| JsString.CountAppend | src/components/DiffDialog.jsx:13 | Line breaks in a concatenation are those of its two parts |
| JsString.Split | src/utils/fileTreeUtils.js:4 | `split("/")` gives at least one segment and no segment holds the separator |
| JsString.JoinSplit | src/utils/fileTreeUtils.js:4 | Joining the segments with "/" gives back the path |
| JsString.SplitInjective | src/utils/buildTreeFromDiffs.js:30 | Different paths split into different segment lists |
| JsArray.Without | src/components/FileTreeView.jsx:74 | `filter((p) => p !== x)` keeps exactly the other members, in a list never longer |
| JsArray.WithoutAll | src/components/FileTreeView.jsx:150 | Filtering out a list keeps exactly the members not in it |
| JsArray.WithoutAllNothing | src/components/FileTreeView.jsx:150 | Filtering out members that are absent leaves the list as it was |
| JsArray.Every | src/components/FileTreeView.jsx:105 | `every(includes)` holds exactly when every member is included |
| JsArray.Any | src/components/FileTreeView.jsx:109 | `some(includes)` holds exactly when some member is included |
| JsArray.Dedup | src/components/FileTreeView.jsx:151 | `[...new Set(...)]` has the same members, each once, and is never longer |
| JsArray.DedupPrefix | src/components/FileTreeView.jsx:151 | The set of a list extended keeps the first-occurrence order of the original as its prefix |
| JsArray.DedupDistinct | src/components/FileTreeView.jsx:151 | A list without repetitions goes through a `Set` unchanged |
| CommonUtils.MapLimit | src/utils/commonUtils.js:1-14 | A negative `min(limit, n)` rejects with a RangeError and zero resolves to []. Otherwise each index is claimed once, in increasing order; the call resolves exactly when every mapper call succeeds, to their results in item order, and a rejection carries the reason of the first failing index, before which all succeeded |
| CommonUtils.XmlEntries | src/utils/commonUtils.js:17 | Keeps only entries whose filename ends in ".xml" (any case), and every such entry, never lengthening the list |
| CommonUtils.XmlEntriesAppend | src/utils/commonUtils.js:17 | The filter keeps the order: it distributes over concatenation |
| CommonUtils.OnlyXmlFiles | src/utils/commonUtils.js:16-18 | A nullish list gives [], any other the `.xml` filter |
| CommonUtils.XmlEntriesIdempotent | src/utils/commonUtils.js:17 | Filtering twice is filtering once |
| CommonUtils.StripLeadingSlashes | src/utils/commonUtils.js:21 | `replace(/^\/+/, "")` removes only slashes and leaves no leading slash |
| CommonUtils.SlashesForBackslashes | src/utils/commonUtils.js:21 | Every backslash becomes "/" and every other character stays |
| CommonUtils.NormalizePath | src/utils/commonUtils.js:20-22 | The result has no backslash, is never longer, and starts with "/" exactly when the slash-stripped input started with a backslash |
| CommonUtils.NormalizePathIdempotent | src/utils/commonUtils.js:20-22 | Unless a backslash follows the leading slashes, a second pass changes nothing |
| CommonUtils.LeadingBackslashSurvives | src/utils/commonUtils.js:21 | "\\a" normalises to "/a" and "/a" to "a": the function is not idempotent in general |
| PathTree.EmptyValid | src/utils/fileTreeUtils.js:2 | The empty root is a well-formed tree |
| PathTree.Add | src/utils/fileTreeUtils.js:8 | `if (!current[part]) current[part] = ...` adds one path, keeps every existing node as it was, and sets a new node's value |
| PathTree.AddValid | src/utils/fileTreeUtils.js:8 | Adding a node below existing nodes keeps the tree well formed |
| PathTree.Set | src/utils/fileTreeUtils.js:10 | Assigning a field of one node changes that node only, not the shape |
| PathTree.SetValid | src/utils/fileTreeUtils.js:10 | Assigning a node's value keeps the tree well formed |
| PathTree.Children | src/components/FileTreeView.jsx:38-39 | `Object.values(children)` lists exactly the children of a node, in creation order |
| PathTree.ChildIsNode | src/components/FileTreeView.jsx:38-39 | Each listed child is a node one level below |
| PathTree.GatherAllMembers | src/components/FileTreeView.jsx:38-40 | A value is met by the walk over the children exactly when it is met below one of them |
| PathTree.GatherSound | src/components/FileTreeView.jsx:35-43 | Every value a depth-first walk from a node meets comes from a node at or below it |
| PathTree.GatherComplete | src/components/FileTreeView.jsx:35-43 | On a well-formed tree the walk meets the value of every node below its start |
| PathTree.GatherMembers | src/components/FileTreeView.jsx:35-43 | Both directions together |
| FileTreeUtils.Parts | src/utils/fileTreeUtils.js:4 | A file's path has at least one segment |
| FileTreeUtils.BuildFileTree | src/utils/fileTreeUtils.js:1-16 | The nested loops build the tree of inserting each file in turn; no files give an empty root |
| FileTreeUtils.InsertFromValid | src/utils/fileTreeUtils.js:6-13 | Inserting a file keeps the tree well formed |
| FileTreeUtils.FileTreeValid | src/utils/fileTreeUtils.js:1-16 | Every built tree is well formed |
| FileTreeUtils.InsertFromEffect | src/utils/fileTreeUtils.js:6-13 | The inner loop adds exactly the prefixes it walks, places the file on its own path, keeps every other node's value and creates folders elsewhere |
| FileTreeUtils.InsertFileEffect | src/utils/fileTreeUtils.js:3-14 | The same for one whole file from the root |
| FileTreeUtils.NodesArePrefixes | src/utils/fileTreeUtils.js:1-16 | A path is a node exactly when it is a non-empty segment prefix of some file's path |
| FileTreeUtils.FileOnItsOwnPath | src/utils/fileTreeUtils.js:9-11 | A node holding a file holds one of the inputs, and that file's path leads to it |
| FileTreeUtils.LastFileWins | src/utils/fileTreeUtils.js:9-11 | Of several files with one path, the node holds the last |
| FileTreeUtils.NodesPersist | src/utils/fileTreeUtils.js:8 | Later files never remove a node |
| FileTreeUtils.FileAndFolder | src/utils/fileTreeUtils.js:8-12 | After "a" and "a/b" the node "a" keeps its file and has "a/b" as a child |
| FileTreeView.CollectAllFilePaths | src/components/FileTreeView.jsx:35-43 | The recursive collection is the depth-first walk of the node's own file path and its children's |
| FileTreeView.CollectedPaths | src/components/FileTreeView.jsx:35-43 | On a built tree, a folder collects exactly the paths of the input files below it |
| FileTreeView.CollectedSound | src/components/FileTreeView.jsx:35-43 | Each collected path belongs to an input file below the folder |
| FileTreeView.CollectedComplete | src/components/FileTreeView.jsx:35-43 | Each input file below the folder is collected |
| FileTreeView.LastWithPath | src/utils/fileTreeUtils.js:10 | Finds the last input with a given path, which is the one a node keeps |
| FileTreeView.FolderState | src/components/FileTreeView.jsx:102-109 | A folder's box is disabled exactly when it has no files, checked exactly when all are selected, indeterminate exactly when some but not all are, and never both |
| FileTreeView.ToggleFolder | src/components/FileTreeView.jsx:142-153 | Without files nothing changes; all selected removes them; otherwise it adds them after the previous selection, without repetitions |
| FileTreeView.ToggleFolderFlips | src/components/FileTreeView.jsx:142-153 | A folder click flips the folder's checked state, leaves it not indeterminate, and keeps every path outside the folder as it was |
| FileTreeView.ToggleFolderTwice | src/components/FileTreeView.jsx:146-151 | Deselecting a fully selected folder and selecting it again gives back the same set |
| FileTreeView.ToggleFile | src/components/FileTreeView.jsx:71-77 | Unchecking removes the path and nothing else; checking appends it |
| FileTreeView.ToggleFileFlips | src/components/FileTreeView.jsx:54-77 | When the box shows the selection, a click flips exactly that path |
| FileTreeView.RowFor | src/components/FileTreeView.jsx:46-52 | A child named "__..." draws nothing; otherwise a row with its name, a file row exactly when the node holds a file |
| FileTreeView.RenderRows | src/components/FileTreeView.jsx:45-47 | At most one row per child, none hidden, and the row of each visible child is drawn |
| FileTreeView.FileNodeHidesChildren | src/components/FileTreeView.jsx:49-52 | A node holding a file never gets a folder row, so its children are never drawn |
| FileTreeView.FolderRowNode | src/components/FileTreeView.jsx:165-172 | A folder row refers to the node it was drawn for |
| FileTreeView.FolderRowsOfInit | src/components/FileTreeView.jsx:45-47 | Folder rows only refer to the children being drawn |
| FileTreeView.ToggleFolderOpen | src/components/FileTreeView.jsx:30-32 | Flips the open state of one folder and of no other |
| BuildTreeFromDiffs.BuildTree | src/utils/buildTreeFromDiffs.js:26-58 | No diffs give []; the call throws exactly when inserting the diffs in turn does, with the same error; otherwise it returns the converted array of a well-formed tree |
| BuildTreeFromDiffs.InsertOne | src/utils/buildTreeFromDiffs.js:30-44 | The inner `forEach` computes the insertion of one diff |
| BuildTreeFromDiffs.FailureSticks | src/utils/buildTreeFromDiffs.js:29-45 | Once an insertion throws, the whole call throws that error |
| BuildTreeFromDiffs.InsertFromEffect | src/utils/buildTreeFromDiffs.js:33-44 | A successful walk adds exactly the prefixes it passes, keeps existing nodes and leaves the path walkable |
| BuildTreeFromDiffs.InsertFromNodes | src/utils/buildTreeFromDiffs.js:36-40 | The same without the walkable precondition |
| BuildTreeFromDiffs.InsertFromKeys | src/utils/buildTreeFromDiffs.js:36-40 | A path is a node after the walk exactly when it was one before or is a prefix the walk passed |
| BuildTreeFromDiffs.InsertFromKeysAt | src/utils/buildTreeFromDiffs.js:36-40 | The same for one given path |
| BuildTreeFromDiffs.InsertFromKeeps | src/utils/buildTreeFromDiffs.js:36 | An existing node is never replaced |
| BuildTreeFromDiffs.InsertFromNew | src/utils/buildTreeFromDiffs.js:36-40 | A node the walk created is a file node for the last segment and a folder otherwise |
| BuildTreeFromDiffs.InsertFromNewAt | src/utils/buildTreeFromDiffs.js:36-40 | The same for one given node |
| BuildTreeFromDiffs.InsertFromWalkable | src/utils/buildTreeFromDiffs.js:43 | After a successful walk every proper prefix of the path is a folder |
| BuildTreeFromDiffs.InsertFromFailure | src/utils/buildTreeFromDiffs.js:34-43 | A walk throws only when a proper prefix of the path is a file node |
| BuildTreeFromDiffs.WalkableUnchanged | src/utils/buildTreeFromDiffs.js:36 | Walking a path that can already be walked changes nothing |
| BuildTreeFromDiffs.DescentThroughFile | src/utils/buildTreeFromDiffs.js:43 | A walk that must go below a file node throws |
| BuildTreeFromDiffs.WalkableGrows | src/utils/buildTreeFromDiffs.js:36 | A walkable path stays walkable when the tree only grows |
| BuildTreeFromDiffs.InsertFromValid | src/utils/buildTreeFromDiffs.js:36-40 | Insertion keeps the tree well formed |
| BuildTreeFromDiffs.NamedKept | src/utils/buildTreeFromDiffs.js:37-39 | Every node stays named by its last segment |
| BuildTreeFromDiffs.FilesRecordedKept | src/utils/buildTreeFromDiffs.js:38 | Every file node records one of the diffs, whose path leads to it |
| BuildTreeFromDiffs.FoldersLeadKept | src/utils/buildTreeFromDiffs.js:39 | Every folder lies strictly above some diff's path |
| BuildTreeFromDiffs.AllWalkableKept | src/utils/buildTreeFromDiffs.js:43 | Every inserted diff's path stays walkable |
| BuildTreeFromDiffs.FilesAreLeavesKept | src/utils/buildTreeFromDiffs.js:34-43 | No node ever lies below a file node |
| BuildTreeFromDiffs.NothingBelowFile | src/utils/buildTreeFromDiffs.js:34-43 | After an insertion, a node below a file node is that node |
| BuildTreeFromDiffs.DiffTreeGood | src/utils/buildTreeFromDiffs.js:29-45 | A successfully built tree has all five properties above |
| BuildTreeFromDiffs.DiffTreeValid | src/utils/buildTreeFromDiffs.js:29-45 | A successfully built tree is well formed |
| BuildTreeFromDiffs.ExistingPathIgnored | src/utils/buildTreeFromDiffs.js:36 | A diff whose path is already a node changes nothing: a later duplicate or a file over a folder is dropped |
| BuildTreeFromDiffs.FirstDiffWins | src/utils/buildTreeFromDiffs.js:36 | A diff repeating an earlier path changes nothing |
| BuildTreeFromDiffs.ThrowsIffBelowFile | src/utils/buildTreeFromDiffs.js:34-43 | The next diff throws exactly when a proper prefix of its path is a file node, and the error names that diff |
| BuildTreeFromDiffs.FailureError | src/utils/buildTreeFromDiffs.js:43 | The only error is the one of the diff being inserted |
| BuildTreeFromDiffs.FileThenDeeper | src/utils/buildTreeFromDiffs.js:34-43 | "a" followed by "a/b" throws |
| BuildTreeFromDiffs.ThrowsBelowEarlierDiff | src/utils/buildTreeFromDiffs.js:34-43 | An insertion throws only below the path of an earlier diff |
| BuildTreeFromDiffs.NoNestingSucceeds | src/utils/buildTreeFromDiffs.js:29-45 | When no path lies below another, the build never throws |
| BuildTreeFromDiffs.NoChildrenBelowFile | src/utils/buildTreeFromDiffs.js:48-55 | A file node of a built tree has no children to convert |
| BuildTreeFromDiffs.ConvertToArray | src/utils/buildTreeFromDiffs.js:48-55 | `convertToArray`: the children of a node as an array in creation order, each folder's children converted in turn; its file paths are stated by `BuildTreeFromDiffs.LeavesOfConvert` |
| BuildTreeFromDiffs.LeavesOfConvert | src/utils/buildTreeFromDiffs.js:48-55 | The file paths of `convertToArray`'s output are, depth first, those of the file nodes below |
| BuildTreeFromDiffs.LeavesOfChildren | src/utils/buildTreeFromDiffs.js:49 | The same for a list of children |
| BuildTreeFromDiffs.LeavesOfNode | src/utils/buildTreeFromDiffs.js:50-53 | The same for one converted node |
| BuildTreeFromDiffs.LeavesAreInputPaths | src/utils/buildTreeFromDiffs.js:1-58 | When no path lies below another, the build succeeds and the array's file paths are exactly the input paths |
| BuildTreeFromDiffs.LeafOfTreeIsInput | src/utils/buildTreeFromDiffs.js:48-55 | Every leaf of the array holds the path of one of the diffs |
| BuildTreeFromDiffs.InputIsLeafOfTree | src/utils/buildTreeFromDiffs.js:48-55 | With no nesting, every diff's path is a leaf of the array |
| BuildTreeFromDiffs.LeafIsInput | src/utils/buildTreeFromDiffs.js:38 | A file node holds the path of one of the diffs |
| BuildTreeFromDiffs.InputIsLeaf | src/utils/buildTreeFromDiffs.js:36-40 | With no nesting, each diff ends at a file node holding its path |
| SerializeDiffForCommit.FirstPresent | src/utils/serializeDiffForCommit.js:18-23 | `??` chains give "" when nothing is present, else the first present field, even an empty string |
| SerializeDiffForCommit.CommitPath | src/utils/serializeDiffForCommit.js:15 | With a base path the result is base, "/", path; without, the path alone |
| SerializeDiffForCommit.SerializeItems | src/utils/serializeDiffForCommit.js:12-26 | One commit file per present, non-deleted item, each the commit of such an item, and every such item's commit present |
| SerializeDiffForCommit.Serialize | src/utils/serializeDiffForCommit.js:9-27 | A non-array gives []; an array gives its serialised items |
| SerializeDiffForCommit.SerializeAppend | src/utils/serializeDiffForCommit.js:12-26 | Serialising keeps the items' order |
| SerializeDiffForCommit.NoDeletionCommitted | src/utils/serializeDiffForCommit.js:13 | Deletions and missing items never reach the commit |
| SerializeDiffForCommit.EmptyContentWins | src/utils/serializeDiffForCommit.js:19-20 | An empty `newContent` wins over the archive text |
| DiffDialog.ReplaceAll | src/components/DiffDialog.jsx:11-13 | A global replace leaves no occurrence of the pattern and keeps every other character's presence |
| DiffDialog.ReplaceAllAppend | src/components/DiffDialog.jsx:11-13 | A global replace of one character distributes over concatenation |
| DiffDialog.GlyphsHideBlanks | src/components/DiffDialog.jsx:11-12 | No blank and no tab is left in the shown text |
| DiffDialog.GlyphCount | src/components/DiffDialog.jsx:11-13 | A character is shown as one code unit, a line break as two that keep the break |
| DiffDialog.GlyphsCountBreaks | src/components/DiffDialog.jsx:13 | Every line break is kept and adds exactly one code unit |
| DiffDialog.GlyphsMarkBreaks | src/components/DiffDialog.jsx:13 | Every shown line break comes right after a '↵' |
| DiffDialog.VisualizeWhitespace | src/components/DiffDialog.jsx:8-14 | Off returns the value as is; on shows a nullish value as "" and marks blanks, tabs and breaks |
| DiffDialog.ThreePassesAreOne | src/components/DiffDialog.jsx:11-13 | No pass produces a character a later pass replaces, so the three passes are one per-character mapping |
| DiffDialog.UnvisualizeGlyphs | src/components/DiffDialog.jsx:11-13 | Text holding none of the marks can be read back from its shown form |
| DiffUtils.NoTriggerBelowC1 | src/utils/diffUtils.js:20 | Text below U+00C1 never triggers the mojibake repair |
| DiffUtils.StripBom | src/utils/diffUtils.js:17 | `replace(/^\uFEFF/, "")` removes one leading byte-order mark; `DiffUtils.NormalizedShape` and `DiffUtils.OneBomRemoved` state its effect |
| DiffUtils.RepairMojibake | src/utils/diffUtils.js:20-28 | Only text with a trigger letter is re-decoded, from the low bytes of its code units; `DiffUtils.NoRepairNeeded` states when it is skipped |
| DiffUtils.CrlfToLf | src/utils/diffUtils.js:32 | CRLF to LF removes only carriage returns, never lengthens the text and changes nothing without them; which carriage returns go (exactly those before a line feed) is stated by `DiffUtils.CrlfToLfIsFilter` and `DiffUtils.LoneCrKept` |
| DiffUtils.DropPairedCr | src/utils/diffUtils.js:32 | The reference filter: drops each carriage return that stands right before a line feed and keeps every other character in order; `DiffUtils.CrlfToLfIsFilter` ties it to CRLF to LF |
| DiffUtils.CrlfToLfIsFilter | src/utils/diffUtils.js:32 | `replace(/\r\n/g, "\n")` equals that filter: only the carriage return of each CRLF pair goes, and a lone carriage return stays |
| DiffUtils.LoneCrKept | src/utils/diffUtils.js:32 | Text without line feeds, carriage returns included, passes CRLF to LF unchanged |
| DiffUtils.TrailingNewlines | src/utils/diffUtils.js:34 | Counts exactly the newlines that end the text |
| DiffUtils.NormalizeXmlText | src/utils/diffUtils.js:11-12 | `null`, `undefined` and "" normalise to "" |
| DiffUtils.NormalizedShape | src/utils/diffUtils.js:11-38 | The normalised text starts with neither whitespace nor a byte-order mark, has no blank before a line end and never ends in two newlines |
| DiffUtils.CleanUpShape | src/utils/diffUtils.js:31-37 | The rewrites after the repair leave that shape whatever they are given |
| DiffUtils.StripKeepsFirst | src/utils/diffUtils.js:33 | Stripping trailing blanks keeps a first character that does not start a trailing run |
| DiffUtils.StripLeavesNoBlank | src/utils/diffUtils.js:33 | After `/[ \t]+$/gm` no blank stands before a line end |
| DiffUtils.StripTrailingBlanks | src/utils/diffUtils.js:33 | `replace(/[ \t]+$/gm, "")`; its meaning is stated by `DiffUtils.StripRemovesOnlyBlanks`, `DiffUtils.StripLinesApart`, `DiffUtils.BlanksBeforeWordKept` and `DiffUtils.StripLeavesNoBlank` |
| DiffUtils.StripRemovesOnlyBlanks | src/utils/diffUtils.js:33 | Only spaces and tabs are removed: the text without blanks is the same before and after, in order |
| DiffUtils.BlanksToLineEndAppend | src/utils/diffUtils.js:33 | Where `$` with the m flag matches: text followed by a line break has a blank run to a line end exactly when it had one or is all blanks |
| DiffUtils.AllBlanksToLineEnd | src/utils/diffUtils.js:33 | A run of blanks that ends the text ends its line |
| DiffUtils.StripLinesApart | src/utils/diffUtils.js:33 | Lines are stripped independently: splitting at a line terminator and stripping each part gives the same text |
| DiffUtils.BlanksBeforeWord | src/utils/diffUtils.js:33 | Blanks followed on their line by another character do not reach a line end |
| DiffUtils.BlanksBeforeWordKept | src/utils/diffUtils.js:33 | Such blanks all survive the strip |
| DiffUtils.NoBlankSuffix | src/utils/diffUtils.js:37 | Dropping leading characters keeps that shape |
| DiffUtils.BlankRunBreaksShape | src/utils/diffUtils.js:33 | A blank run up to a line end is what the shape excludes |
| DiffUtils.StripIdentity | src/utils/diffUtils.js:33 | Text without trailing blanks is left alone |
| DiffUtils.CollapseShape | src/utils/diffUtils.js:34 | Collapsing final newlines keeps no trailing blanks and leaves no blank final line |
| DiffUtils.CollapseTrailingNewlines | src/utils/diffUtils.js:34 | `replace(/\n+$/, "\n")`; stated by `DiffUtils.CollapseShape`, `DiffUtils.SingleTrailingNewline` and `DiffUtils.InteriorBlankLinesKept` |
| DiffUtils.CleanUp | src/utils/diffUtils.js:31-37 | The rewrites after the repair, in the source's order; stated by `DiffUtils.CleanUpShape` and `DiffUtils.CleanUpFixpoint` |
| DiffUtils.SuffixShape | src/utils/diffUtils.js:37 | `trimStart` keeps the shape |
| DiffUtils.StripKeepsPlain | src/utils/diffUtils.js:33 | Stripping blanks adds no carriage return and no trigger letter |
| DiffUtils.NoRepairNeeded | src/utils/diffUtils.js:16-28 | Without a byte-order mark or trigger letter only the rewrites apply |
| DiffUtils.NormalizeKeepsPlain | src/utils/diffUtils.js:11-38 | Normalising text without carriage returns or trigger letters adds neither |
| DiffUtils.PlainSuffix | src/utils/diffUtils.js:37 | A suffix of such text has neither |
| DiffUtils.PlainCollapse | src/utils/diffUtils.js:34 | Collapsing final newlines adds neither |
| DiffUtils.CleanUpFixpoint | src/utils/diffUtils.js:31-37 | Text already in the normal shape is a fixpoint of the rewrites |
| DiffUtils.NormalizeIdempotent | src/utils/diffUtils.js:11-38 | On text without carriage returns or trigger letters a second normalisation changes nothing |
| DiffUtils.NoBlanksAtAll | src/utils/diffUtils.js:33 | Text without blanks has none before a line end |
| DiffUtils.CrlfToLfAfterWord | src/utils/diffUtils.js:32 | A prefix without carriage returns passes CRLF to LF unchanged |
| DiffUtils.NotIdempotentOnCarriageReturns | src/utils/diffUtils.js:32 | A word ending "\r\r\n" normalises to "…\r\n", which normalises again to "…\n" |
| DiffUtils.WordLineCleanUp | src/utils/diffUtils.js:31-37 | The rewrites on a word followed by either ending |
| DiffUtils.CrlfEnding | src/utils/diffUtils.js:32 | "\r\r\n" becomes "\r\n" and "\r\n" becomes "\n" |
| DiffUtils.SingleTrailingNewline | src/utils/diffUtils.js:34 | A text ending in exactly one newline keeps it |
| DiffUtils.CleanUpOnlyCollapses | src/utils/diffUtils.js:31-37 | Without carriage returns, blanks or leading whitespace only the final newlines change |
| DiffUtils.InteriorBlankLinesKept | src/utils/diffUtils.js:34 | Blank lines inside the text are kept; only the final run collapses |
| DiffUtils.TwoTrailingNewlines | src/utils/diffUtils.js:34 | A body ending "\n\n" has exactly two final newlines |
| DiffUtils.BlobHeader | src/utils/diffUtils.js:49 | The header is "blob ", the decimal length and a NUL |
| DiffUtils.BytesAsText | src/utils/diffUtils.js:49 | Bytes read back as characters of the same codes |
| DiffUtils.FindNul | src/utils/diffUtils.js:49 | Finds the first NUL, the end of the header |
| DiffUtils.FrameRoundTrip | src/utils/diffUtils.js:48-52 | The content, and its length, are read back from the frame |
| DiffUtils.FrameInjective | src/utils/diffUtils.js:48-52 | Different contents never share a frame |
| DiffUtils.EmptyFrame | src/utils/diffUtils.js:42-52 | Empty content frames to "blob 0" and a NUL |
| DiffUtils.AssembleFrame | src/utils/diffUtils.js:50-52 | The fresh buffer holds the header followed by the content |
| DiffUtils.BlobSha | src/utils/diffUtils.js:55-58 | The object name is 40 lowercase hex digits encoding the SHA-1 of the frame |
| DiffUtils.BlobShaDeterminesDigest | src/utils/diffUtils.js:55-58 | Equal names mean equal digests of the frames |
| DiffUtils.GitBlobSha | src/utils/diffUtils.js:40-59 | `gitBlobSha` names the blob of the UTF-8 bytes of the normalised text |
| DiffUtils.BytesText | src/utils/diffUtils.js:64-75 | The bytes path hashes the decoded text with one leading byte-order mark removed and then exactly the carriage return of each CRLF pair removed, every other character kept in order |
| DiffUtils.GitBlobShaFromBytes | src/utils/diffUtils.js:61-92 | `gitBlobShaFromBytes` names the blob of that text's UTF-8 bytes |
| DiffUtils.OneBomRemoved | src/utils/diffUtils.js:70-72 | Only one byte-order mark is removed after decoding |
| DiffUtils.TrailingBlankSplitsHashes | src/utils/diffUtils.js:61-92 | A line ending in a blank: the bytes path keeps the blank, the text path drops it, and the frames differ |
| DiffUtils.TrailingBlankNormalized | src/utils/diffUtils.js:33 | Normalising a word and a blank drops the blank |
| DiffUtils.BlankChangesFrame | src/utils/diffUtils.js:48-52 | One more blank changes the frame |
| DiffUtils.WordThenBlankCleanUp | src/utils/diffUtils.js:31-37 | The rewrites drop a final blank after a word |
| DiffUtils.StripWordThenBlank | src/utils/diffUtils.js:33 | Stripping trailing blanks drops the blank after a word |
| Comparison.VisibleFiles | src/components/panels/ZipDiffPanel.jsx:22-25 | The list shown holds exactly the results that are not "same" and is never longer; order and copies in `Comparison.VisibleFilesAppend` |
| Comparison.ChangedPaths | src/components/panels/ZipDiffPanel.jsx:67 | The selection after a compare is the paths of the shown results, in order |
| Comparison.ExportFiles | src/components/panels/ZipDiffPanel.jsx:97-99 | An entry is exported exactly when some result with a selected path gives it, and never more entries than results; an empty selection exports nothing; order and copies in `Comparison.ExportFilesAppend` |
| Comparison.VisibleFilesAppend | src/components/panels/ZipDiffPanel.jsx:22-25 | The filter keeps comparison order and every copy: it distributes over concatenation |
| Comparison.VisibleFilesOne | src/components/panels/ZipDiffPanel.jsx:23 | A single result is shown exactly when it is not "same" |
| Comparison.ExportFilesAppend | src/components/panels/ZipDiffPanel.jsx:96-99 | The export keeps comparison order and gives one entry per selected result, duplicates included |
| Comparison.ExportFilesOne | src/components/panels/ZipDiffPanel.jsx:97-99 | A single result exports `{ path, text }` exactly when its path is selected |
| Comparison.ExportOf | src/components/panels/ZipDiffPanel.jsx:99 | One `{ path, text }` per result, in order |
| Comparison.ChangedPathsMembers | src/components/panels/ZipDiffPanel.jsx:67 | A path is selected after a compare exactly when some changed result has it |
| Comparison.ExportOfChanged | src/components/panels/ZipDiffPanel.jsx:96-99 | A selection holding exactly the changed paths exports the shown results, in order |
| Comparison.ExportAfterCompare | src/components/panels/ZipDiffPanel.jsx:66-67 | Exporting straight after a compare with distinct paths exports exactly the changed results, in order |
| ZipDiffPanel.BlobMap | src/components/panels/ZipDiffPanel.jsx:53-55 | The map's keys are exactly the listing's `.xml` paths, raw and of any type |
| ZipDiffPanel.BlobMapLastWins | src/components/panels/ZipDiffPanel.jsx:53-55 | The sha kept for a path is that of the last listing of it |
| ZipDiffPanel.CanRun | src/components/panels/ZipDiffPanel.jsx:21 | `canRun`: a token, a repo, a branch and at least one archive entry; the guard of `ZipDiffPanel.Panel.RunCompare` |
| ZipDiffPanel.Classify | src/components/panels/ZipDiffPanel.jsx:57-64 | The `mapLimit` callback; its cases are stated by `ZipDiffPanel.ClassifyCases` |
| ZipDiffPanel.ClassifyCases | src/components/panels/ZipDiffPanel.jsx:57-64 | "added" exactly for a missing or empty sha, with the archive text; "same" exactly when the normalised text's name equals the sha, without texts; "modified" with text and sha |
| ZipDiffPanel.CompareAll | src/components/panels/ZipDiffPanel.jsx:57-64 | One result per archive entry, in archive order |
| ZipDiffPanel.ClassifyNormalized | src/components/panels/ZipDiffPanel.jsx:60-63 | Archive texts that normalise alike classify alike |
| ZipDiffPanel.SameAsNormalRepoBlob | src/components/panels/ZipDiffPanel.jsx:60-63 | A repository blob in normal form is "same" as every archive text normalising to it |
| ZipDiffPanel.SameMeansSameBytes | src/components/panels/ZipDiffPanel.jsx:60-63 | Barring a SHA-1 collision, "same" means the normalised archive text has the blob's bytes |
| ZipDiffPanel.Panel.constructor | src/components/panels/ZipDiffPanel.jsx:16-19 | All state starts empty |
| ZipDiffPanel.Panel.LoadZip | src/components/panels/ZipDiffPanel.jsx:28-46 | No file changes nothing; the read entries replace the old ones, or the error is shown; comparison and selection stay |
| ZipDiffPanel.Panel.RunCompare | src/components/panels/ZipDiffPanel.jsx:48-73 | Nothing without `canRun`; a failed listing only opens a snackbar; a listing without `tree` throws into the snackbar; otherwise the results of classifying every entry replace the comparison and the changed paths become the selection |
| ZipDiffPanel.Panel.OpenDetail | src/components/panels/ZipDiffPanel.jsx:75-94 | A failed fetch opens a snackbar; texts equal after normalisation open "identical" instead of a diff; otherwise the normalised texts open |
| ZipDiffPanel.Panel.ExportSelected | src/components/panels/ZipDiffPanel.jsx:96-105 | An empty export opens a snackbar; without a repo nothing is downloaded; otherwise the selected results are downloaded under the repo's name |
| ZipDiffPanel.OpenAddedShowsDiff | src/components/panels/ZipDiffPanel.jsx:78-86 | Opening an "added" result fetches nothing and shows a diff against "" exactly when its normalised text is not empty |
| App.RawSha | src/App.jsx:154-165 | The name is 40 lowercase hex digits of the SHA-1 of the raw text's frame |
| App.GitBlobSha | src/App.jsx:154-165 | The older `gitBlobSha` names the blob of the raw UTF-8 bytes of `text ?? ""` |
| App.RawAndNormalizedFramesDiffer | src/App.jsx:155-157 | For a line ending in a blank, the raw frame and the normalised frame differ |
| App.BlobMapSound | src/App.jsx:611-616 | Each key is the normalised path of an XML blob of the listing |
| App.BlobMapComplete | src/App.jsx:611-616 | Every XML blob of the listing has its normalised path as a key |
| App.BlobMapOfStep | src/App.jsx:612-615 | One loop step adds that node's key when it is an XML blob |
| App.BuildBlobMap | src/App.jsx:610-616 | The loop over `tree.tree \|\| []` builds the blob map of the listing |
| App.Classify | src/App.jsx:618-629 | The `mapLimit` callback; its cases are stated by `App.ClassifyCases` |
| App.ClassifyCases | src/App.jsx:618-629 | Normalised path and archive text kept; "added" exactly for a missing or empty sha; "same" exactly when the raw text's name equals the sha |
| App.CompareAll | src/App.jsx:618-629 | One result per archive entry, in archive order |
| App.CompareEntries | src/App.jsx:618-629 | `mapLimit` with a callback that never throws resolves to the classified entries |
| App.CompareOutcomeSelects | src/App.jsx:618-632 | After a compare, one result per entry, and a path selected exactly when some changed result has it |
| App.CompareListing | src/App.jsx:610-636 | The successful half of `runCompare`, with one result per entry, so the "No XML files" message never replaces the snackbar |
| App.PanelsDisagree | src/App.jsx:624-625 | An archive text ending in a blank is "same" in the newer panel and "modified" here against the same normal blob |
| App.Toggled | src/App.jsx:664-668 | Toggling a selected path removes every copy and nothing else; an unselected one is appended |
| App.ToggledTwice | src/App.jsx:664-668 | Toggling twice gives the selection back as a set, and exactly when the path was not selected |
| App.WithoutOne | src/App.jsx:666 | Filtering out one path is filtering out the list holding it |
| App.WithoutAllAppend | src/App.jsx:666 | Filtering distributes over concatenation |
| App.CanCompare | src/App.jsx:449 | `canCompare`: a repo and two non-empty, different branches; `RepoBranchPicker.ClicksReadyToCompare` relates it to the picker |
| App.ZipComparePanel.constructor | src/App.jsx:577-581 | All state starts empty |
| App.ZipComparePanel.OnPickZip | src/App.jsx:588-604 | Clears entries, comparison and selection, then loads the entries or shows the reader's error |
| App.ZipComparePanel.RunCompare | src/App.jsx:606-642 | Nothing without `canRun`; a failed listing opens a snackbar; otherwise the comparison and the selection are the compare's outcome |
| App.ZipComparePanel.OpenDetail | src/App.jsx:644-662 | "same" opens a snackbar; a failed fetch opens a snackbar; otherwise the raw texts open |
| App.ZipComparePanel.ToggleSelected | src/App.jsx:664-668 | The selection becomes the toggled selection, and nothing else changes |
| App.ZipComparePanel.ExportSelected | src/App.jsx:670-679 | An empty export opens a snackbar; without a repo nothing is downloaded; otherwise the selected results are downloaded |
| RepoBranchPicker.Click | src/components/RepoBranchPicker.jsx:127-130 | An empty A or a click on A's branch sets A; any other click sets B; distinct slots stay distinct |
| RepoBranchPicker.Caption | src/components/RepoBranchPicker.jsx:134-136 | A caption exactly for a highlighted row; "Base (A)" wins over "Compare (B)" |
| RepoBranchPicker.ClicksKeepA | src/components/RepoBranchPicker.jsx:127-130 | Once filled, slot A never changes |
| RepoBranchPicker.ClicksKeepDistinct | src/components/RepoBranchPicker.jsx:128-129 | Any run of clicks keeps B distinct from A |
| RepoBranchPicker.ClicksReadyToCompare | src/components/RepoBranchPicker.jsx:127-130 | From empty slots, clicks give slots the branch comparison accepts exactly when a repo is chosen and B is filled |
| RepoBranchPicker.Picker.constructor | src/components/RepoBranchPicker.jsx:32-35 | All state starts empty |
| RepoBranchPicker.Picker.ClickBranch | src/components/RepoBranchPicker.jsx:127-130 | The slots become the click's slots; a filled A stays; a new B differs from A |
| RepoBranchPicker.Picker.CreateBranch | src/components/RepoBranchPicker.jsx:72-86 | Without repo, name or source nothing happens; otherwise one request is sent, and success refreshes the list and clears the name while failure shows the error |

## Left out

- `mapLimit` concurrency: the runners are modelled one after another, in the order the shared counter hands out indices. The bound of at most `min(limit, items.length)` mapper calls in flight is not modelled, nor are calls still running when `Promise.all` has already rejected.
- CommonUtils.MapLimit: on a rejection, the model stops at the first failing index. The source's other runners may go on claiming indices after it.
- Network calls (`getTreeRecursive`, `getBlobRaw`, `createBranchFrom`, `listBranches`, repository loading), the archive reader (`fileListFromZip`, JSZip) and `downloadAsZip` are outside the model. What they return is a method parameter; a download is recorded as a value.
- `diffText` (diff-match-patch): a `Detail` holds the two texts it would be given, not the diffs.
- SHA-1 (`crypto.subtle.digest`) and the UTF-8 decoder (`TextDecoder`) are parameters (`Platform`), not definitions, so the mojibake repair's output is whatever that decoder gives.
- Strings are sequences of Unicode scalar values: JavaScript strings holding lone surrogates are not modelled.
- `mapLimit`, `onlyXmlFiles` and `normalizePath` are duplicated verbatim in src/App.jsx (lines 168-185 and 782-784); one model serves both copies.
- The message of the `TypeError` that `tree.tree.filter` raises on a listing without `tree` is engine-specific; `ZipDiffPanel.TreeMissing` fixes one wording (V8's), so the snackbar text of that case is exact for that engine only.
- Busy flags (`setBusy`), loading spinners, layout and all other presentation are left out.
- Optional chaining on `setSnack?.`: the callback is assumed present.
- The `__files` field of `buildFileTree`'s nodes is never written by the source, so it is not modelled.
- `Object.values` and `Object.entries` iterate in creation order. The reordering of integer-like keys and inherited keys are not modelled.
- `convertToArray` rewrites `children` in place. It is modelled as a function returning the converted array.
- `BranchDiffPanel` and the select-based branch picker of `src/App.jsx`: only `canCompare` is modelled, because the rest is network and presentation.
- DiffUtils.NormalizeXmlText: its own contract covers only the empty inputs. The shape of every result is in `DiffUtils.NormalizedShape` and its idempotence in `DiffUtils.NormalizeIdempotent`.
- DiffUtils.NormalizeIdempotent: proved only for text without carriage returns or mojibake trigger letters, because the source is not idempotent on carriage returns (`DiffUtils.NotIdempotentOnCarriageReturns`) and the repair depends on the abstract decoder.
- BuildTreeFromDiffs.LeavesAreInputPaths: proved only when no path lies below another diff's path. Otherwise the leaves are not the input paths: a path below an earlier file throws (`BuildTreeFromDiffs.ThrowsIffBelowFile`), and a file whose path is already a folder, as "a" after "a/b", is silently dropped (`BuildTreeFromDiffs.ExistingPathIgnored`).
