# codext core in Dafny

codext turns a local code base into a prompt for a language model. The user
picks a directory in the browser, expands folders, ticks files, types a
comma-separated list of names to ignore, and gets an XML document. It holds
the pruned directory tree and the text of every selected file. A server
route offers the same listing and tree for the process's working directory.

This project models the core of that program over an in-memory file system
(`FsUtils.Node`: files with readable or unreadable content, directories that
can or cannot be listed) and proves what it promises:

- `DirectoryState` (hooks/useDirectoryState.ts) is a class whose fields are
  the store's state: the root handle, the handle registry, the loaded
  listings, the expanded paths and the selection. Its methods pick, load,
  expand/collapse, select and refresh; each states its new state, keeps
  `Valid()`, and is related to lemmas about the pure `Load`/`RootTables`
  functions.
- `XmlBuilder` (lib/xmlBuilder.ts): escaping, with un-escaping as its proved
  inverse; the recursive directory section; the numbered documents section;
  and the wrapper. The methods keep the source's loops and recursion and are
  proved equal to specification functions.
- `FilesRoute` (app/api/files/route.ts): paging with `Array.prototype.slice`
  semantics, the full tree with ignored names pruned, its indented text
  rendering, and `GET`'s choice between them.
- `FsUtils` (lib/fsUtils.ts): the path walk of `getFileFromPath`, exact-name
  ignoring and the "directories first" sort.
- `HomePage` (app/page.tsx): the token tier and the parsing of the ignore
  box.
- `TreeAgreement`: the directory section of the XML is the tree of
  `buildFullTree` written as XML, so pruning and name order carry over.
- `Text`, `Sorting`, `Paths` and `Wrappers` model the JavaScript built-ins
  these files rely on: `split`, `trim`, `join`, `sort` with a comparator,
  `lastIndexOf`, and `Option`.

## Model

| member | source | states |
|---|---|---|
| Paths.ChildPath | hooks/useDirectoryState.ts:39 | an entry of the root is keyed by its bare name; any other key is one longer than the parent's key and the name together, with a slash right after the parent's key (`ChildPathRoundTrip` recovers both parts) |
| Paths.LastSlash | lib/xmlBuilder.ts:69 | `lastIndexOf('/')`: -1 or the index of a slash with no slash after it |
| Paths.BaseName | lib/xmlBuilder.ts:70 | the last segment of a path never contains a slash |
| Paths.ParentKey | lib/xmlBuilder.ts:69 | the directory key of a path is "." or a proper prefix of the path that ends right before its last slash |
| Paths.ChildPathRoundTrip | lib/xmlBuilder.ts:69-70 | splitting a key built by the store at its last slash gives back the parent key and the entry name |
| Paths.ParentKeyBaseName | lib/xmlBuilder.ts:69-70 | a key whose last slash is not in front is its parent key, a slash and its base name |
| Text.SpaceRunEnd | app/page.tsx:106 | the scan for leading white space stops at the first character that is not white space, or at the end |
| Text.SpaceRunStart | app/page.tsx:106 | the scan for trailing white space stops after the last character that is not white space, or at its lower bound |
| Text.Trim | app/page.tsx:106 | `trim` returns a trimmed infix of the input and drops only white space on either side |
| Text.TrimOfTrimmed | app/page.tsx:106 | trimming a trimmed string changes nothing |
| Text.Join | app/page.tsx:17 | joining more than one piece always shows the separator; `JoinSplit` and `SplitJoin` make it the inverse of `split` |
| Text.Split | app/page.tsx:105 | `split(',')` always gives at least one piece and no piece holds the separator |
| Text.JoinSplit | app/page.tsx:105 | joining the pieces of a split with the separator gives back the input |
| Text.SplitJoin | app/page.tsx:105 | splitting a join of separator-free pieces gives back the pieces |
| Text.CleanSet | app/api/files/route.ts:84 | the ignore set holds exactly the non-empty trims of the pieces, all trimmed, never "" |
| Text.NatToStringValue | lib/xmlBuilder.ts:79 | a document id's decimal text reads back as the id, so distinct ids print differently |
| Sorting.SortSorted | hooks/useDirectoryState.ts:48 | sorting with a total-preorder comparator yields a sequence ordered by it |
| Sorting.SortMembers | hooks/useDirectoryState.ts:48 | sorting keeps exactly the same members |
| Sorting.NameLeTotalPreorder | app/api/files/route.ts:23 | the name comparator is total and transitive, as the sort needs |
| Sorting.NameLeAntisymmetric | app/api/files/route.ts:23 | two names that compare both ways are equal |
| FsUtils.KindOf | app/api/files/route.ts:30 | an entry's kind is "directory" exactly for a directory |
| FsUtils.ChildNamed | lib/fsUtils.ts:35 | the lookup finds a child with that name, and fails exactly when no child has it |
| FsUtils.GetDirectoryHandle | lib/fsUtils.ts:35 | a directory handle is only found in a listable directory, among its children, under its name |
| FsUtils.GetFileHandle | lib/fsUtils.ts:43 | a file handle is only found in a listable directory, is a file, and is a child with that name |
| FsUtils.ShouldIgnoreDirectory | lib/fsUtils.ts:53-55 | a name is ignored iff it is a member of the ignore set |
| FsUtils.IgnoreIsExactMatch | lib/fsUtils.ts:53-55 | a pattern ignores only the name equal to it; `*` is not a wildcard |
| FsUtils.SortEntries | lib/fsUtils.ts:60-67 | the result is a permutation with every directory before every file and each kind in name order |
| FsUtils.SortNodes | app/api/files/route.ts:23 | sorting the entries by name is a permutation of them |
| FsUtils.SortNodesMembers | app/api/files/route.ts:23 | the sorted entries are exactly the directory's entries |
| FsUtils.SortNodesSorted | app/api/files/route.ts:23 | the entries come out in name order |
| FsUtils.ResolveFile | lib/fsUtils.ts:23-48 | a found handle is a file named by the path's last segment |
| FsUtils.Walk | lib/fsUtils.ts:32-40 | a walk that succeeds ends in a directory named by the last segment that is not "." |
| FsUtils.GetFileFromPath | lib/fsUtils.ts:23-48 | the segment-by-segment loop, skipping ".", answers exactly the file the path resolves to, or null |
| FsUtils.ResolveWithoutSlash | lib/fsUtils.ts:42-43 | a path without a slash is looked up directly in the root |
| FsUtils.WalkAppend | lib/fsUtils.ts:32-40 | walking two runs of segments is walking the first, then the second from where it led |
| FsUtils.ResolveMissingDirectory | lib/fsUtils.ts:35-38 | one missing directory on the way answers null, whatever follows it |
| DirectoryState.EntriesOfAt | hooks/useDirectoryState.ts:37-46 | one entry per child, the k-th describing the k-th child |
| DirectoryState.EntriesOf | hooks/useDirectoryState.ts:37-46 | the entries pushed while iterating, in iteration order; `EntriesOfAt` states their contents |
| DirectoryState.SubDirsOf | hooks/useDirectoryState.ts:40-42 | at most one subdirectory per child, each recorded under the key built from its own name |
| DirectoryState.SubDirsOfExact | hooks/useDirectoryState.ts:40-42 | the subdirectories recorded are exactly the directory children, each under its own key |
| DirectoryState.SortByName | hooks/useDirectoryState.ts:48 | sorting the entries is a permutation of them |
| DirectoryState.SortByNameSorted | hooks/useDirectoryState.ts:48 | the entries come out in name order |
| DirectoryState.ListingOf | hooks/useDirectoryState.ts:27-50 | a listing exists exactly when the directory can be enumerated |
| DirectoryState.ListingSorted | hooks/useDirectoryState.ts:27-50 | a listing is a name-ordered permutation of one entry per child, each keyed under the directory |
| DirectoryState.ReadDirectoryEntries | hooks/useDirectoryState.ts:27-50 | the push loop and the sort produce exactly `ListingOf` |
| DirectoryState.AddHandles | hooks/useDirectoryState.ts:62 | the registry gains exactly the subdirectory keys; other keys keep their handles |
| DirectoryState.AddHandlesLastWins | hooks/useDirectoryState.ts:89 | a key set several times keeps the handle set last |
| DirectoryState.AddHandlesAgreeing | hooks/useDirectoryState.ts:89 | a key set only to one handle, however often, holds that handle |
| DirectoryState.Load | hooks/useDirectoryState.ts:72-96 | a load never drops a handle, adds at most the listing of its own path, and leaves that path with a listing exactly when it had one or has a handle that can be listed |
| DirectoryState.LoadFrame | hooks/useDirectoryState.ts:72-96 | no handle or a failed listing changes nothing; otherwise only the path's listing is replaced and the registry grows by the subdirectory keys |
| DirectoryState.RootTables | hooks/useDirectoryState.ts:60-66 | after a pick or refresh only "." is loaded, and the registry holds "." and the keys of the subdirectories found |
| DirectoryState.RootTablesShape | hooks/useDirectoryState.ts:60-66 | after a pick only "." is loaded; the registry is "." plus the root's subdirectories, "." maps to the root, and each subdirectory whose name no other shares maps to its own handle |
| DirectoryState.RootTablesValid | hooks/useDirectoryState.ts:60-66 | a pick leaves valid tables that register "." |
| DirectoryState.LoadKeepsTablesValid | hooks/useDirectoryState.ts:72-96 | a load keeps every loaded path registered and every listing sorted, and drops no handle |
| DirectoryState.Expand | hooks/useDirectoryState.ts:107-110 | expanding loads a path unless the listings object already has something under its name, an own listing or a member every object inherits |
| DirectoryState.ExpandIntended | hooks/useDirectoryState.ts:107-110 | the intended expansion: a path with a handle that can be listed always has its listing afterwards |
| DirectoryState.ExpandAgreesOffInherited | hooks/useDirectoryState.ts:107-110 | both expansions agree on every path that is not an inherited member name |
| DirectoryState.InheritedNameNeverLoaded | hooks/useDirectoryState.ts:107-110 | a root subdirectory named `constructor` is registered after a pick, yet expanding it leaves it without a listing |
| DirectoryState.Remove | hooks/useDirectoryState.ts:119 | deleting from the selection removes exactly that path and keeps it duplicate-free |
| DirectoryState.ToggleMember | hooks/useDirectoryState.ts:115-125 | toggling flips membership of the path and of no other path |
| DirectoryState.ToggleTwice | hooks/useDirectoryState.ts:115-125 | toggling twice restores the selection as a set; an unselected path leaves it exactly as it was |
| DirectoryState.RemoveLast | hooks/useDirectoryState.ts:119-121 | adding a new path and deleting it again restores the selection |
| DirectoryState.DirectoryStore.constructor | hooks/useDirectoryState.ts:15-19 | the store starts with no root, no handles, no listings, nothing expanded or selected |
| DirectoryState.DirectoryStore.ResetState | hooks/useDirectoryState.ts:21-25 | clears listings, expansion and selection; root and registry stay |
| DirectoryState.DirectoryStore.PickDirectory | hooks/useDirectoryState.ts:52-70 | a dismissed picker changes nothing; otherwise a reset, and on success the new root with the root tables |
| DirectoryState.DirectoryStore.LoadDirectory | hooks/useDirectoryState.ts:72-96 | the tables become `Load` of the old tables; nothing else changes |
| DirectoryState.DirectoryStore.ToggleDirectory | hooks/useDirectoryState.ts:98-113 | collapse removes only that path; expand applies `Expand`, with the source's plain-object test, and marks the path expanded even when no load happened or it failed |
| DirectoryState.DirectoryStore.ToggleFileSelection | hooks/useDirectoryState.ts:115-125 | the selection becomes the toggle of the old one |
| DirectoryState.DirectoryStore.RefreshDirectory | hooks/useDirectoryState.ts:127-141 | no root: no change; otherwise a reset with the root kept, and on success the root tables |
| XmlBuilder.ReplaceAll | lib/xmlBuilder.ts:8 | a string without the character comes back unchanged |
| XmlBuilder.ReplaceAllChars | lib/xmlBuilder.ts:8 | every character of the result comes from the replacement or is a kept character |
| XmlBuilder.ReplaceAllAppend | lib/xmlBuilder.ts:8 | replacing all occurrences distributes over concatenation |
| XmlBuilder.EscapeXmlText | lib/xmlBuilder.ts:6-11 | no `<` or `>` is left; text without `&`, `<`, `>` is unchanged |
| XmlBuilder.EscapeXmlAttribute | lib/xmlBuilder.ts:16-20 | no `"` is left; a value without `&` or `"` is unchanged |
| XmlBuilder.EscapeXmlTextCons | lib/xmlBuilder.ts:6-11 | the three chained replacements act character by character |
| XmlBuilder.EscapeXmlAttributeCons | lib/xmlBuilder.ts:16-20 | the two chained replacements act character by character |
| XmlBuilder.UnescapeTextChar | lib/xmlBuilder.ts:6-11 | the escape of one character reads back as that character |
| XmlBuilder.UnescapeAttributeChar | lib/xmlBuilder.ts:16-20 | the escape of one character reads back as that character |
| XmlBuilder.UnescapeEscapeXmlText | lib/xmlBuilder.ts:6-11 | expanding the predefined entity references recovers the text exactly, because `&` is replaced first |
| XmlBuilder.UnescapeEscapeXmlAttribute | lib/xmlBuilder.ts:16-20 | expanding the predefined entity references recovers the attribute value exactly |
| XmlBuilder.AttributeKeepsAngles | lib/xmlBuilder.ts:16-20 | `<` and `>` pass through attribute escaping untouched |
| XmlBuilder.EscapeXmlAttributeIntended | lib/xmlBuilder.ts:13-20 | the attribute escape the doc comment describes leaves neither a quote nor a `<` |
| XmlBuilder.UnescapeEscapeXmlAttributeIntended | lib/xmlBuilder.ts:13-20 | expanding the predefined entity references recovers a value escaped the corrected way exactly |
| XmlBuilder.DirectoryXml | lib/xmlBuilder.ts:25-56 | a section is produced only for a directory that can be enumerated; `DirectoryXmlDefined` and `DirectoryXmlClose` state the rest |
| XmlBuilder.EntriesXml | lib/xmlBuilder.ts:39-53 | the text the loop adds for the entries, in order; `EntriesXmlAt` unfolds it |
| XmlBuilder.EntryXml | lib/xmlBuilder.ts:40-52 | an ignored name adds nothing, and only a directory that is not ignored can make the section fail |
| Wrappers.Prepend | lib/xmlBuilder.ts:49 | appending to a section or a tree still being built succeeds exactly when the rest of it does |
| XmlBuilder.DirectoryXmlDefined | lib/xmlBuilder.ts:25-56 | the section is produced exactly when every non-ignored directory reached can be enumerated |
| XmlBuilder.EntriesXmlAt | lib/xmlBuilder.ts:39-53 | the entries from position i are the entry at i followed by the rest |
| XmlBuilder.DirectoryXmlClose | lib/xmlBuilder.ts:54-55 | the opening tag, every entry, then the closing tag make up the section |
| XmlBuilder.BuildDirectoryXml | lib/xmlBuilder.ts:25-56 | the collecting, sorting, skipping and recursing loop produces exactly the specified section, or rejects where it does |
| XmlBuilder.ReadSelected | lib/xmlBuilder.ts:69-77 | a selected file is only read through the handle registered for its parent key |
| XmlBuilder.Resolved | lib/xmlBuilder.ts:68-77 | the selected files that are read, in selection order; `ResolvedMembers` states which they are |
| XmlBuilder.DocumentXml | lib/xmlBuilder.ts:79-82 | one document's four lines; `DocumentXmlReadsBack` and `CdataEndCutsContent` state what reads back from them |
| XmlBuilder.Documents | lib/xmlBuilder.ts:61-90 | what the loop has appended; `DocumentsNumbered` states it |
| XmlBuilder.ResolvedMembers | lib/xmlBuilder.ts:68-87 | a document appears exactly when its path is selected and can be read, with its text; no more documents than selected paths |
| XmlBuilder.ReadSelectedFile | lib/xmlBuilder.ts:69-77 | one iteration's lookup and read give exactly `ReadSelected` |
| XmlBuilder.BuildDocumentsXml | lib/xmlBuilder.ts:61-90 | the loop appends exactly the specified documents, with a skipped path using up no id |
| XmlBuilder.NumberedAppend | lib/xmlBuilder.ts:83 | numbering one more document gives it the next id and leaves the earlier ones as they were |
| XmlBuilder.DocumentsNumbered | lib/xmlBuilder.ts:61-90 | the documents section is the readable selected files, in selection order, numbered 1, 2, 3, … |
| XmlBuilder.CdataTextOf | lib/xmlBuilder.ts:81 | a CDATA section reads back as its content when the content has no `]]>` |
| XmlBuilder.DocumentXmlReadsBack | lib/xmlBuilder.ts:79-82 | a document's CDATA holds exactly the file's text when it has no `]]>`, and its path reads back |
| XmlBuilder.CdataEndCutsContent | lib/xmlBuilder.ts:81 | content holding `]]>` ends its CDATA early: the reader sees only what precedes it |
| XmlBuilder.GenerateXmlOutput | lib/xmlBuilder.ts:95-114 | the output is the root section named "." and the documents inside the fixed wrapper |
| XmlBuilder.XmlOutput | lib/xmlBuilder.ts:95-114 | the output fails exactly when the directory section does; the documents section never makes it fail |
| XmlBuilder.XmlOutputDefined | lib/xmlBuilder.ts:95-114 | the output exists exactly when every non-ignored directory can be listed; unreadable files never make it fail |
| XmlBuilder.RootOpenTag | lib/xmlBuilder.ts:101 | the root element is `<directory name=".">` at two spaces |
| XmlBuilder.XmlOutputOpening | lib/xmlBuilder.ts:104-107 | the output starts with the wrapper's opening tags and then the root element |
| XmlBuilder.XmlOutputClosing | lib/xmlBuilder.ts:108-113 | the output ends with `</documents>` and `</codebase_context>` |
| FilesRoute.SliceIndex | app/api/files/route.ts:25 | a slice index counts from the end when negative and is clamped to the length |
| FilesRoute.JoinPath | app/api/files/route.ts:29 | the joined path is the directory, a slash and the name, each recoverable from it |
| FilesRoute.JsSlice | app/api/files/route.ts:25 | `slice` never grows the array and is the plain subsequence for in-range indices |
| FilesRoute.EntriesOf | app/api/files/route.ts:27-31 | one entry per child |
| FilesRoute.EntriesOfAt | app/api/files/route.ts:27-31 | the k-th entry describes the k-th child |
| FilesRoute.EntriesOfAppend | app/api/files/route.ts:27-31 | mapping entries distributes over concatenation |
| FilesRoute.ListDirectory | app/api/files/route.ts:17-36 | a page exists exactly when `readdir` succeeds |
| FilesRoute.ListDirectoryPage | app/api/files/route.ts:25-33 | a page holds the sorted entries from offset to offset + limit, and `hasMore` says exactly whether entries remain |
| FilesRoute.ListDirectoryEntries | app/api/files/route.ts:27-31 | each entry is a child of the directory, with its name, joined path and kind |
| FilesRoute.ListDirectoryOrdered | app/api/files/route.ts:23-25 | every page is in name order, whatever its offset and limit |
| FilesRoute.ListDirectoryPages120 | app/api/files/route.ts:25-33 | 120 entries, 50 at a time: the first page has 50 and more follow; the page at 100 has 20 and none follow |
| FilesRoute.FetchAllIsListing | app/api/files/route.ts:33 | paging while `hasMore` from offset 0 yields the whole sorted listing, whatever the positive page size |
| FilesRoute.FetchAllFrom | app/api/files/route.ts:33 | paging from any offset yields the sorted listing from that offset on |
| FilesRoute.TreeEntriesAt | app/api/files/route.ts:43-61 | the nodes from position i are the node for entry i followed by the rest |
| FilesRoute.FullTree | app/api/files/route.ts:38-63 | a tree is built only for a directory that can be read, with at most one node per entry |
| FilesRoute.TreeEntries | app/api/files/route.ts:43-61 | at most one node per entry, and only a directory that is not ignored can make the build fail |
| FilesRoute.EntryTree | app/api/files/route.ts:44-60 | an entry gives at most one node, carrying its own name, and none when its name is ignored |
| FilesRoute.BuildFullTree | app/api/files/route.ts:38-63 | the read, sort, skip and recurse loop produces exactly the specified tree, or rejects where it does |
| FilesRoute.FullTreeDefined | app/api/files/route.ts:38-63 | the tree is built exactly when every non-ignored directory reached can be read |
| FilesRoute.FullTreePruned | app/api/files/route.ts:44-46 | no node at any depth carries an ignored name |
| FilesRoute.KeptMembers | app/api/files/route.ts:44-46 | the kept entries are exactly the entries with names that are not ignored |
| FilesRoute.KeptSorted | app/api/files/route.ts:40-46 | skipping entries keeps name order |
| FilesRoute.TreeEntriesShape | app/api/files/route.ts:43-61 | node for node, the tree mirrors the kept entries: same name, same kind, subtree for a directory |
| FilesRoute.FullTreeShape | app/api/files/route.ts:38-63 | one node per non-ignored entry, in name order, each with the entry's name and kind, and every such entry has its node |
| FilesRoute.RenderLinesAppend | app/api/files/route.ts:73 | rendering lines distributes over concatenation |
| FilesRoute.TreeToText | app/api/files/route.ts:65-74 | the text is empty exactly for an empty tree and otherwise ends with a newline |
| FilesRoute.TreeToTextOutline | app/api/files/route.ts:65-74 | the text is the pre-order outline, one line per node, two spaces per level, a directory's name ending in `/` |
| FilesRoute.OutlineSize | app/api/files/route.ts:65-74 | the outline has one line per node at every depth |
| FilesRoute.RenderLinesNewlines | app/api/files/route.ts:69-71 | lines without line breaks in their labels give exactly one newline each |
| FilesRoute.TreeToTextLineCount | app/api/files/route.ts:65-74 | the text has as many newlines as the tree has nodes when no name holds one |
| FilesRoute.TreeToTextFirstLine | app/api/files/route.ts:66-72 | the text starts with the first top-level node, unindented |
| FilesRoute.ParseQuery | app/api/files/route.ts:78-84 | `fullTree` is on only for the value "true"; the ignore set is the non-empty trims of the `ignore` values |
| FilesRoute.OrDefault | app/api/files/route.ts:79-81 | a present, non-empty parameter is taken as it is; an absent or empty one takes the default |
| FilesRoute.ParseQueryDefaults | app/api/files/route.ts:79-82 | no parameters mean path ".", limit "50", offset "0", no tree, nothing ignored; an empty path counts as absent |
| FilesRoute.ReadSelectedFiles | app/api/files/route.ts:96-102 | the read loop gives exactly the readable selected files, in order |
| FilesRoute.SelectedFilesData | app/api/files/route.ts:96-102 | no more reports than selected paths, each one a readable path with its text |
| FilesRoute.SelectedFilesDataMembers | app/api/files/route.ts:96-102 | a file is reported exactly when selected and readable, with its text; at most one report per selected path |
| FilesRoute.Get | app/api/files/route.ts:76-108 | the full tree excludes a listing and vice versa; listed files' data is reported exactly when some are selected |
| FilesRoute.GetFullTree | app/api/files/route.ts:86-92 | asking for the tree answers the text of the pruned full tree of the working directory |
| FilesRoute.ResolvePath | app/api/files/route.ts:86 | resolving extends the base path, and a path of "." segments resolves to the base itself |
| FilesRoute.GetDefaultListing | app/api/files/route.ts:79-81 | a request without parameters answers the first 50 entries of the working directory |
| HomePage.TokenRecommendation | app/page.tsx:29-33 | "Low" iff below 5000, "Medium" iff 5000 to 14999, "High" iff 15000 or more |
| HomePage.TokenRecommendationMonotone | app/page.tsx:29-33 | more tokens never give a lower tier |
| HomePage.ParseIgnoreList | app/page.tsx:103-108 | no ignored name is "" and every ignored name has no white space at either end |
| HomePage.ParseIgnoreListMembers | app/page.tsx:103-108 | the ignore set holds the trimmed form of every non-blank piece between commas, and nothing else |
| HomePage.ParseIgnoreListJoin | app/page.tsx:103-108 | comma-joined names without commas or surrounding blanks parse back to exactly those names |
| HomePage.SpacedName | app/page.tsx:106 | `trim` removes exactly the space typed after a comma |
| HomePage.Spaced | app/page.tsx:17 | names typed as `a, b, c` give one piece per name, each after the first preceded by a space |
| HomePage.ParseSpacedList | app/page.tsx:103-108 | names typed as `a, b, c` are ignored exactly |
| HomePage.DefaultIgnoreSpaced | app/page.tsx:17 | the initial box is its five names typed as `a, b, c` |
| HomePage.DefaultNamesPlain | app/page.tsx:17 | the five default names are non-empty, comma-free and trimmed |
| HomePage.DefaultIgnoreSet | app/page.tsx:17 | the initial box ignores exactly node_modules, `.*`, `_*`, dist and build |
| HomePage.DefaultIgnoreLiteral | app/page.tsx:17 | `.*` and `_*` match no other name: `.git` or `_build` is not ignored |
| HomePage.HandleGenerate | app/page.tsx:100-108 | without a root nothing happens; otherwise the ignore set handed on is the parsed box |
| TreeAgreement.TreeXmlCons | lib/xmlBuilder.ts:39-53 | the XML of a node followed by others is the node's XML followed by theirs |
| TreeAgreement.DirectoryXmlIsTree | lib/xmlBuilder.ts:25-56 | the XML directory section is the route's full tree written as XML, and both fail on the same directories |
| TreeAgreement.EntriesXmlIsTree | lib/xmlBuilder.ts:39-53 | the entries of a section are the nodes of the tree for those entries, written as XML |
| TreeAgreement.DirectoryXmlShape | lib/xmlBuilder.ts:25-56 | a readable tree's section is its tags around a pruned, name-ordered tree |

## Left out

- The browser's file-system API and `readFileContent` (lib/fsUtils.ts:15-18) are the in-memory `Node` model. A read failure is a file whose content is `None`; a denied or stale directory is one that is not `listable`.
- `showDirectoryPicker` is the `Option` argument of `PickDirectory`. `None` stands for a dismissed, refused or unsupported picker.
- React state and asynchrony are not modelled. Each store method runs to completion on the current state, so stale closures and interleaved updates are not captured.
- `console.error` calls are side effects only and are not modelled.
- The clipboard, toasts, rendering and token estimate of app/page.tsx (lines 51-97 and the JSX) are not part of this model. The same goes for `generateOutput`, `isBatchUpdating` and `toggleDirectorySelection`, which page.tsx refers to but which are absent from the files modelled.
- `localeCompare` is modelled by the lexicographic order on code points (`Sorting.NameLe`). Locale collation rules are not modelled.
- Array.prototype.sort is modelled by a stable insertion sort. Both give the same order up to ties of equal names.
- A JavaScript `Set` of selected paths is a duplicate-free sequence in insertion order. The directory registry and listings are Dafny maps.
- `path.join` and `path.resolve` are string concatenation with "/" (FilesRoute.JoinPath, FilesRoute.ResolvePath). Normalisation of `..`, absolute `path` values and empty segments (a trailing or repeated slash) is not modelled: `?path=src/` walks to a child named `""`, finds none and answers `Failed`, where the route lists `src`.
- `Number()` is a parameter of `FilesRoute.Get` from text to integer. NaN, fractions and infinities are not modelled.
- limit, offset, token counts and document ids are unbounded integers. JavaScript's double precision is not modelled.
- `fs.readFile` is the map `readable` from path to text. Encodings and errors other than "cannot be read" are not modelled.
- HTTP plumbing and `NextResponse.json` serialisation are not modelled; `FilesRoute.Response` is the JSON body as a value.
- The four `+=` that write one document (lib/xmlBuilder.ts:79-82) are one append of `XmlBuilder.DocumentXml`; nothing observes the intermediate string.
- XmlBuilder.DocumentXmlReadsBack: covers only content without `]]>`. The source does not escape CDATA content, so other content ends the section early (see `XmlBuilder.CdataEndCutsContent`).
- FilesRoute.Get: states the mode selection and the presence of the selected-files data, not every field. The fields are pinned down by `GetFullTree`, `GetDefaultListing` and the `ListDirectory` lemmas.
- `DirectoryState.InheritedNames` holds the members of a standard `Object.prototype`. Members that other code adds to it at run time are not modelled.

## Findings

| source | as written | input that shows it | evidently intended | confidence | as-written member | corrected member |
|---|---|---|---|---|---|---|
| hooks/useDirectoryState.ts:108 | `!directoryData[dirPath]` tests a plain object (line 17), so a name every object inherits from `Object.prototype` counts as a listing already loaded | pick a root that holds a subdirectory named `constructor` (or `toString`, `valueOf`, …) and expand it: the path is marked expanded but `loadDirectory` is never called, so it has no listing | only the object's own listings count (`Object.hasOwn`, or a `Map` as for the handles), so every unloaded directory is loaded when first expanded | medium; not executed | DirectoryState.InheritedNameNeverLoaded | DirectoryState.ExpandIntended |
| lib/xmlBuilder.ts:13-20 | `escapeXmlAttribute` replaces only `&` and `"`, though its doc comment promises to escape the XML special characters; the value is written into `name="…"` at lines 38 and 51 | a file or directory named `a<b` gives `<file name="a<b" />`, and a raw `<` in an attribute value is not well-formed (section 3.1 of XML 1.0) | `<` is escaped as `&lt;` too | medium; not executed | XmlBuilder.AttributeKeepsAngles | XmlBuilder.EscapeXmlAttributeIntended |

`DirectoryStore.ToggleDirectory` keeps the behaviour as written, through `Expand`.
`ExpandIntended` is the corrected expansion, and `ExpandAgreesOffInherited` shows that the two differ only on the inherited names.
`XmlBuilder.EscapeXmlAttribute` keeps the escape as written. `UnescapeEscapeXmlAttributeIntended` proves that the corrected escape still reads back exactly.
