/**
 * lib/fsUtils.ts, over an in-memory model of the file system that the
 * browser's directory handles expose.
 */
module FsUtils {
  import opened Wrappers
  import opened Text
  import opened Sorting

  /**
   * A file system entry. A file whose `content` is `None` cannot be read
   * (`getFile`/`text` fail); a directory that is not `listable` can be
   * neither enumerated nor looked into (stale handle, denied permission).
   */
  datatype Node =
    | File(name: string, content: Option<string>)
    | Dir(name: string, children: seq<Node>, listable: bool)

  /** A directory handle. */
  type DirHandle = n: Node | n.Dir? witness Dir(".", [], true)

  datatype EntryType = FileEntry | DirectoryEntry

  /** `FileNode`: what a listing shows of one entry. */
  datatype FileNode = FileNode(name: string, path: string, kind: EntryType)

  function KindOf(n: Node): (k: EntryType)
    ensures k == DirectoryEntry <==> n.Dir?
  {
    if n.Dir? then DirectoryEntry else FileEntry
  }

  /** The first child called `name`. */
  function ChildNamed(cs: seq<Node>, name: string): (r: Option<Node>)
    ensures r.Some? ==> r.value in cs && r.value.name == name
    ensures r.None? <==> forall c :: c in cs ==> c.name != name
  {
    if cs == [] then None
    else if cs[0].name == name then Some(cs[0])
    else ChildNamed(cs[1..], name)
  }

  /** `dir.getDirectoryHandle(name)`: fails when there is no such entry or it is a file. */
  function GetDirectoryHandle(d: DirHandle, name: string): (r: Option<DirHandle>)
    ensures r.Some? ==> d.listable && r.value in d.children && r.value.name == name
  {
    if !d.listable then None
    else match ChildNamed(d.children, name)
      case Some(c) => if c.Dir? then Some(c) else None
      case None => None
  }

  /** `dir.getFileHandle(name)`: fails when there is no such entry or it is a directory. */
  function GetFileHandle(d: DirHandle, name: string): (r: Option<Node>)
    ensures r.Some? ==> d.listable && r.value.File? && r.value in d.children && r.value.name == name
  {
    if !d.listable then None
    else match ChildNamed(d.children, name)
      case Some(c) => if c.File? then Some(c) else None
      case None => None
  }

  /** `shouldIgnoreDirectory`: exact membership of the name in the ignore set. */
  function ShouldIgnoreDirectory(dirName: string, ignoredDirs: set<string>): (r: bool)
    ensures r <==> dirName in ignoredDirs
  {
    dirName in ignoredDirs
  }

  /**
   * No pattern is interpreted: a pattern ignores exactly the one name equal
   * to it, so `*` in a pattern matches nothing but a literal `*`.
   */
  lemma IgnoreIsExactMatch(dirName: string, pattern: string)
    ensures ShouldIgnoreDirectory(dirName, {pattern}) <==> dirName == pattern
  {
  }

  /** The comparator of `sortEntries`: directories first, then by name. */
  predicate DirsFirst(a: FileNode, b: FileNode) {
    if a.kind != b.kind then a.kind == DirectoryEntry else NameLe(a.name, b.name)
  }

  lemma DirsFirstTotalPreorder()
    ensures TotalPreorder(DirsFirst)
  {
    NameLeTotalPreorder();
  }

  /**
   * `sortEntries`: a sorted copy of the entries, a permutation of them in
   * which every directory precedes every file and entries of one kind are in
   * name order. (Dafny sequences are values, so the input is left as it was.)
   */
  function SortEntries(entries: seq<FileNode>): (r: seq<FileNode>)
    ensures multiset(r) == multiset(entries)
    ensures forall i, j :: 0 <= i < j < |r| && r[j].kind == DirectoryEntry ==> r[i].kind == DirectoryEntry
    ensures forall i, j :: 0 <= i < j < |r| && r[i].kind == r[j].kind ==> NameLe(r[i].name, r[j].name)
  {
    DirsFirstTotalPreorder();
    SortSorted(entries, DirsFirst);
    Sort(entries, DirsFirst)
  }

  /** The comparator `(a, b) => a.name.localeCompare(b.name)` on handles. */
  predicate NodeByName(a: Node, b: Node) {
    NameLe(a.name, b.name)
  }

  /** A listing sorted by `(a, b) => a.name.localeCompare(b.name)`. */
  function SortNodes(cs: seq<Node>): (r: seq<Node>)
    ensures multiset(r) == multiset(cs)
    ensures |r| == |cs|
  {
    assert |multiset(cs)| == |cs|;
    Sort(cs, NodeByName)
  }

  lemma SortNodesMembers(cs: seq<Node>)
    ensures forall e :: e in SortNodes(cs) <==> e in cs
  {
    SortMembers(cs, NodeByName);
  }

  lemma SortNodesSorted(cs: seq<Node>)
    ensures SortedBy(SortNodes(cs), NodeByName)
  {
    assert TotalPreorder(NodeByName) by {
      NameLeTotalPreorder();
    }
    SortSorted(cs, NodeByName);
  }

  /** Every directory reached from `d` without entering an ignored name can be enumerated. */
  predicate ListableUnder(d: DirHandle, ignored: set<string>)
    decreases d
  {
    d.listable && forall c :: c in d.children && c.Dir? && c.name !in ignored ==> ListableUnder(c, ignored)
  }

  /**
   * Follows `parts` down from `d`: "." segments are skipped, every other
   * segment must name a subdirectory.
   */
  function Walk(d: DirHandle, parts: seq<string>): (r: Option<DirHandle>)
    ensures r.Some? && parts != [] && parts[|parts| - 1] != "." ==> r.value.name == parts[|parts| - 1]
  {
    if parts == [] then Some(d)
    else if parts[0] == "." then Walk(d, parts[1..])
    else match GetDirectoryHandle(d, parts[0])
      case None => None
      case Some(e) => Walk(e, parts[1..])
  }

  /** What `getFileFromPath` finds: the last segment looked up as a file where the others lead. */
  function ResolveFile(root: DirHandle, filePath: string): (r: Option<Node>)
    ensures r.Some? ==> r.value.File? && r.value.name == BaseSegment(filePath)
  {
    var parts := Split(filePath, '/');
    match Walk(root, parts[..|parts| - 1])
      case None => None
      case Some(d) => GetFileHandle(d, parts[|parts| - 1])
  }

  function BaseSegment(filePath: string): string
  {
    var parts := Split(filePath, '/');
    parts[|parts| - 1]
  }

  /** `getFileFromPath`: walks segment by segment, answering null as soon as one is missing. */
  method GetFileFromPath(rootHandle: DirHandle, filePath: string) returns (r: Option<Node>)
    ensures r == ResolveFile(rootHandle, filePath)
  {
    var parts := Split(filePath, '/');
    var fileName := parts[|parts| - 1];
    parts := parts[..|parts| - 1];
    var current := rootHandle;
    var i := 0;
    while i < |parts|
      invariant 0 <= i <= |parts|
      invariant Walk(rootHandle, parts) == Walk(current, parts[i..])
    {
      if parts[i] != "." {
        var next := GetDirectoryHandle(current, parts[i]);
        if next.None? {
          return None;
        }
        current := next.value;
      }
      assert parts[i..][1..] == parts[i + 1..];
      i := i + 1;
    }
    r := GetFileHandle(current, fileName);
  }

  /** A path without a slash is looked up directly in the root. */
  lemma ResolveWithoutSlash(root: DirHandle, filePath: string)
    requires '/' !in filePath
    ensures ResolveFile(root, filePath) == GetFileHandle(root, filePath)
  {
    SplitNoSeparator(filePath, '/');
  }

  /** Following `a + b` is following `a`, then `b` from where `a` led. */
  lemma {:induction false} WalkAppend(d: DirHandle, a: seq<string>, b: seq<string>)
    ensures Walk(d, a + b) == match Walk(d, a) case None => None case Some(e) => Walk(e, b)
  {
    if a != [] {
      assert (a + b)[1..] == a[1..] + b;
      if a[0] == "." {
        WalkAppend(d, a[1..], b);
      } else if GetDirectoryHandle(d, a[0]).Some? {
        WalkAppend(GetDirectoryHandle(d, a[0]).value, a[1..], b);
      }
    } else {
      assert a + b == b;
    }
  }

  /**
   * One missing directory on the way answers null, whatever the segments
   * after it name.
   */
  lemma ResolveMissingDirectory(root: DirHandle, filePath: string, i: nat, e: DirHandle)
    requires var parts := Split(filePath, '/'); i < |parts| - 1
    requires var parts := Split(filePath, '/');
      Walk(root, parts[..i]) == Some(e) && parts[i] != "." && GetDirectoryHandle(e, parts[i]).None?
    ensures ResolveFile(root, filePath) == None
  {
    var parts := Split(filePath, '/');
    var dirs := parts[..|parts| - 1];
    assert dirs == parts[..i] + dirs[i..];
    WalkAppend(root, parts[..i], dirs[i..]);
  }
}
