/**
 * hooks/useDirectoryState.ts: the tree-state store. It holds the root
 * handle, the handle registry (path key to directory handle), the loaded
 * listings, the expanded paths and the selected file paths, and updates them
 * as the user picks, expands, collapses, selects and refreshes.
 */
module DirectoryState {
  import opened Wrappers
  import opened Sorting
  import opened Paths
  import opened FsUtils

  /** `DirectoryData`: one loaded listing. */
  datatype DirectoryData = DirectoryData(entries: seq<FileNode>, hasMore: bool)

  /** A subdirectory discovered while listing, with the handle to re-enter it by. */
  datatype SubDir = SubDir(path: string, handle: DirHandle)

  /** What `readDirectoryEntries` returns. */
  datatype Listing = Listing(entries: seq<FileNode>, subDirs: seq<SubDir>)

  /** The handle registry and the loaded listings, the two tables a load updates. */
  datatype Tables = Tables(handles: map<string, DirHandle>, data: map<string, DirectoryData>)

  /** The comparator `(a, b) => a.name.localeCompare(b.name)`. */
  predicate ByName(a: FileNode, b: FileNode) {
    NameLe(a.name, b.name)
  }

  function EntryOf(dirPath: string, c: Node): FileNode {
    FileNode(c.name, ChildPath(dirPath, c.name), KindOf(c))
  }

  /** The entries pushed for the children `cs`, in iteration order. */
  function EntriesOf(dirPath: string, cs: seq<Node>): seq<FileNode>
  {
    if cs == [] then [] else EntriesOf(dirPath, cs[..|cs| - 1]) + [EntryOf(dirPath, cs[|cs| - 1])]
  }

  /** One entry per child, in the children's order. */
  lemma {:induction false} EntriesOfAt(dirPath: string, cs: seq<Node>)
    ensures |EntriesOf(dirPath, cs)| == |cs|
    ensures forall i :: 0 <= i < |cs| ==> EntriesOf(dirPath, cs)[i] == EntryOf(dirPath, cs[i])
  {
    if cs != [] {
      EntriesOfAt(dirPath, cs[..|cs| - 1]);
    }
  }

  /** The subdirectories among the children `cs`, in iteration order, paired with their keys. */
  function SubDirsOf(dirPath: string, cs: seq<Node>): (r: seq<SubDir>)
    ensures |r| <= |cs|
    ensures forall sd :: sd in r ==> sd.path == ChildPath(dirPath, sd.handle.name)
  {
    if cs == [] then []
    else
      var c := cs[|cs| - 1];
      var prev := SubDirsOf(dirPath, cs[..|cs| - 1]);
      if c.Dir? then prev + [SubDir(ChildPath(dirPath, c.name), c)] else prev
  }

  /** The handles found are exactly the directory children, each under its own key. */
  lemma {:induction false} SubDirsOfExact(dirPath: string, cs: seq<Node>)
    ensures forall sd :: sd in SubDirsOf(dirPath, cs) ==> sd.handle in cs && sd.path == ChildPath(dirPath, sd.handle.name)
    ensures forall c :: c in cs && c.Dir? ==> SubDir(ChildPath(dirPath, c.name), c) in SubDirsOf(dirPath, cs)
  {
    if cs != [] {
      SubDirsOfExact(dirPath, cs[..|cs| - 1]);
      assert cs == cs[..|cs| - 1] + [cs[|cs| - 1]];
    }
  }

  /** `entries.sort((a, b) => a.name.localeCompare(b.name))`. */
  function SortByName(entries: seq<FileNode>): (r: seq<FileNode>)
    ensures multiset(r) == multiset(entries)
  {
    Sort(entries, ByName)
  }

  lemma SortByNameSorted(entries: seq<FileNode>)
    ensures SortedBy(SortByName(entries), ByName)
  {
    NameLeTotalPreorder();
    SortSorted(entries, ByName);
  }

  /**
   * What listing directory `d` at key `dirPath` yields: nothing when it
   * cannot be listed; otherwise one entry per child, keyed by `ChildPath`,
   * and exactly its subdirectories with their keys.
   */
  function ListingOf(d: DirHandle, dirPath: string): (r: Option<Listing>)
    ensures r.Some? <==> d.listable
  {
    if !d.listable then None
    else Some(Listing(SortByName(EntriesOf(dirPath, d.children)), SubDirsOf(dirPath, d.children)))
  }

  /**
   * A listing has one entry per child, in name order: a permutation of the
   * children's entries, each keyed by `ChildPath` and typed by its kind.
   */
  lemma ListingSorted(d: DirHandle, dirPath: string)
    requires d.listable
    ensures multiset(ListingOf(d, dirPath).value.entries) == multiset(EntriesOf(dirPath, d.children))
    ensures |ListingOf(d, dirPath).value.entries| == |d.children|
    ensures SortedBy(ListingOf(d, dirPath).value.entries, ByName)
    ensures forall e :: e in ListingOf(d, dirPath).value.entries ==>
      e.path == ChildPath(dirPath, e.name) && exists c :: c in d.children && e == EntryOf(dirPath, c)
  {
    var entries := ListingOf(d, dirPath).value.entries;
    var unsorted := EntriesOf(dirPath, d.children);
    EntriesOfAt(dirPath, d.children);
    assert |entries| == |multiset(entries)| == |multiset(unsorted)|;
    SortByNameSorted(unsorted);
    forall e | e in entries
      ensures e.path == ChildPath(dirPath, e.name) && exists c :: c in d.children && e == EntryOf(dirPath, c)
    {
      assert e in multiset(unsorted);
      var i :| 0 <= i < |unsorted| && unsorted[i] == e;
      assert d.children[i] in d.children;
    }
  }

  /** `readDirectoryEntries`: pushes one entry per child (and one handle per subdirectory), then sorts. */
  method ReadDirectoryEntries(dirHandle: DirHandle, dirPath: string) returns (r: Option<Listing>)
    ensures r == ListingOf(dirHandle, dirPath)
  {
    if !dirHandle.listable {
      return None;
    }
    var cs := dirHandle.children;
    var entries: seq<FileNode> := [];
    var subDirs: seq<SubDir> := [];
    var i := 0;
    while i < |cs|
      invariant 0 <= i <= |cs|
      invariant entries == EntriesOf(dirPath, cs[..i])
      invariant subDirs == SubDirsOf(dirPath, cs[..i])
    {
      var entry := cs[i];
      var nodePath := ChildPath(dirPath, entry.name);
      if entry.Dir? {
        entries := entries + [FileNode(entry.name, nodePath, DirectoryEntry)];
        subDirs := subDirs + [SubDir(nodePath, entry)];
      } else {
        entries := entries + [FileNode(entry.name, nodePath, FileEntry)];
      }
      assert cs[..i + 1][..i] == cs[..i];
      i := i + 1;
    }
    assert cs[..i] == cs;
    entries := SortByName(entries);
    r := Some(Listing(entries, subDirs));
  }

  function PathsOf(subDirs: seq<SubDir>): set<string> {
    set sd | sd in subDirs :: sd.path
  }

  /**
   * `subDirs.forEach(sub => map.set(sub.path, sub.handle))`: the keys grow by
   * exactly the subdirectory keys, other keys keep their handles, and a key
   * set several times keeps the last handle set.
   */
  function AddHandles(m: map<string, DirHandle>, subDirs: seq<SubDir>): (r: map<string, DirHandle>)
    ensures r.Keys == m.Keys + PathsOf(subDirs)
    ensures forall k :: k in m && k !in PathsOf(subDirs) ==> r[k] == m[k]
  {
    if subDirs == [] then m
    else
      var last := subDirs[|subDirs| - 1];
      var prev := subDirs[..|subDirs| - 1];
      assert subDirs == prev + [last];
      assert PathsOf(subDirs) == PathsOf(prev) + {last.path};
      AddHandles(m, prev)[last.path := last.handle]
  }

  /** A key set several times keeps the handle set last. */
  lemma {:induction false} AddHandlesLastWins(m: map<string, DirHandle>, subDirs: seq<SubDir>, i: nat)
    requires i < |subDirs|
    requires forall j :: i < j < |subDirs| ==> subDirs[j].path != subDirs[i].path
    ensures AddHandles(m, subDirs)[subDirs[i].path] == subDirs[i].handle
  {
    var prev, last := subDirs[..|subDirs| - 1], subDirs[|subDirs| - 1];
    assert AddHandles(m, subDirs) == AddHandles(m, prev)[last.path := last.handle];
    if i < |subDirs| - 1 {
      assert prev[i] == subDirs[i];
      assert last.path != subDirs[i].path;
      AddHandlesLastWins(m, prev, i);
    }
  }

  /** A key set only to one handle, however often, ends up holding that handle. */
  lemma {:induction false} AddHandlesAgreeing(m: map<string, DirHandle>, subDirs: seq<SubDir>, k: string, v: DirHandle)
    requires exists sd :: sd in subDirs && sd.path == k
    requires forall sd :: sd in subDirs && sd.path == k ==> sd.handle == v
    ensures AddHandles(m, subDirs)[k] == v
  {
    var prev, last := subDirs[..|subDirs| - 1], subDirs[|subDirs| - 1];
    assert subDirs == prev + [last];
    assert AddHandles(m, subDirs) == AddHandles(m, prev)[last.path := last.handle];
    if last.path != k {
      var sd :| sd in subDirs && sd.path == k;
      assert sd in prev;
      AddHandlesAgreeing(m, prev, k, v);
    }
  }

  /** `loadDirectory` on the two tables, the registry and the loaded listings. */
  function Load(t: Tables, dirPath: string): (r: Tables)
    ensures t.handles.Keys <= r.handles.Keys
    ensures r.data.Keys <= t.data.Keys + {dirPath}
    ensures dirPath in r.data <==> dirPath in t.data || (dirPath in t.handles && t.handles[dirPath].listable)
  {
    if dirPath !in t.handles then t
    else match ListingOf(t.handles[dirPath], dirPath)
      case None => t
      case Some(l) =>
        Tables(
          if |l.subDirs| > 0 then AddHandles(t.handles, l.subDirs) else t.handles,
          t.data[dirPath := DirectoryData(l.entries, false)])
  }

  /**
   * What a load changes: without a registered handle, or when the listing
   * fails, nothing; otherwise only `dirPath`'s listing is replaced (in name
   * order, with `hasMore` false) and the registry gains exactly the keys of
   * the subdirectories found, every other entry keeping its handle.
   */
  lemma LoadFrame(t: Tables, dirPath: string)
    ensures dirPath !in t.handles ==> Load(t, dirPath) == t
    ensures dirPath in t.handles && !t.handles[dirPath].listable ==> Load(t, dirPath) == t
    ensures forall k :: k != dirPath ==> (k in Load(t, dirPath).data <==> k in t.data)
    ensures forall k :: k != dirPath && k in t.data ==> Load(t, dirPath).data[k] == t.data[k]
    ensures dirPath in t.handles && t.handles[dirPath].listable ==>
      var r, l := Load(t, dirPath), ListingOf(t.handles[dirPath], dirPath).value;
      && r.data.Keys == t.data.Keys + {dirPath}
      && r.data[dirPath] == DirectoryData(l.entries, false)
      && r.handles.Keys == t.handles.Keys + PathsOf(l.subDirs)
      && (forall k :: k in t.handles && k !in PathsOf(l.subDirs) ==> r.handles[k] == t.handles[k])
  {
  }

  /**
   * The tables after a successful pick or refresh of root `h`: only "." is
   * loaded, and the registry holds "." and the root's subdirectories.
   */
  function RootTables(h: DirHandle, l: Listing): (r: Tables)
    ensures r.data.Keys == {"."}
    ensures r.handles.Keys == {"."} + PathsOf(l.subDirs)
  {
    Tables(AddHandles(map["." := h], l.subDirs), map["." := DirectoryData(l.entries, false)])
  }

  /**
   * After a successful pick or refresh the only listing is the root's, and
   * the registry is exactly "." plus the keys of the root's subdirectories;
   * "." still maps to the root unless the root has a subdirectory called ".",
   * and each subdirectory whose name no other subdirectory shares is
   * registered under its name with its own handle.
   */
  lemma RootTablesShape(h: DirHandle)
    requires h.listable
    ensures RootTables(h, ListingOf(h, ".").value).data.Keys == {"."}
    ensures RootTables(h, ListingOf(h, ".").value).handles.Keys == {"."} + (set c | c in h.children && c.Dir? :: c.name)
    ensures (forall c :: c in h.children && c.Dir? ==> c.name != ".") ==> RootTables(h, ListingOf(h, ".").value).handles["."] == h
    ensures forall c :: c in h.children && c.Dir? && (forall d :: d in h.children && d.Dir? && d.name == c.name ==> d == c) ==>
      RootTables(h, ListingOf(h, ".").value).handles[c.name] == c
  {
    var l := ListingOf(h, ".").value;
    var names := set c | c in h.children && c.Dir? :: c.name;
    SubDirsOfExact(".", h.children);
    forall k | k in PathsOf(l.subDirs)
      ensures k in names
    {
      var sd :| sd in l.subDirs && sd.path == k;
    }
    forall k | k in names
      ensures k in PathsOf(l.subDirs)
    {
      var c :| c in h.children && c.Dir? && c.name == k;
      assert SubDir(ChildPath(".", c.name), c) in l.subDirs;
    }
    assert PathsOf(l.subDirs) == names;
    forall c | c in h.children && c.Dir? && (forall d :: d in h.children && d.Dir? && d.name == c.name ==> d == c)
      ensures RootTables(h, l).handles[c.name] == c
    {
      assert SubDir(ChildPath(".", c.name), c) in l.subDirs;
      forall sd | sd in l.subDirs && sd.path == c.name
        ensures sd.handle == c
      {
        assert sd.handle in h.children;
      }
      AddHandlesAgreeing(map["." := h], l.subDirs, c.name, c);
    }
  }

  /**
   * The names a plain JavaScript object inherits from `Object.prototype`.
   * Looking one of them up on an object built from `{}` gives a function or
   * an object, which is truthy, and never `undefined`.
   */
  const InheritedNames: set<string> := {
    "constructor", "hasOwnProperty", "isPrototypeOf", "propertyIsEnumerable",
    "toLocaleString", "toString", "valueOf", "__proto__",
    "__defineGetter__", "__defineSetter__", "__lookupGetter__", "__lookupSetter__"}

  /**
   * What expanding `dirPath` does to the tables in `toggleDirectory`, whose
   * test `!directoryData[dirPath]` reads a plain object: a path with its own
   * listing, or named after a member every object inherits, is not loaded;
   * any other path is loaded.
   */
  function Expand(t: Tables, dirPath: string): (r: Tables)
    ensures dirPath in t.data || dirPath in InheritedNames ==> r == t
    ensures dirPath !in t.data && dirPath !in InheritedNames ==> r == Load(t, dirPath)
    ensures t.handles.Keys <= r.handles.Keys
  {
    if dirPath in t.data || dirPath in InheritedNames then t else Load(t, dirPath)
  }

  /**
   * The expansion the check is meant to make, on own listings only (a `Map`
   * or `Object.hasOwn`): a registered directory that can be listed always
   * has its listing once it is expanded.
   */
  function ExpandIntended(t: Tables, dirPath: string): (r: Tables)
    ensures dirPath in t.data ==> r == t
    ensures dirPath in t.handles && t.handles[dirPath].listable ==> dirPath in r.data
    ensures t.handles.Keys <= r.handles.Keys
  {
    if dirPath in t.data then t else Load(t, dirPath)
  }

  /** The two expansions differ only on the inherited names. */
  lemma ExpandAgreesOffInherited(t: Tables, dirPath: string)
    requires dirPath !in InheritedNames
    ensures Expand(t, dirPath) == ExpandIntended(t, dirPath)
  {
  }

  /**
   * A root subdirectory named `constructor` is registered after a pick, yet
   * expanding it as written leaves it without a listing, where the intended
   * expansion loads it.
   */
  lemma InheritedNameNeverLoaded(h: DirHandle, c: Node)
    requires h.listable && c in h.children && c.Dir? && c.listable && c.name == "constructor"
    requires forall d :: d in h.children && d.Dir? && d.name == c.name ==> d == c
    ensures var t := RootTables(h, ListingOf(h, ".").value);
      && c.name in t.handles && t.handles[c.name] == c
      && c.name !in Expand(t, c.name).data
      && c.name in ExpandIntended(t, c.name).data
  {
    RootTablesShape(h);
    assert c.name in InheritedNames;
  }

  /** Every loaded path has a handle, and every loaded listing is in name order and complete. */
  ghost predicate TablesValid(t: Tables) {
    && t.data.Keys <= t.handles.Keys
    && forall p :: p in t.data ==> SortedBy(t.data[p].entries, ByName) && !t.data[p].hasMore
  }

  /** A successful pick or refresh leaves valid tables that register ".". */
  lemma RootTablesValid(h: DirHandle)
    requires h.listable
    ensures TablesValid(RootTables(h, ListingOf(h, ".").value))
    ensures "." in RootTables(h, ListingOf(h, ".").value).handles
  {
    ListingSorted(h, ".");
  }

  /** A load keeps the tables valid and never drops a handle. */
  lemma LoadKeepsTablesValid(t: Tables, dirPath: string)
    requires TablesValid(t)
    ensures TablesValid(Load(t, dirPath))
    ensures t.handles.Keys <= Load(t, dirPath).handles.Keys
  {
    if dirPath in t.handles && t.handles[dirPath].listable {
      ListingSorted(t.handles[dirPath], dirPath);
    }
  }

  predicate Distinct(s: seq<string>) {
    forall i, j :: 0 <= i < j < |s| ==> s[i] != s[j]
  }

  /** `Set.prototype.delete` on an insertion-ordered set: the others keep their order. */
  function Remove(s: seq<string>, p: string): (r: seq<string>)
    ensures forall q :: q in r <==> q in s && q != p
    ensures Distinct(s) ==> Distinct(r)
    ensures p !in s ==> r == s
  {
    if s == [] then []
    else if s[0] == p then Remove(s[1..], p)
    else
      var rest := Remove(s[1..], p);
      assert Distinct(s) ==> s[0] !in s[1..];
      [s[0]] + rest
  }

  /**
   * `toggleFileSelection` on the selection in insertion order: `p` is
   * dropped if present and appended otherwise; every other path keeps its
   * membership.
   */
  function ToggleMember(s: seq<string>, p: string): (r: seq<string>)
    ensures p in r <==> p !in s
    ensures forall q :: q != p ==> (q in r <==> q in s)
    ensures Distinct(s) ==> Distinct(r)
  {
    if p in s then Remove(s, p) else s + [p]
  }

  /**
   * Toggling a path twice restores the selection as a set; when the path was
   * selected it comes back at the end of the iteration order.
   */
  lemma {:induction false} ToggleTwice(s: seq<string>, p: string)
    requires Distinct(s)
    ensures forall q :: q in ToggleMember(ToggleMember(s, p), p) <==> q in s
    ensures p !in s ==> ToggleMember(ToggleMember(s, p), p) == s
    ensures p in s ==> ToggleMember(ToggleMember(s, p), p) == Remove(s, p) + [p]
  {
    if p !in s {
      RemoveLast(s, p);
    }
  }

  lemma {:induction false} RemoveLast(s: seq<string>, p: string)
    requires p !in s
    ensures Remove(s + [p], p) == s
  {
    if s != [] {
      RemoveLast(s[1..], p);
      assert (s + [p])[1..] == s[1..] + [p];
      assert s == [s[0]] + s[1..];
    }
  }

  class DirectoryStore {
    var rootDirectoryHandle: Option<DirHandle>
    var directoryHandles: map<string, DirHandle>
    var directoryData: map<string, DirectoryData>
    var expandedDirectories: set<string>
    /** The selected file paths in the insertion order a JavaScript `Set` iterates them in. */
    var selectedFiles: seq<string>

    /**
     * Every loaded path has a handle, a store without a root has no handles
     * and a store with one registers ".", no path is selected twice, and
     * every loaded listing is in name order and complete.
     */
    ghost predicate Valid()
      reads this
    {
      && TablesValid(Tables(directoryHandles, directoryData))
      && (rootDirectoryHandle.None? ==> directoryHandles == map[])
      && (rootDirectoryHandle.Some? ==> "." in directoryHandles)
      && Distinct(selectedFiles)
    }

    function CurrentTables(): Tables
      reads this
    {
      Tables(directoryHandles, directoryData)
    }

    constructor ()
      ensures Valid()
      ensures rootDirectoryHandle == None && directoryHandles == map[] && directoryData == map[]
      ensures expandedDirectories == {} && selectedFiles == []
    {
      rootDirectoryHandle := None;
      directoryHandles := map[];
      directoryData := map[];
      expandedDirectories := {};
      selectedFiles := [];
    }

    /** `resetState`: clears the listings, the expanded set and the selection; root and registry stay. */
    method ResetState()
      requires Valid()
      modifies this`directoryData, this`expandedDirectories, this`selectedFiles
      ensures Valid()
      ensures directoryData == map[] && expandedDirectories == {} && selectedFiles == []
    {
      directoryData := map[];
      expandedDirectories := {};
      selectedFiles := [];
    }

    /**
     * `pickDirectory`, given what the picker produced (`None` when it was
     * dismissed, refused or unsupported). The reset comes before the root is
     * read, so a root that cannot be listed leaves the store cleared with
     * its previous root and registry.
     */
    method PickDirectory(picked: Option<DirHandle>)
      requires Valid()
      modifies this
      ensures Valid()
      ensures picked.None? ==> unchanged(this)
      ensures picked.Some? ==>
        && expandedDirectories == {} && selectedFiles == []
        && match ListingOf(picked.value, ".")
          case None =>
            && directoryData == map[]
            && rootDirectoryHandle == old(rootDirectoryHandle)
            && directoryHandles == old(directoryHandles)
          case Some(l) =>
            && rootDirectoryHandle == picked
            && CurrentTables() == RootTables(picked.value, l)
    {
      if picked.None? {
        return;
      }
      var handle := picked.value;
      ResetState();
      var listing := ReadDirectoryEntries(handle, ".");
      if listing.None? {
        return;
      }
      RootTablesValid(handle);
      var tables := RootTables(handle, listing.value);
      rootDirectoryHandle := Some(handle);
      directoryHandles := tables.handles;
      directoryData := tables.data;
    }

    /** `loadDirectory`: the tables become `Load` of the old ones; nothing else changes. */
    method LoadDirectory(dirPath: string)
      requires Valid()
      modifies this`directoryData, this`directoryHandles
      ensures Valid()
      ensures CurrentTables() == Load(old(CurrentTables()), dirPath)
    {
      if dirPath !in directoryHandles {
        return;
      }
      var dirHandle := directoryHandles[dirPath];
      var listing := ReadDirectoryEntries(dirHandle, dirPath);
      if listing.None? {
        return;
      }
      ghost var before := CurrentTables();
      directoryData := directoryData[dirPath := DirectoryData(listing.value.entries, false)];
      if |listing.value.subDirs| > 0 {
        directoryHandles := AddHandles(directoryHandles, listing.value.subDirs);
      }
      LoadKeepsTablesValid(before, dirPath);
    }

    /**
     * `toggleDirectory`: collapsing removes only `dirPath` from the expanded
     * set; expanding loads it when the listings object has nothing truthy
     * under that name (see `Expand`) and then marks it expanded, whether or
     * not the load succeeded.
     */
    method ToggleDirectory(dirPath: string)
      requires Valid()
      modifies this`expandedDirectories, this`directoryData, this`directoryHandles
      ensures Valid()
      ensures dirPath in old(expandedDirectories) ==>
        && expandedDirectories == old(expandedDirectories) - {dirPath}
        && CurrentTables() == old(CurrentTables())
      ensures dirPath !in old(expandedDirectories) ==>
        && expandedDirectories == old(expandedDirectories) + {dirPath}
        && CurrentTables() == Expand(old(CurrentTables()), dirPath)
    {
      if dirPath in expandedDirectories {
        expandedDirectories := expandedDirectories - {dirPath};
      } else {
        if dirPath !in directoryData && dirPath !in InheritedNames {
          LoadDirectory(dirPath);
        }
        expandedDirectories := expandedDirectories + {dirPath};
      }
    }

    /** `toggleFileSelection`: flips `filePath` in the selection and touches nothing else. */
    method ToggleFileSelection(filePath: string)
      requires Valid()
      modifies this`selectedFiles
      ensures Valid()
      ensures selectedFiles == ToggleMember(old(selectedFiles), filePath)
    {
      selectedFiles := ToggleMember(selectedFiles, filePath);
    }

    /**
     * `refreshDirectory`: a no-op without a root; otherwise the reset of
     * `PickDirectory` with the same root, which is kept even when it can no
     * longer be listed.
     */
    method RefreshDirectory()
      requires Valid()
      modifies this
      ensures Valid()
      ensures rootDirectoryHandle == old(rootDirectoryHandle)
      ensures old(rootDirectoryHandle).None? ==> unchanged(this)
      ensures old(rootDirectoryHandle).Some? ==>
        && expandedDirectories == {} && selectedFiles == []
        && match ListingOf(old(rootDirectoryHandle).value, ".")
          case None => directoryData == map[] && directoryHandles == old(directoryHandles)
          case Some(l) => CurrentTables() == RootTables(old(rootDirectoryHandle).value, l)
    {
      if rootDirectoryHandle.None? {
        return;
      }
      var root := rootDirectoryHandle.value;
      ResetState();
      var listing := ReadDirectoryEntries(root, ".");
      if listing.None? {
        return;
      }
      RootTablesValid(root);
      var tables := RootTables(root, listing.value);
      directoryHandles := tables.handles;
      directoryData := tables.data;
    }
  }
}
