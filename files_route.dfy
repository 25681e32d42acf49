/**
 * app/api/files/route.ts: the server-side listing route. `listDirectory`
 * answers one page of a directory, `buildFullTree` the whole tree below it
 * with ignored names pruned, `treeToText` renders that tree as indented
 * text, and `GET` picks one of them from the query parameters. The server's
 * file system is the same in-memory `Node` model the browser side uses.
 */
module FilesRoute {
  import opened Wrappers
  import opened Text
  import opened Sorting
  import opened FsUtils

  // ----------------------------------------------------------------- listing

  /** `path.join(dir, name)`, without its normalisation of `.`, `..` and repeated slashes. */
  function JoinPath(dir: string, name: string): (p: string)
    ensures |p| == |dir| + 1 + |name| && p[|dir|] == '/'
    ensures p[..|dir|] == dir && p[|dir| + 1..] == name
  {
    dir + "/" + name
  }

  /** An index handed to `Array.prototype.slice`: negative counts from the end, then clamped. */
  function SliceIndex(i: int, n: nat): (r: nat)
    ensures r <= n
    ensures 0 <= i <= n ==> r == i
    ensures i > n ==> r == n
    ensures i < 0 ==> r == (if n + i < 0 then 0 else n + i)
  {
    if i < 0 then (if n + i < 0 then 0 else n + i)
    else if i > n then n
    else i
  }

  /** `s.slice(start, end)`. */
  function JsSlice<T>(s: seq<T>, start: int, end: int): (r: seq<T>)
    ensures |r| <= |s|
    ensures 0 <= start <= end <= |s| ==> r == s[start..end]
  {
    var from := SliceIndex(start, |s|);
    var to := SliceIndex(end, |s|);
    if from < to then s[from..to] else []
  }

  /** What the listing says of one directory entry found in `dirPath`. */
  function EntryOf(dirPath: string, c: Node): FileNode {
    FileNode(c.name, JoinPath(dirPath, c.name), KindOf(c))
  }

  /** `sliced.map(...)`: one `FileNode` per entry, in order. */
  function EntriesOf(dirPath: string, cs: seq<Node>): (r: seq<FileNode>)
    ensures |r| == |cs|
  {
    if cs == [] then [] else [EntryOf(dirPath, cs[0])] + EntriesOf(dirPath, cs[1..])
  }

  /** The response of one listing request: a page of entries and whether more follow. */
  datatype Page = Page(entries: seq<FileNode>, hasMore: bool)

  /**
   * `listDirectory(dirPath, limit, offset)` on the directory `d` that
   * `dirPath` names: `None` when `readdir` rejects.
   */
  function ListDirectory(d: DirHandle, dirPath: string, limit: int, offset: int): (r: Option<Page>)
    ensures r.Some? <==> d.listable
  {
    if !d.listable then None
    else
      var allEntries := SortNodes(d.children);
      var sliced := JsSlice(allEntries, offset, offset + limit);
      Some(Page(EntriesOf(dirPath, sliced), offset + limit < |allEntries|))
  }

  lemma {:induction false} EntriesOfAt(dirPath: string, cs: seq<Node>, k: nat)
    requires k < |cs|
    ensures EntriesOf(dirPath, cs)[k] == EntryOf(dirPath, cs[k])
  {
    if k > 0 {
      EntriesOfAt(dirPath, cs[1..], k - 1);
    }
  }

  lemma {:induction false} EntriesOfAppend(dirPath: string, a: seq<Node>, b: seq<Node>)
    ensures EntriesOf(dirPath, a + b) == EntriesOf(dirPath, a) + EntriesOf(dirPath, b)
  {
    if a == [] {
      assert a + b == b;
    } else {
      assert (a + b)[1..] == a[1..] + b;
      EntriesOfAppend(dirPath, a[1..], b);
    }
  }

  /**
   * With a non-negative offset and limit, a page holds the entries from
   * position `offset` up to `offset + limit` of the name-sorted listing (as
   * many as there are), and `hasMore` says exactly whether entries remain
   * after it.
   */
  lemma ListDirectoryPage(d: DirHandle, dirPath: string, limit: int, offset: int)
    requires d.listable && 0 <= limit && 0 <= offset
    ensures var all := SortNodes(d.children);
      var n := |all|;
      var from := if offset < n then offset else n;
      var to := if offset + limit < n then offset + limit else n;
      var p := ListDirectory(d, dirPath, limit, offset).value;
      && p.entries == EntriesOf(dirPath, all[from..to])
      && |p.entries| == to - from
      && (p.hasMore <==> offset + limit < |d.children|)
  {
  }

  /** The page is the stretch of the sorted listing that `slice` picks. */
  lemma ListDirectorySlice(d: DirHandle, dirPath: string, limit: int, offset: int)
    requires d.listable
    ensures var all := SortNodes(d.children);
      var from := SliceIndex(offset, |all|);
      var to := SliceIndex(offset + limit, |all|);
      ListDirectory(d, dirPath, limit, offset).value.entries
        == EntriesOf(dirPath, if from < to then all[from..to] else [])
  {
  }

  /**
   * Every entry of a page is a child of the directory, named after it, with
   * the path joined from the directory's path and its name and the kind
   * "directory" exactly for a directory.
   */
  lemma ListDirectoryEntries(d: DirHandle, dirPath: string, limit: int, offset: int)
    requires d.listable
    ensures forall e :: e in ListDirectory(d, dirPath, limit, offset).value.entries ==>
      exists c :: c in d.children && e == EntryOf(dirPath, c)
  {
    var all := SortNodes(d.children);
    var from := SliceIndex(offset, |all|);
    var to := SliceIndex(offset + limit, |all|);
    var sliced := if from < to then all[from..to] else [];
    var entries := ListDirectory(d, dirPath, limit, offset).value.entries;
    ListDirectorySlice(d, dirPath, limit, offset);
    SortNodesMembers(d.children);
    forall e | e in entries
      ensures exists c :: c in d.children && e == EntryOf(dirPath, c)
    {
      var k :| 0 <= k < |entries| && entries[k] == e;
      EntriesOfAt(dirPath, sliced, k);
      assert sliced[k] in all;
    }
  }

  /** A stretch of a sorted sequence is sorted. */
  lemma SortedSlice(all: seq<Node>, from: nat, to: nat)
    requires from <= to <= |all|
    requires SortedBy(all, NodeByName)
    ensures SortedBy(all[from..to], NodeByName)
  {
    var s := all[from..to];
    forall i, j | 0 <= i < j < |s|
      ensures NodeByName(s[i], s[j])
    {
      assert s[i] == all[from + i] && s[j] == all[from + j];
    }
  }

  /** Entries made from children in name order are in name order. */
  lemma EntriesOfOrdered(dirPath: string, cs: seq<Node>)
    requires SortedBy(cs, NodeByName)
    ensures var es := EntriesOf(dirPath, cs);
      forall i, j :: 0 <= i < j < |es| ==> NameLe(es[i].name, es[j].name)
  {
    var es := EntriesOf(dirPath, cs);
    forall i, j | 0 <= i < j < |es|
      ensures NameLe(es[i].name, es[j].name)
    {
      EntriesOfAt(dirPath, cs, i);
      EntriesOfAt(dirPath, cs, j);
      assert NodeByName(cs[i], cs[j]);
    }
  }

  /** Whatever the offset and limit, a page is in name order. */
  lemma ListDirectoryOrdered(d: DirHandle, dirPath: string, limit: int, offset: int)
    requires d.listable
    ensures var entries := ListDirectory(d, dirPath, limit, offset).value.entries;
      forall i, j :: 0 <= i < j < |entries| ==> NameLe(entries[i].name, entries[j].name)
  {
    var all := SortNodes(d.children);
    var from := SliceIndex(offset, |all|);
    var to := SliceIndex(offset + limit, |all|);
    ListDirectorySlice(d, dirPath, limit, offset);
    if from < to {
      SortNodesSorted(d.children);
      SortedSlice(all, from, to);
      EntriesOfOrdered(dirPath, all[from..to]);
    }
  }

  /**
   * A directory of 120 entries listed 50 at a time: the first page holds 50
   * entries and announces more; the page at offset 100 holds the last 20
   * and announces none.
   */
  lemma ListDirectoryPages120(d: DirHandle, dirPath: string)
    requires d.listable && |d.children| == 120
    ensures var p := ListDirectory(d, dirPath, 50, 0).value; |p.entries| == 50 && p.hasMore
    ensures var p := ListDirectory(d, dirPath, 50, 100).value; |p.entries| == 20 && !p.hasMore
  {
    ListDirectoryPage(d, dirPath, 50, 0);
    ListDirectoryPage(d, dirPath, 50, 100);
  }

  /**
   * A client that starts at `offset` and asks for the next page, `limit`
   * entries further on, for as long as `hasMore` is set.
   */
  function FetchAll(d: DirHandle, dirPath: string, limit: int, offset: int): seq<FileNode>
    requires d.listable && 0 < limit && 0 <= offset
    decreases |d.children| - offset
  {
    var p := ListDirectory(d, dirPath, limit, offset).value;
    if p.hasMore then p.entries + FetchAll(d, dirPath, limit, offset + limit) else p.entries
  }

  /**
   * Paging with `hasMore` loses and repeats nothing: fetching from offset 0
   * until `hasMore` is false yields the whole name-sorted listing, whatever
   * the (positive) page size.
   */
  lemma FetchAllIsListing(d: DirHandle, dirPath: string, limit: int)
    requires d.listable && 0 < limit
    ensures FetchAll(d, dirPath, limit, 0) == EntriesOf(dirPath, SortNodes(d.children))
  {
    FetchAllFrom(d, dirPath, limit, 0);
    assert SortNodes(d.children)[0..] == SortNodes(d.children);
  }

  /** One step of the client: the page at `offset`, then the rest when more follow. */
  lemma FetchAllStep(d: DirHandle, dirPath: string, limit: int, offset: int)
    requires d.listable && 0 < limit && 0 <= offset
    ensures var all := SortNodes(d.children);
      offset + limit < |all| ==>
        FetchAll(d, dirPath, limit, offset)
          == EntriesOf(dirPath, all[offset..offset + limit]) + FetchAll(d, dirPath, limit, offset + limit)
    ensures var all := SortNodes(d.children);
      offset + limit >= |all| ==>
        FetchAll(d, dirPath, limit, offset) == EntriesOf(dirPath, all[if offset < |all| then offset else |all|..])
  {
    var all := SortNodes(d.children);
    ListDirectoryPage(d, dirPath, limit, offset);
    if offset + limit >= |all| {
      var from := if offset < |all| then offset else |all|;
      assert all[from..|all|] == all[from..];
    }
  }

  lemma {:induction false} FetchAllFrom(d: DirHandle, dirPath: string, limit: int, offset: int)
    requires d.listable && 0 < limit && 0 <= offset
    ensures var all := SortNodes(d.children);
      FetchAll(d, dirPath, limit, offset) == EntriesOf(dirPath, all[if offset < |all| then offset else |all|..])
    decreases |d.children| - offset
  {
    var all := SortNodes(d.children);
    FetchAllStep(d, dirPath, limit, offset);
    if offset + limit < |all| {
      FetchAllFrom(d, dirPath, limit, offset + limit);
      assert all[offset..] == all[offset..offset + limit] + all[offset + limit..];
      EntriesOfAppend(dirPath, all[offset..offset + limit], all[offset + limit..]);
    }
  }

  // --------------------------------------------------------------- full tree

  /** `TreeNode`: a file, or a directory with the tree below it. */
  datatype TreeNode = TreeFile(name: string) | TreeDir(name: string, children: seq<TreeNode>)

  /**
   * What `buildFullTree(d, ignoredDirs)` resolves to; `None` when it
   * rejects, which it does as soon as a directory it enters cannot be read.
   */
  function FullTree(d: DirHandle, ignored: set<string>): (r: Option<seq<TreeNode>>)
    ensures r.Some? ==> d.listable && |r.value| <= |d.children|
    decreases d, 1
  {
    if !d.listable then None
    else
      var sorted := SortNodes(d.children);
      assert forall e :: e in sorted ==> e in multiset(d.children);
      TreeEntries(d, sorted, ignored)
  }

  /** What the loop pushes for the entries `es` of `d`, in order. */
  function TreeEntries(d: DirHandle, es: seq<Node>, ignored: set<string>): (r: Option<seq<TreeNode>>)
    requires forall e :: e in es ==> e in d.children
    ensures r.Some? ==> |r.value| <= |es|
    ensures r.None? ==> exists e :: e in es && e.Dir? && e.name !in ignored
    decreases d, 0, |es|
  {
    if es == [] then Some([])
    else
      match EntryTree(d, es[0], ignored)
      case None => None
      case Some(p) => Prepend(p, TreeEntries(d, es[1..], ignored))
  }

  /**
   * One entry: nothing for an ignored name (an ignored directory is not
   * entered), a directory node holding its own tree, or a file node.
   */
  function EntryTree(d: DirHandle, e: Node, ignored: set<string>): (r: Option<seq<TreeNode>>)
    requires e in d.children
    ensures r.Some? ==> |r.value| <= 1 && forall t :: t in r.value ==> t.name == e.name && e.name !in ignored
    ensures r.None? ==> e.Dir? && e.name !in ignored
    decreases d, 0, 0
  {
    if e.name in ignored then Some([])
    else if e.Dir? then
      match FullTree(e, ignored)
      case None => None
      case Some(children) => Some([TreeDir(e.name, children)])
    else Some([TreeFile(e.name)])
  }

  lemma TreeEntriesAt(d: DirHandle, es: seq<Node>, ignored: set<string>, i: nat)
    requires i < |es|
    requires forall e :: e in es ==> e in d.children
    ensures TreeEntries(d, es[i..], ignored) ==
      match EntryTree(d, es[i], ignored)
      case None => None
      case Some(p) => Prepend(p, TreeEntries(d, es[i + 1..], ignored))
  {
    assert es[i..][1..] == es[i + 1..];
  }

  /** Pushing the nodes of entry `i` moves the loop on by one entry. */
  lemma TreeEntriesStep(d: DirHandle, es: seq<Node>, ignored: set<string>, i: nat, tree: seq<TreeNode>, pushed: seq<TreeNode>)
    requires i < |es|
    requires forall e :: e in es ==> e in d.children
    requires EntryTree(d, es[i], ignored) == Some(pushed)
    ensures Prepend(tree, TreeEntries(d, es[i..], ignored)) == Prepend(tree + pushed, TreeEntries(d, es[i + 1..], ignored))
  {
    TreeEntriesAt(d, es, ignored, i);
    PrependTwice(tree, pushed, TreeEntries(d, es[i + 1..], ignored));
  }

  /**
   * `buildFullTree`: reads the directory, sorts its entries by name, and
   * pushes one node per entry whose name is not ignored, recursing into
   * subdirectories.
   */
  method BuildFullTree(dir: DirHandle, ignoredDirs: set<string>) returns (r: Option<seq<TreeNode>>)
    ensures r == FullTree(dir, ignoredDirs)
    decreases dir
  {
    if !dir.listable {
      return None;
    }
    var entries := SortNodes(dir.children);
    SortNodesMembers(dir.children);
    ghost var whole := TreeEntries(dir, entries, ignoredDirs);
    var tree: seq<TreeNode> := [];
    var i := 0;
    assert entries[i..] == entries;
    assert whole == Prepend(tree, whole) by {
      if whole.Some? {
        assert tree + whole.value == whole.value;
      }
    }
    while i < |entries|
      invariant 0 <= i <= |entries|
      invariant whole == Prepend(tree, TreeEntries(dir, entries[i..], ignoredDirs))
    {
      var entry := entries[i];
      var pushed: seq<TreeNode> := [];
      if entry.name !in ignoredDirs {
        if entry.Dir? {
          assert entry in dir.children;
          var children := BuildFullTree(entry, ignoredDirs);
          if children.None? {
            TreeEntriesAt(dir, entries, ignoredDirs, i);
            return None;
          }
          pushed := [TreeDir(entry.name, children.value)];
        } else {
          pushed := [TreeFile(entry.name)];
        }
      }
      TreeEntriesStep(dir, entries, ignoredDirs, i, tree, pushed);
      tree := tree + pushed;
      i := i + 1;
    }
    assert entries[i..] == [];
    assert tree + [] == tree;
    r := Some(tree);
  }

  /**
   * The tree is built exactly when every directory it reaches can be read;
   * an ignored directory is never entered, so whether it could be does not
   * matter.
   */
  lemma {:induction false} FullTreeDefined(d: DirHandle, ignored: set<string>)
    ensures FullTree(d, ignored).Some? <==> ListableUnder(d, ignored)
    decreases d, 1
  {
    if d.listable {
      var sorted := SortNodes(d.children);
      assert forall e :: e in sorted ==> e in multiset(d.children);
      assert forall e :: e in sorted <==> e in multiset(d.children);
      TreeEntriesDefined(d, sorted, ignored);
    }
  }

  lemma {:induction false} TreeEntriesDefined(d: DirHandle, es: seq<Node>, ignored: set<string>)
    requires forall e :: e in es ==> e in d.children
    ensures TreeEntries(d, es, ignored).Some? <==>
      forall e :: e in es && e.Dir? && e.name !in ignored ==> ListableUnder(e, ignored)
    decreases d, 0, |es|
  {
    if es != [] {
      var e := es[0];
      assert forall x :: x in es <==> x == e || x in es[1..];
      assert e in d.children;
      if e.Dir? && e.name !in ignored {
        FullTreeDefined(e, ignored);
      }
      TreeEntriesDefined(d, es[1..], ignored);
    }
  }

  /** No node of `ts`, at any depth, carries an ignored name. */
  predicate NoIgnored(ts: seq<TreeNode>, ignored: set<string>)
    decreases ts
  {
    forall k :: 0 <= k < |ts| ==>
      ts[k].name !in ignored && (ts[k].TreeDir? ==> NoIgnored(ts[k].children, ignored))
  }

  lemma NoIgnoredAppend(a: seq<TreeNode>, b: seq<TreeNode>, ignored: set<string>)
    requires NoIgnored(a, ignored) && NoIgnored(b, ignored)
    ensures NoIgnored(a + b, ignored)
  {
    forall k | 0 <= k < |a + b|
      ensures (a + b)[k].name !in ignored && ((a + b)[k].TreeDir? ==> NoIgnored((a + b)[k].children, ignored))
    {
      if k < |a| {
        assert (a + b)[k] == a[k];
      } else {
        assert (a + b)[k] == b[k - |a|];
      }
    }
  }

  /** An ignored name appears nowhere in the tree: not at the top, not below. */
  lemma {:induction false} FullTreePruned(d: DirHandle, ignored: set<string>)
    ensures FullTree(d, ignored).Some? ==> NoIgnored(FullTree(d, ignored).value, ignored)
    decreases d, 1
  {
    if d.listable {
      var sorted := SortNodes(d.children);
      assert forall e :: e in sorted ==> e in multiset(d.children);
      TreeEntriesPruned(d, sorted, ignored);
    }
  }

  lemma {:induction false} TreeEntriesPruned(d: DirHandle, es: seq<Node>, ignored: set<string>)
    requires forall e :: e in es ==> e in d.children
    ensures TreeEntries(d, es, ignored).Some? ==> NoIgnored(TreeEntries(d, es, ignored).value, ignored)
    decreases d, 0, |es|
  {
    if es != [] && TreeEntries(d, es, ignored).Some? {
      var e := es[0];
      assert e in d.children;
      var p := EntryTree(d, e, ignored).value;
      TreeEntriesPruned(d, es[1..], ignored);
      if e.name !in ignored && e.Dir? {
        FullTreePruned(e, ignored);
        assert p == [TreeDir(e.name, FullTree(e, ignored).value)];
      }
      assert NoIgnored(p, ignored);
      NoIgnoredAppend(p, TreeEntries(d, es[1..], ignored).value, ignored);
    }
  }

  /** The entries of `es` whose names are not ignored, in order. */
  function Kept(es: seq<Node>, ignored: set<string>): seq<Node> {
    if es == [] then []
    else (if es[0].name in ignored then [] else [es[0]]) + Kept(es[1..], ignored)
  }

  /** A tree node stands for entry `c`: same name, same kind, and for a directory the tree below it. */
  predicate Mirrors(t: TreeNode, c: Node, ignored: set<string>) {
    && t.name == c.name
    && (t.TreeDir? <==> c.Dir?)
    && (c.Dir? ==> FullTree(c, ignored) == Some(t.children))
  }

  /**
   * Node for node, the tree lists the entries that are not ignored, each as
   * what it is.
   */
  lemma {:induction false} TreeEntriesShape(d: DirHandle, es: seq<Node>, ignored: set<string>)
    requires forall e :: e in es ==> e in d.children
    requires TreeEntries(d, es, ignored).Some?
    ensures var ts := TreeEntries(d, es, ignored).value;
      var kept := Kept(es, ignored);
      |ts| == |kept| && forall k :: 0 <= k < |ts| ==> Mirrors(ts[k], kept[k], ignored)
  {
    if es != [] {
      var e := es[0];
      assert e in d.children;
      var p := EntryTree(d, e, ignored).value;
      var rest := TreeEntries(d, es[1..], ignored).value;
      TreeEntriesShape(d, es[1..], ignored);
      var front: seq<Node> := if e.name in ignored then [] else [e];
      assert |p| == |front| && forall k :: 0 <= k < |p| ==> Mirrors(p[k], front[k], ignored);
      var ts := p + rest;
      var kept := front + Kept(es[1..], ignored);
      forall k | 0 <= k < |ts|
        ensures Mirrors(ts[k], kept[k], ignored)
      {
        if k < |p| {
          assert ts[k] == p[k] && kept[k] == front[k];
        } else {
          assert ts[k] == rest[k - |p|] && kept[k] == Kept(es[1..], ignored)[k - |p|];
        }
      }
    }
  }

  lemma {:induction false} KeptMembers(es: seq<Node>, ignored: set<string>)
    ensures forall c :: c in Kept(es, ignored) <==> c in es && c.name !in ignored
  {
    if es != [] {
      KeptMembers(es[1..], ignored);
      assert forall x :: x in es <==> x == es[0] || x in es[1..];
    }
  }

  lemma {:induction false} KeptSorted(es: seq<Node>, ignored: set<string>)
    requires SortedBy(es, NodeByName)
    ensures SortedBy(Kept(es, ignored), NodeByName)
  {
    if es != [] {
      KeptSorted(es[1..], ignored);
      KeptMembers(es[1..], ignored);
      var kept := Kept(es, ignored);
      var rest := Kept(es[1..], ignored);
      if es[0].name !in ignored {
        forall i, j | 0 <= i < j < |kept|
          ensures NodeByName(kept[i], kept[j])
        {
          if i > 0 {
            assert kept[i] == rest[i - 1] && kept[j] == rest[j - 1];
          } else {
            assert kept[j] == rest[j - 1];
            assert kept[j] in es[1..];
          }
        }
      } else {
        assert kept == rest;
      }
    }
  }

  /**
   * The top level of `buildFullTree(d)`: one node per entry of `d` whose
   * name is not ignored, each with that entry's name and kind (a directory
   * carrying the tree below it), in name order; and every such entry has
   * its node.
   */
  lemma FullTreeShape(d: DirHandle, ignored: set<string>)
    requires FullTree(d, ignored).Some?
    ensures var ts := FullTree(d, ignored).value;
      var kept := Kept(SortNodes(d.children), ignored);
      && |ts| == |kept|
      && (forall k :: 0 <= k < |ts| ==> Mirrors(ts[k], kept[k], ignored))
      && (forall c :: c in kept <==> c in d.children && c.name !in ignored)
      && (forall i, j :: 0 <= i < j < |ts| ==> NameLe(ts[i].name, ts[j].name))
  {
    var sorted := SortNodes(d.children);
    assert forall e :: e in sorted ==> e in multiset(d.children);
    TreeEntriesShape(d, sorted, ignored);
    SortNodesMembers(d.children);
    KeptMembers(sorted, ignored);
    SortNodesSorted(d.children);
    KeptSorted(sorted, ignored);
  }

  // ------------------------------------------------------------ tree as text

  /**
   * `treeToText(tree, indent)`: a line per node, the name of a directory
   * followed by `/`, the nodes below a directory two spaces deeper.
   */
  function TreeToText(tree: seq<TreeNode>, indent: string): (r: string)
    ensures tree == [] <==> r == ""
    ensures r != "" ==> r[|r| - 1] == '\n'
    decreases tree
  {
    if tree == [] then ""
    else
      var node := tree[0];
      var text := match node
        case TreeDir(name, children) => indent + name + "/\n" + TreeToText(children, indent + "  ")
        case TreeFile(name) => indent + name + "\n";
      text + TreeToText(tree[1..], indent)
  }

  /** One line of an outline: how deep the node is and what it shows. */
  datatype Line = Line(depth: nat, caption: string)

  function Label(t: TreeNode): string {
    if t.TreeDir? then t.name + "/" else t.name
  }

  /** The nodes of `tree` in pre-order, each with its depth below the top level at `depth`. */
  function Outline(tree: seq<TreeNode>, depth: nat): seq<Line>
    decreases tree
  {
    if tree == [] then []
    else
      var node := tree[0];
      var below := if node.TreeDir? then Outline(node.children, depth + 1) else [];
      [Line(depth, Label(node))] + below + Outline(tree[1..], depth)
  }

  /** The number of nodes in `tree`, at every depth. */
  function Size(tree: seq<TreeNode>): nat
    decreases tree
  {
    if tree == [] then 0
    else
      var node := tree[0];
      1 + (if node.TreeDir? then Size(node.children) else 0) + Size(tree[1..])
  }

  function Spaces(n: nat): string {
    seq(n, _ => ' ')
  }

  /** Lines written out: two spaces per level, the label, a newline. */
  function RenderLines(lines: seq<Line>): string {
    if lines == [] then ""
    else Spaces(2 * lines[0].depth) + lines[0].caption + "\n" + RenderLines(lines[1..])
  }

  lemma {:induction false} RenderLinesAppend(a: seq<Line>, b: seq<Line>)
    ensures RenderLines(a + b) == RenderLines(a) + RenderLines(b)
  {
    if a == [] {
      assert a + b == b;
    } else {
      assert (a + b)[1..] == a[1..] + b;
      RenderLinesAppend(a[1..], b);
      var head := Spaces(2 * a[0].depth) + a[0].caption + "\n";
      assert head + (RenderLines(a[1..]) + RenderLines(b)) == head + RenderLines(a[1..]) + RenderLines(b);
    }
  }

  /** One level deeper is two more spaces of indent. */
  lemma SpacesDeeper(depth: nat)
    ensures Spaces(2 * depth) + "  " == Spaces(2 * (depth + 1))
  {
  }

  /** A directory's caption, `name` and then `/`, ends its line as `/` and a newline. */
  lemma DirLine(indent: string, name: string)
    ensures indent + (name + "/") + "\n" == indent + name + "/\n"
  {
  }

  /**
   * The text is the outline written out line by line: every node on a line
   * of its own, in pre-order, indented two spaces per level.
   */
  lemma {:induction false} TreeToTextOutline(tree: seq<TreeNode>, depth: nat)
    ensures TreeToText(tree, Spaces(2 * depth)) == RenderLines(Outline(tree, depth))
    decreases tree
  {
    if tree != [] {
      var node := tree[0];
      var indent := Spaces(2 * depth);
      var line := Line(depth, Label(node));
      var below := if node.TreeDir? then Outline(node.children, depth + 1) else [];
      var rest := Outline(tree[1..], depth);
      TreeToTextOutline(tree[1..], depth);
      RenderLinesAppend([line] + below, rest);
      RenderLinesAppend([line], below);
      var head := indent + Label(node) + "\n";
      assert RenderLines([line]) == head + "";
      assert head + "" == head;
      if node.TreeDir? {
        TreeToTextOutline(node.children, depth + 1);
        SpacesDeeper(depth);
        DirLine(indent, node.name);
      } else {
        assert below == [];
        assert RenderLines(below) == "";
      }
    }
  }

  /** The outline has one line per node. */
  lemma {:induction false} OutlineSize(tree: seq<TreeNode>, depth: nat)
    ensures |Outline(tree, depth)| == Size(tree)
    decreases tree
  {
    if tree != [] {
      OutlineSize(tree[1..], depth);
      if tree[0].TreeDir? {
        OutlineSize(tree[0].children, depth + 1);
      }
    }
  }

  /** No name anywhere in `tree` contains a line break. */
  predicate SingleLineNames(tree: seq<TreeNode>)
    decreases tree
  {
    forall k :: 0 <= k < |tree| ==>
      '\n' !in tree[k].name && (tree[k].TreeDir? ==> SingleLineNames(tree[k].children))
  }

  /** Labels without line breaks give exactly one newline per line. */
  lemma {:induction false} RenderLinesNewlines(lines: seq<Line>)
    requires NoBreaks(lines)
    ensures multiset(RenderLines(lines))['\n'] == |lines|
  {
    if lines != [] {
      RenderLinesNewlines(lines[1..]);
      var sp := Spaces(2 * lines[0].depth);
      assert '\n' !in sp;
      assert multiset(sp)['\n'] == 0;
      assert multiset(lines[0].caption)['\n'] == 0;
    }
  }

  /** No caption of `lines` contains a line break. */
  predicate NoBreaks(lines: seq<Line>) {
    forall k :: 0 <= k < |lines| ==> '\n' !in lines[k].caption
  }

  lemma NoBreaksAppend(a: seq<Line>, b: seq<Line>)
    requires NoBreaks(a) && NoBreaks(b)
    ensures NoBreaks(a + b)
  {
    forall k | 0 <= k < |a + b|
      ensures '\n' !in (a + b)[k].caption
    {
      if k < |a| {
        assert (a + b)[k] == a[k];
      } else {
        assert (a + b)[k] == b[k - |a|];
      }
    }
  }

  lemma SingleLineNamesTail(tree: seq<TreeNode>)
    requires tree != [] && SingleLineNames(tree)
    ensures SingleLineNames(tree[1..])
  {
    forall k | 0 <= k < |tree[1..]|
      ensures '\n' !in tree[1..][k].name && (tree[1..][k].TreeDir? ==> SingleLineNames(tree[1..][k].children))
    {
      assert tree[1..][k] == tree[k + 1];
    }
  }

  lemma {:induction false} OutlineLabels(tree: seq<TreeNode>, depth: nat)
    requires SingleLineNames(tree)
    ensures NoBreaks(Outline(tree, depth))
    decreases tree
  {
    if tree != [] {
      var node := tree[0];
      var below := if node.TreeDir? then Outline(node.children, depth + 1) else [];
      var rest := Outline(tree[1..], depth);
      SingleLineNamesTail(tree);
      OutlineLabels(tree[1..], depth);
      if node.TreeDir? {
        OutlineLabels(node.children, depth + 1);
      }
      assert '\n' !in Label(node);
      var first := [Line(depth, Label(node))];
      assert NoBreaks(first);
      NoBreaksAppend(first, below);
      NoBreaksAppend(first + below, rest);
    }
  }

  /** The text has as many lines as the tree has nodes, when no name breaks a line. */
  lemma TreeToTextLineCount(tree: seq<TreeNode>)
    requires SingleLineNames(tree)
    ensures multiset(TreeToText(tree, ""))['\n'] == Size(tree)
  {
    assert Spaces(0) == "";
    TreeToTextOutline(tree, 0);
    OutlineSize(tree, 0);
    OutlineLabels(tree, 0);
    RenderLinesNewlines(Outline(tree, 0));
  }

  /** The first line is the first top-level node, unindented. */
  lemma TreeToTextFirstLine(tree: seq<TreeNode>)
    requires tree != []
    ensures Label(tree[0]) + "\n" <= TreeToText(tree, "")
  {
    assert Spaces(0) == "";
    TreeToTextOutline(tree, 0);
    var lines := Outline(tree, 0);
    assert lines[0] == Line(0, Label(tree[0]));
    assert RenderLines(lines) == Spaces(0) + Label(tree[0]) + "\n" + RenderLines(lines[1..]);
    assert Spaces(0) + Label(tree[0]) == Label(tree[0]);
  }

  // --------------------------------------------------------------------- GET

  /** The query parameters of a request: `getAll` gives every value, `get` the first or none. */
  datatype Query = Query(
    selected: seq<string>,
    path: Option<string>,
    limit: Option<string>,
    offset: Option<string>,
    fullTree: Option<string>,
    ignore: seq<string>)

  /** What `GET` makes of the parameters before it touches the file system. */
  datatype Params = Params(
    selected: seq<string>,
    dirPath: string,
    limit: string,
    offset: string,
    fullTree: bool,
    ignoredDirs: set<string>)

  /** `value || fallback`: an absent or empty parameter takes the default. */
  function OrDefault(value: Option<string>, fallback: string): (r: string)
    ensures value.Some? && value.value != "" ==> r == value.value
    ensures value.None? || value.value == "" ==> r == fallback
    ensures r == "" ==> fallback == ""
  {
    if value.None? || value.value == "" then fallback else value.value
  }

  /**
   * The parameters of `GET`. `limit` and `offset` are kept as the text that
   * `Number()` receives.
   */
  function ParseQuery(q: Query): (p: Params)
    ensures p.fullTree <==> q.fullTree == Some("true")
    ensures "" !in p.ignoredDirs
    ensures forall x :: x in p.ignoredDirs <==> exists i :: 0 <= i < |q.ignore| && Trim(q.ignore[i]) == x && x != ""
  {
    Params(q.selected, OrDefault(q.path, "."), OrDefault(q.limit, "50"), OrDefault(q.offset, "0"),
      q.fullTree == Some("true"), CleanSet(q.ignore))
  }

  /**
   * A request without parameters lists the working directory, 50 entries
   * from the first, ignoring nothing; an empty `path` counts as absent and
   * any `fullTree` value but `true` leaves the tree off.
   */
  lemma ParseQueryDefaults(fullTree: Option<string>)
    requires fullTree != Some("true")
    ensures var p := ParseQuery(Query([], None, None, None, fullTree, []));
      p == Params([], ".", "50", "0", false, {}) && DigitsValue(p.limit) == 50 && DigitsValue(p.offset) == 0
    ensures ParseQuery(Query([], Some(""), None, None, None, [])).dirPath == "."
  {
    assert "50"[..1] == "5";
    assert "5"[..0] == "";
  }

  /** One file the request named and the server could read. */
  datatype FileData = FileData(path: string, content: string)

  /**
   * `selectedFilesData`: the selected paths that can be read, in the order
   * given, each with its text. `readable` maps the path of every file the
   * server process can read to its text.
   */
  function SelectedFilesData(selected: seq<string>, readable: map<string, string>): (r: seq<FileData>)
    ensures |r| <= |selected|
    ensures forall f :: f in r ==> f.path in readable && readable[f.path] == f.content
  {
    if selected == [] then []
    else
      var prev := SelectedFilesData(selected[..|selected| - 1], readable);
      var filePath := selected[|selected| - 1];
      if filePath in readable then prev + [FileData(filePath, readable[filePath])] else prev
  }

  /** The read loop: a path that cannot be read is skipped silently. */
  method ReadSelectedFiles(selected: seq<string>, readable: map<string, string>) returns (data: seq<FileData>)
    ensures data == SelectedFilesData(selected, readable)
  {
    data := [];
    var i := 0;
    while i < |selected|
      invariant 0 <= i <= |selected|
      invariant data == SelectedFilesData(selected[..i], readable)
    {
      var filePath := selected[i];
      assert selected[..i + 1][..i] == selected[..i];
      if filePath in readable {
        data := data + [FileData(filePath, readable[filePath])];
      }
      i := i + 1;
    }
    assert selected[..i] == selected;
  }

  /**
   * A file's data is reported exactly when it was selected and can be read,
   * with its text; at most one report per selected path, and one per path
   * when all of them can be read.
   */
  lemma {:induction false} SelectedFilesDataMembers(selected: seq<string>, readable: map<string, string>)
    ensures var data := SelectedFilesData(selected, readable);
      && |data| <= |selected|
      && (forall f :: f in data <==> f.path in selected && f.path in readable && readable[f.path] == f.content)
      && ((forall x :: x in selected ==> x in readable) ==> |data| == |selected|)
  {
    if selected != [] {
      var init := selected[..|selected| - 1];
      SelectedFilesDataMembers(init, readable);
      assert forall x :: x in selected <==> x in init || x == selected[|selected| - 1];
    }
  }

  /**
   * `path.resolve(cwdPath, dirPath)` for a relative path of plain segments:
   * each segment is appended, a `.` segment stays where it is.
   */
  function ResolvePath(base: string, parts: seq<string>): (r: string)
    ensures base <= r
    ensures (forall k :: 0 <= k < |parts| ==> parts[k] == ".") ==> r == base
    decreases parts
  {
    if parts == [] then base
    else ResolvePath(if parts[0] == "." then base else JoinPath(base, parts[0]), parts[1..])
  }

  /** The JSON body `GET` answers with; `Failed` stands for a rejected request. */
  datatype Response =
    | TreeResponse(directoryStructure: string)
    | ListingResponse(entries: seq<FileNode>, hasMore: bool, selectedFilesData: Option<seq<FileData>>)
    | Failed

  /**
   * `GET` against the working directory `cwd`, whose absolute path is
   * `cwdPath`. `readable` stands for `fs.readFile`, `number` for `Number()`.
   * The full tree wins over everything else; otherwise one page of the
   * directory, with the selected files' data when some are selected.
   */
  function Get(cwd: DirHandle, cwdPath: string, readable: map<string, string>, number: string -> int, q: Query)
    : (r: Response)
    ensures ParseQuery(q).fullTree ==> !r.ListingResponse?
    ensures !ParseQuery(q).fullTree ==> !r.TreeResponse?
    ensures r.ListingResponse? ==> (r.selectedFilesData.Some? <==> q.selected != [])
  {
    var p := ParseQuery(q);
    var resolvedPath := ResolvePath(cwdPath, Split(p.dirPath, '/'));
    match Walk(cwd, Split(p.dirPath, '/'))
    case None => Failed
    case Some(dir) =>
      if p.fullTree then
        match FullTree(dir, p.ignoredDirs)
        case None => Failed
        case Some(tree) => TreeResponse(TreeToText(tree, ""))
      else
        match ListDirectory(dir, resolvedPath, number(p.limit), number(p.offset))
        case None => Failed
        case Some(page) =>
          var data := if |p.selected| > 0 then Some(SelectedFilesData(p.selected, readable)) else None;
          ListingResponse(page.entries, page.hasMore, data)
  }

  /**
   * Asking for the full tree of the working directory, when every directory
   * it reaches can be read, answers the text of `buildFullTree` with the
   * ignored names pruned.
   */
  lemma GetFullTree(cwd: DirHandle, cwdPath: string, readable: map<string, string>, number: string -> int,
                    ignore: seq<string>)
    requires ListableUnder(cwd, CleanSet(ignore))
    ensures FullTree(cwd, CleanSet(ignore)).Some?
    ensures NoIgnored(FullTree(cwd, CleanSet(ignore)).value, CleanSet(ignore))
    ensures Get(cwd, cwdPath, readable, number, Query([], None, None, None, Some("true"), ignore))
      == TreeResponse(TreeToText(FullTree(cwd, CleanSet(ignore)).value, ""))
  {
    var q := Query([], None, None, None, Some("true"), ignore);
    var p := ParseQuery(q);
    assert p.dirPath == "." && p.fullTree && p.ignoredDirs == CleanSet(ignore);
    assert Walk(cwd, Split(".", '/')) == Some(cwd) by {
      SplitNoSeparator(".", '/');
      assert ["."][1..] == [];
    }
    FullTreeDefined(cwd, CleanSet(ignore));
    FullTreePruned(cwd, CleanSet(ignore));
  }

  /**
   * A request without parameters answers the first 50 entries of the
   * working directory, paths under its absolute path, with the selected
   * files' data exactly when some are selected.
   */
  lemma GetDefaultListing(cwd: DirHandle, cwdPath: string, readable: map<string, string>, number: string -> int,
                          selected: seq<string>, ignore: seq<string>)
    requires cwd.listable && number("50") == 50 && number("0") == 0
    ensures var page := ListDirectory(cwd, cwdPath, 50, 0).value;
      Get(cwd, cwdPath, readable, number, Query(selected, None, None, None, None, ignore))
        == ListingResponse(page.entries, page.hasMore,
             if selected != [] then Some(SelectedFilesData(selected, readable)) else None)
  {
    var q := Query(selected, None, None, None, None, ignore);
    var p := ParseQuery(q);
    assert p.dirPath == "." && !p.fullTree && p.limit == "50" && p.offset == "0";
    SplitNoSeparator(".", '/');
    assert ["."][1..] == [];
    assert Walk(cwd, Split(".", '/')) == Some(cwd);
    assert ResolvePath(cwdPath, Split(".", '/')) == cwdPath;
  }
}
