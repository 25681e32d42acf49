/**
 * lib/xmlBuilder.ts and app/api/files/route.ts walk the same tree the same
 * way: sort by name, skip ignored names, recurse into directories. This
 * module proves that the directory section `buildDirectoryXml` writes is
 * the tree `buildFullTree` builds, written as XML, so what is proved about
 * the tree (pruning, kinds, name order) holds of the XML section too.
 */
module TreeAgreement {
  import opened Wrappers
  import opened Sorting
  import opened FsUtils
  import opened XmlBuilder
  import opened FilesRoute

  /**
   * A tree written as the entries of a directory section at `indent`: a
   * file line per file, a nested section one level deeper per directory.
   */
  function TreeXml(ts: seq<TreeNode>, indent: string): string
    decreases ts
  {
    if ts == [] then "" else NodeXml(ts[0], indent) + TreeXml(ts[1..], indent)
  }

  function NodeXml(t: TreeNode, indent: string): string
    decreases t
  {
    match t
    case TreeFile(name) => FileLine(indent, name)
    case TreeDir(name, children) =>
      OpenDirectory(indent + "  ", name) + TreeXml(children, indent + "  ") + CloseDirectory(indent + "  ")
  }

  /** A whole section around the entries of a tree, when there is a tree. */
  function SectionOf(tree: Option<seq<TreeNode>>, dirName: string, indent: string): Option<string> {
    match tree
    case None => None
    case Some(ts) => Some(OpenDirectory(indent, dirName) + TreeXml(ts, indent) + CloseDirectory(indent))
  }

  function EntriesOfTree(tree: Option<seq<TreeNode>>, indent: string): Option<string> {
    match tree
    case None => None
    case Some(ts) => Some(TreeXml(ts, indent))
  }

  lemma TreeXmlCons(t: TreeNode, rest: seq<TreeNode>, indent: string)
    ensures TreeXml([t] + rest, indent) == NodeXml(t, indent) + TreeXml(rest, indent)
  {
    assert ([t] + rest)[1..] == rest;
  }

  /**
   * `buildDirectoryXml(d, ignoredDirs, dirName, indent)` writes the tree
   * `buildFullTree(d, ignoredDirs)` builds, inside the section's opening
   * and closing tags; both fail on the same directories.
   */
  lemma {:induction false} DirectoryXmlIsTree(d: DirHandle, ignored: set<string>, dirName: string, indent: string)
    ensures DirectoryXml(d, ignored, dirName, indent) == SectionOf(FullTree(d, ignored), dirName, indent)
    decreases d, 1
  {
    if d.listable {
      var sorted := SortNodes(d.children);
      assert forall e :: e in sorted ==> e in multiset(d.children);
      EntriesXmlIsTree(d, sorted, ignored, indent);
    }
  }

  lemma {:induction false} EntriesXmlIsTree(d: DirHandle, es: seq<Node>, ignored: set<string>, indent: string)
    requires forall e :: e in es ==> e in d.children
    ensures EntriesXml(d, es, ignored, indent) == EntriesOfTree(TreeEntries(d, es, ignored), indent)
    decreases d, 0, |es|
  {
    if es != [] {
      var e := es[0];
      assert e in d.children;
      EntriesXmlIsTree(d, es[1..], ignored, indent);
      var restXml := EntriesXml(d, es[1..], ignored, indent);
      var restTree := TreeEntries(d, es[1..], ignored);
      if e.name in ignored {
        if restTree.Some? {
          assert "" + restXml.value == restXml.value;
          assert [] + restTree.value == restTree.value;
        }
      } else if e.Dir? {
        DirectoryXmlIsTree(e, ignored, e.name, indent + "  ");
        if FullTree(e, ignored).Some? && restTree.Some? {
          var node := TreeDir(e.name, FullTree(e, ignored).value);
          TreeXmlCons(node, restTree.value, indent);
        }
      } else {
        if restTree.Some? {
          var node := TreeFile(e.name);
          TreeXmlCons(node, restTree.value, indent);
        }
      }
    }
  }

  /**
   * When every directory it reaches can be read, the section is the opening
   * tag, the entries of the pruned tree, and the closing tag: no ignored
   * name appears at any depth, and the entries of each level are in name
   * order.
   */
  lemma DirectoryXmlShape(d: DirHandle, ignored: set<string>, dirName: string, indent: string)
    requires ListableUnder(d, ignored)
    ensures FullTree(d, ignored).Some?
    ensures var ts := FullTree(d, ignored).value;
      && DirectoryXml(d, ignored, dirName, indent)
        == Some(OpenDirectory(indent, dirName) + TreeXml(ts, indent) + CloseDirectory(indent))
      && NoIgnored(ts, ignored)
      && (forall i, j :: 0 <= i < j < |ts| ==> NameLe(ts[i].name, ts[j].name))
  {
    FullTreeDefined(d, ignored);
    DirectoryXmlIsTree(d, ignored, dirName, indent);
    FullTreePruned(d, ignored);
    FullTreeShape(d, ignored);
  }
}
