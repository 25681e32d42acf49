/**
 * lib/xmlBuilder.ts: the XML prompt. Text and attribute escaping in the
 * sense of section 2.4 of XML 1.0, the recursive directory section that
 * prunes ignored names, the numbered documents section whose contents sit
 * raw in CDATA sections (section 2.7 of XML 1.0), and the fixed wrapper.
 */
module XmlBuilder {
  import opened Wrappers
  import opened Text
  import opened Sorting
  import opened Paths
  import opened FsUtils

  // ---------------------------------------------------------------- escaping

  /** `s.replace(/c/g, rep)`: every occurrence of `c` becomes `rep`. */
  function ReplaceAll(s: string, c: char, rep: string): (r: string)
    ensures c !in s ==> r == s
  {
    if s == [] then []
    else
      assert s == [s[0]] + s[1..];
      (if s[0] == c then rep else [s[0]]) + ReplaceAll(s[1..], c, rep)
  }

  /** A character of the result is a character of `rep` or a kept character of `s`. */
  lemma {:induction false} ReplaceAllChars(s: string, c: char, rep: string, x: char)
    ensures x in ReplaceAll(s, c, rep) ==> x in rep || (x in s && x != c)
  {
    if s != [] {
      ReplaceAllChars(s[1..], c, rep, x);
    }
  }

  lemma {:induction false} ReplaceAllAppend(a: string, b: string, c: char, rep: string)
    ensures ReplaceAll(a + b, c, rep) == ReplaceAll(a, c, rep) + ReplaceAll(b, c, rep)
  {
    if a != [] {
      assert (a + b)[1..] == a[1..] + b;
      ReplaceAllAppend(a[1..], b, c, rep);
    } else {
      assert a + b == b;
    }
  }

  /** What `escapeXmlText` makes of one character. */
  function EscapeTextChar(c: char): string {
    if c == '&' then "&amp;" else if c == '<' then "&lt;" else if c == '>' then "&gt;" else [c]
  }

  /** What `escapeXmlAttribute` makes of one character. */
  function EscapeAttributeChar(c: char): string {
    if c == '&' then "&amp;" else if c == '"' then "&quot;" else [c]
  }

  /**
   * `escapeXmlText`: `&`, then `<`, then `>` replaced by their entity
   * references. No markup character is left, and text without any of the
   * three characters comes back as it was.
   */
  function EscapeXmlText(text: string): (r: string)
    ensures '<' !in r && '>' !in r
    ensures '&' !in text && '<' !in text && '>' !in text ==> r == text
  {
    var amp := ReplaceAll(text, '&', "&amp;");
    var lt := ReplaceAll(amp, '<', "&lt;");
    ReplaceAllChars(amp, '<', "&lt;", '<');
    ReplaceAllChars(lt, '>', "&gt;", '<');
    ReplaceAllChars(lt, '>', "&gt;", '>');
    ReplaceAll(ReplaceAll(ReplaceAll(text, '&', "&amp;"), '<', "&lt;"), '>', "&gt;")
  }

  /**
   * `escapeXmlAttribute`: `&`, then `"` replaced by their entity
   * references. No quote is left, and a value without `&` or `"` comes back
   * as it was; `<` and `>` are not escaped.
   */
  function EscapeXmlAttribute(value: string): (r: string)
    ensures '"' !in r
    ensures '&' !in value && '"' !in value ==> r == value
  {
    var amp := ReplaceAll(value, '&', "&amp;");
    ReplaceAllChars(amp, '"', "&quot;", '"');
    ReplaceAll(ReplaceAll(value, '&', "&amp;"), '"', "&quot;")
  }

  /** The chained replacements act character by character. */
  lemma EscapeXmlTextCons(c: char, t: string)
    ensures EscapeXmlText([c] + t) == EscapeTextChar(c) + EscapeXmlText(t)
  {
    var t1 := ReplaceAll(t, '&', "&amp;");
    var c1 := if c == '&' then "&amp;" else [c];
    assert ([c] + t)[1..] == t;
    assert ReplaceAll([c] + t, '&', "&amp;") == c1 + t1;
    ReplaceAllAppend(c1, t1, '<', "&lt;");
    var t2 := ReplaceAll(t1, '<', "&lt;");
    var c2 := ReplaceAll(c1, '<', "&lt;");
    ReplaceAllAppend(c2, t2, '>', "&gt;");
    EscapeTextCharChain(c, "&amp;", "&lt;", "&gt;");
  }

  /**
   * The three replacements, applied to one character, give its escape.
   */
  lemma EscapeTextCharChain(c: char, amp: string, lt: string, gt: string)
    requires amp == "&amp;" && lt == "&lt;" && gt == "&gt;"
    ensures ReplaceAll(ReplaceAll(if c == '&' then amp else [c], '<', lt), '>', gt) == EscapeTextChar(c)
  {
    assert '<' !in amp && '>' !in amp && '>' !in lt;
    if c != '&' && c != '<' {
      assert ReplaceAll([c], '<', lt) == [c];
    }
  }

  lemma EscapeXmlAttributeCons(c: char, v: string)
    ensures EscapeXmlAttribute([c] + v) == EscapeAttributeChar(c) + EscapeXmlAttribute(v)
  {
    var v1 := ReplaceAll(v, '&', "&amp;");
    var c1 := if c == '&' then "&amp;" else [c];
    assert ([c] + v)[1..] == v;
    assert ReplaceAll([c] + v, '&', "&amp;") == c1 + v1;
    ReplaceAllAppend(c1, v1, '"', "&quot;");
    assert ReplaceAll(c1, '"', "&quot;") == EscapeAttributeChar(c);
  }

  /**
   * Replaces the entity references `&lt;`, `&gt;`, `&amp;` and `&quot;` by
   * the characters they stand for (section 4.6 of XML 1.0), reading from
   * left to right; every other character is kept.
   */
  function Unescape(s: string): string
  {
    if s == [] then []
    else if |s| >= 4 && s[0] == '&' && s[1] == 'l' && s[2] == 't' && s[3] == ';' then "<" + Unescape(s[4..])
    else if |s| >= 4 && s[0] == '&' && s[1] == 'g' && s[2] == 't' && s[3] == ';' then ">" + Unescape(s[4..])
    else if |s| >= 5 && s[0] == '&' && s[1] == 'a' && s[2] == 'm' && s[3] == 'p' && s[4] == ';' then
      "&" + Unescape(s[5..])
    else if |s| >= 6 && s[0] == '&' && s[1] == 'q' && s[2] == 'u' && s[3] == 'o' && s[4] == 't' && s[5] == ';' then
      "\"" + Unescape(s[6..])
    else [s[0]] + Unescape(s[1..])
  }

  lemma UnescapeTextChar(c: char, rest: string)
    ensures Unescape(EscapeTextChar(c) + rest) == [c] + Unescape(rest)
  {
    var s := EscapeTextChar(c) + rest;
    if c == '&' {
      assert s[5..] == rest;
    } else if c == '<' || c == '>' {
      assert s[4..] == rest;
    } else {
      assert s[0] == c && s[1..] == rest;
    }
  }

  lemma UnescapeAttributeChar(c: char, rest: string)
    ensures Unescape(EscapeAttributeChar(c) + rest) == [c] + Unescape(rest)
  {
    var s := EscapeAttributeChar(c) + rest;
    if c == '&' {
      assert s[5..] == rest;
    } else if c == '"' {
      assert s[6..] == rest;
    } else {
      assert s[0] == c && s[1..] == rest;
    }
  }

  /** Since `&` is replaced first, un-escaping recovers the text exactly. */
  lemma {:induction false} UnescapeEscapeXmlText(text: string)
    ensures Unescape(EscapeXmlText(text)) == text
  {
    if text != [] {
      assert text == [text[0]] + text[1..];
      EscapeXmlTextCons(text[0], text[1..]);
      UnescapeTextChar(text[0], EscapeXmlText(text[1..]));
      UnescapeEscapeXmlText(text[1..]);
    }
  }

  /** Un-escaping an escaped attribute value recovers it exactly. */
  lemma {:induction false} UnescapeEscapeXmlAttribute(value: string)
    ensures Unescape(EscapeXmlAttribute(value)) == value
  {
    if value != [] {
      assert value == [value[0]] + value[1..];
      EscapeXmlAttributeCons(value[0], value[1..]);
      UnescapeAttributeChar(value[0], EscapeXmlAttribute(value[1..]));
      UnescapeEscapeXmlAttribute(value[1..]);
    }
  }

  /** Angle brackets pass through attribute escaping untouched. */
  lemma AttributeKeepsAngles(v: string)
    ensures EscapeXmlAttribute("<" + v) == "<" + EscapeXmlAttribute(v)
    ensures EscapeXmlAttribute(">" + v) == ">" + EscapeXmlAttribute(v)
  {
    EscapeXmlAttributeCons('<', v);
    EscapeXmlAttributeCons('>', v);
  }

  /**
   * The attribute escape the doc comment of `escapeXmlAttribute` describes:
   * `<` is escaped as well, since a raw `<` is not allowed in an attribute
   * value (section 3.1 of XML 1.0).
   */
  function EscapeAttributeCharIntended(c: char): string {
    if c == '&' then "&amp;" else if c == '"' then "&quot;" else if c == '<' then "&lt;" else [c]
  }

  /** Neither a quote nor a `<` is left in the corrected attribute escape. */
  function EscapeXmlAttributeIntended(value: string): (r: string)
    ensures '"' !in r && '<' !in r
  {
    if value == [] then []
    else EscapeAttributeCharIntended(value[0]) + EscapeXmlAttributeIntended(value[1..])
  }

  /** Expanding the entity references recovers a value escaped the corrected way. */
  lemma {:induction false} UnescapeEscapeXmlAttributeIntended(value: string)
    ensures Unescape(EscapeXmlAttributeIntended(value)) == value
  {
    if value != [] {
      var c := value[0];
      var rest := EscapeXmlAttributeIntended(value[1..]);
      var s := EscapeAttributeCharIntended(c) + rest;
      if c == '&' {
        assert s[5..] == rest;
      } else if c == '"' {
        assert s[6..] == rest;
      } else if c == '<' {
        assert s[4..] == rest;
      } else {
        assert s[0] == c && s[1..] == rest;
      }
      UnescapeEscapeXmlAttributeIntended(value[1..]);
      assert value == [c] + value[1..];
    }
  }

  // ------------------------------------------------------- directory section

  function OpenDirectory(indent: string, dirName: string): string {
    indent + "<directory name=\"" + EscapeXmlAttribute(dirName) + "\">\n"
  }

  function CloseDirectory(indent: string): string {
    indent + "</directory>\n"
  }

  /** The line of a file one level below `indent`. */
  function FileLine(indent: string, name: string): string {
    indent + "  <file name=\"" + EscapeXmlAttribute(name) + "\" />\n"
  }

  /**
   * What `buildDirectoryXml(d, ignoredDirs, dirName, indent)` resolves to;
   * `None` when it rejects, which it does as soon as a directory it has to
   * enumerate cannot be enumerated.
   */
  function DirectoryXml(d: DirHandle, ignored: set<string>, dirName: string, indent: string): (r: Option<string>)
    ensures r.Some? ==> d.listable
    decreases d, 1
  {
    if !d.listable then None
    else
      var sorted := SortNodes(d.children);
      assert forall e :: e in sorted ==> e in multiset(d.children);
      match EntriesXml(d, sorted, ignored, indent)
      case None => None
      case Some(body) => Some(OpenDirectory(indent, dirName) + body + CloseDirectory(indent))
  }

  /** What the loop body adds for the entries `es` of `d`, in order. */
  function EntriesXml(d: DirHandle, es: seq<Node>, ignored: set<string>, indent: string): (r: Option<string>)
    requires forall e :: e in es ==> e in d.children
    decreases d, 0, |es|
  {
    if es == [] then Some("")
    else
      var e := es[0];
      match EntryXml(d, e, ignored, indent)
      case None => None
      case Some(p) => Prepend(p, EntriesXml(d, es[1..], ignored, indent))
  }

  /**
   * One entry: nothing when its name is ignored (a directory is then not
   * entered), a subtree one level deeper for a directory, one file line for
   * a file.
   */
  function EntryXml(d: DirHandle, e: Node, ignored: set<string>, indent: string): (r: Option<string>)
    requires e in d.children
    ensures r.None? ==> e.Dir? && e.name !in ignored
    ensures e.name in ignored ==> r == Some("")
    decreases d, 0, 0
  {
    if e.name in ignored then Some("")
    else if e.Dir? then DirectoryXml(e, ignored, e.name, indent + "  ")
    else Some(FileLine(indent, e.name))
  }

  /**
   * The directory section is produced exactly when every directory it
   * reaches can be enumerated; an ignored directory is never entered, so
   * whether it could be does not matter.
   */
  lemma {:induction false} DirectoryXmlDefined(d: DirHandle, ignored: set<string>, dirName: string, indent: string)
    ensures DirectoryXml(d, ignored, dirName, indent).Some? <==> ListableUnder(d, ignored)
    decreases d, 1
  {
    if d.listable {
      var sorted := SortNodes(d.children);
      assert forall e :: e in sorted ==> e in multiset(d.children);
      assert forall e :: e in sorted <==> e in multiset(d.children);
      EntriesXmlDefined(d, sorted, ignored, indent);
    }
  }

  lemma {:induction false} EntriesXmlDefined(d: DirHandle, es: seq<Node>, ignored: set<string>, indent: string)
    requires forall e :: e in es ==> e in d.children
    ensures EntriesXml(d, es, ignored, indent).Some? <==>
      forall e :: e in es && e.Dir? && e.name !in ignored ==> ListableUnder(e, ignored)
    decreases d, 0, |es|
  {
    if es != [] {
      var e := es[0];
      assert forall x :: x in es <==> x == e || x in es[1..];
      assert e in d.children;
      if e.Dir? && e.name !in ignored {
        DirectoryXmlDefined(e, ignored, e.name, indent + "  ");
      }
      EntriesXmlDefined(d, es[1..], ignored, indent);
    }
  }

  /** The entries from position `i` on: the entry at `i`, then those after it. */
  lemma EntriesXmlAt(d: DirHandle, es: seq<Node>, ignored: set<string>, indent: string, i: nat)
    requires i < |es|
    requires forall e :: e in es ==> e in d.children
    ensures EntriesXml(d, es[i..], ignored, indent) ==
      match EntryXml(d, es[i], ignored, indent)
      case None => None
      case Some(p) => Prepend(p, EntriesXml(d, es[i + 1..], ignored, indent))
  {
    assert es[i..][1..] == es[i + 1..];
  }

  /** Once the opening tag and every entry are written, the closing tag completes the section. */
  lemma DirectoryXmlClose(d: DirHandle, ignored: set<string>, dirName: string, indent: string, content: string)
    requires d.listable
    requires forall e :: e in SortNodes(d.children) ==> e in d.children
    requires Prepend(OpenDirectory(indent, dirName), EntriesXml(d, SortNodes(d.children), ignored, indent))
      == Prepend(content, Some(""))
    ensures DirectoryXml(d, ignored, dirName, indent) == Some(content + CloseDirectory(indent))
  {
    assert content + "" == content;
  }

  /**
   * `buildDirectoryXml`: collects the entries, sorts them by name, and
   * appends the opening tag, one piece per entry and the closing tag,
   * recursing into subdirectories.
   */
  method BuildDirectoryXml(dirHandle: DirHandle, ignoredDirs: set<string>, dirName: string, indent: string)
    returns (r: Option<string>)
    ensures r == DirectoryXml(dirHandle, ignoredDirs, dirName, indent)
    decreases dirHandle
  {
    if !dirHandle.listable {
      return None;
    }
    var allEntries: seq<Node> := [];
    var k := 0;
    while k < |dirHandle.children|
      invariant 0 <= k <= |dirHandle.children|
      invariant allEntries == dirHandle.children[..k]
    {
      allEntries := allEntries + [dirHandle.children[k]];
      k := k + 1;
    }
    assert allEntries == dirHandle.children;
    allEntries := SortNodes(allEntries);
    SortNodesMembers(dirHandle.children);
    ghost var entriesXml := EntriesXml(dirHandle, allEntries, ignoredDirs, indent);

    var content := OpenDirectory(indent, dirName);
    var i := 0;
    assert allEntries[i..] == allEntries;
    while i < |allEntries|
      invariant 0 <= i <= |allEntries|
      invariant Prepend(OpenDirectory(indent, dirName), entriesXml)
        == Prepend(content, EntriesXml(dirHandle, allEntries[i..], ignoredDirs, indent))
    {
      var entryHandle := allEntries[i];
      EntriesXmlAt(dirHandle, allEntries, ignoredDirs, indent, i);
      var name := entryHandle.name;
      var piece := "";
      if name !in ignoredDirs {
        if entryHandle.Dir? {
          assert entryHandle in dirHandle.children;
          var subtree := BuildDirectoryXml(entryHandle, ignoredDirs, name, indent + "  ");
          if subtree.None? {
            return None;
          }
          piece := subtree.value;
        } else {
          piece := FileLine(indent, name);
        }
      }
      assert EntryXml(dirHandle, entryHandle, ignoredDirs, indent) == Some(piece);
      PrependTwice(content, piece, EntriesXml(dirHandle, allEntries[i + 1..], ignoredDirs, indent));
      content := content + piece;
      i := i + 1;
    }
    assert allEntries[i..] == [];
    DirectoryXmlClose(dirHandle, ignoredDirs, dirName, indent, content);
    content := content + CloseDirectory(indent);
    r := Some(content);
  }

  // ------------------------------------------------------- documents section

  /** A selected file that was read: its path and its text. */
  datatype Document = Document(path: string, content: string)

  /**
   * The text of selected file `filePath`, or `None` when it is skipped: its
   * parent key has no handle, the file is not in that directory, or it
   * cannot be read.
   */
  function ReadSelected(filePath: string, handles: map<string, DirHandle>): (r: Option<string>)
    ensures r.Some? ==> ParentKey(filePath) in handles
  {
    var fileDir := ParentKey(filePath);
    var fileName := BaseName(filePath);
    if fileDir !in handles then None
    else match GetFileHandle(handles[fileDir], fileName)
      case None => None
      case Some(f) => f.content
  }

  /** The text before a document's content: its opening tag, its path line and the CDATA opening. */
  function DocumentHead(docId: nat, filePath: string): string {
    "  <document id=\"" + NatToString(docId) + "\">\n"
    + "    <file_path>" + EscapeXmlText(filePath) + "</file_path>\n"
    + "    <document_content><![CDATA["
  }

  /** The end of a CDATA section (section 2.7 of XML 1.0). */
  const CdataEnd: string := "]]>"

  /** The text after the CDATA section of a document. */
  const DocumentTail: string := "</document_content>\n  </document>\n"

  /** The four lines of one document; the content goes into a CDATA section as it is. */
  function DocumentXml(docId: nat, filePath: string, content: string): string {
    DocumentHead(docId, filePath) + content + CdataEnd + DocumentTail
  }

  /** The selected files that are read, in selection order. */
  function Resolved(sel: seq<string>, handles: map<string, DirHandle>): seq<Document>
  {
    if sel == [] then []
    else
      var last := sel[|sel| - 1];
      Resolved(sel[..|sel| - 1], handles) +
        match ReadSelected(last, handles)
        case None => []
        case Some(content) => [Document(last, content)]
  }

  /**
   * A document is resolved exactly when its path is selected and reads as
   * its content; there are at most as many documents as selected paths.
   */
  lemma {:induction false} ResolvedMembers(sel: seq<string>, handles: map<string, DirHandle>)
    ensures |Resolved(sel, handles)| <= |sel|
    ensures forall d :: d in Resolved(sel, handles) <==> d.path in sel && ReadSelected(d.path, handles) == Some(d.content)
  {
    if sel != [] {
      var prev := sel[..|sel| - 1];
      ResolvedMembers(prev, handles);
      assert sel == prev + [sel[|sel| - 1]];
      assert forall p :: p in sel <==> p == sel[|sel| - 1] || p in prev;
    }
  }

  /**
   * What the loop has appended after the paths `sel`: each path that is
   * read adds its document, numbered one past the documents before it.
   */
  function Documents(sel: seq<string>, handles: map<string, DirHandle>): string
  {
    if sel == [] then ""
    else
      var prev, last := sel[..|sel| - 1], sel[|sel| - 1];
      match ReadSelected(last, handles)
      case None => Documents(prev, handles)
      case Some(content) => Documents(prev, handles) + DocumentXml(|Resolved(prev, handles)| + 1, last, content)
  }

  /**
   * The lookup and the `try` block of one loop iteration: `None` where the
   * loop `continue`s or catches an error.
   */
  method ReadSelectedFile(filePath: string, directoryHandles: map<string, DirHandle>) returns (r: Option<string>)
    ensures r == ReadSelected(filePath, directoryHandles)
  {
    var fileDir := ParentKey(filePath);
    var fileName := BaseName(filePath);
    if fileDir !in directoryHandles {
      return None;
    }
    var fileHandle := GetFileHandle(directoryHandles[fileDir], fileName);
    if fileHandle.None? {
      return None;
    }
    r := fileHandle.value.content;
  }

  /**
   * `buildDocumentsXml`: one document per selected path that can be read,
   * in selection order; a skipped path does not use up an id.
   */
  method BuildDocumentsXml(selectedFiles: seq<string>, directoryHandles: map<string, DirHandle>)
    returns (documentsXml: string)
    ensures documentsXml == Documents(selectedFiles, directoryHandles)
  {
    documentsXml := "";
    var docId := 1;
    var i := 0;
    while i < |selectedFiles|
      invariant 0 <= i <= |selectedFiles|
      invariant documentsXml == Documents(selectedFiles[..i], directoryHandles)
      invariant docId == |Resolved(selectedFiles[..i], directoryHandles)| + 1
    {
      var filePath := selectedFiles[i];
      assert selectedFiles[..i + 1][..i] == selectedFiles[..i];
      var read := ReadSelectedFile(filePath, directoryHandles);
      if read.Some? {
        documentsXml := documentsXml + DocumentXml(docId, filePath, read.value);
        docId := docId + 1;
      }
      i := i + 1;
    }
    assert selectedFiles[..i] == selectedFiles;
  }

  /** The documents rendered with consecutive ids: the one at position `k` carries id `start + k`. */
  function Numbered(docs: seq<Document>, start: nat): seq<string> {
    seq(|docs|, k requires 0 <= k < |docs| => DocumentXml(start + k, docs[k].path, docs[k].content))
  }

  /** Numbering one more document gives it the next id and leaves the others as they were. */
  lemma NumberedAppend(docs: seq<Document>, d: Document, start: nat)
    ensures Numbered(docs + [d], start) == Numbered(docs, start) + [DocumentXml(start + |docs|, d.path, d.content)]
  {
    var all := docs + [d];
    forall k | 0 <= k < |docs|
      ensures all[k] == docs[k]
    {
    }
    assert all[|docs|] == d;
  }

  /**
   * The documents section is the read files, in selection order, numbered
   * consecutively from 1.
   */
  lemma {:induction false} DocumentsNumbered(sel: seq<string>, handles: map<string, DirHandle>)
    ensures Documents(sel, handles) == Concat(Numbered(Resolved(sel, handles), 1))
  {
    if sel != [] {
      var prev, last := sel[..|sel| - 1], sel[|sel| - 1];
      DocumentsNumbered(prev, handles);
      var before := Resolved(prev, handles);
      match ReadSelected(last, handles)
      case None =>
        assert Resolved(sel, handles) == before;
      case Some(content) =>
        var d := Document(last, content);
        assert Resolved(sel, handles) == before + [d];
        NumberedAppend(before, d, 1);
        var x := DocumentXml(|before| + 1, last, content);
        ConcatAppend(Numbered(before, 1), [x]);
        assert Concat([x]) == x;
    }
  }

  /** What an XML reader takes as the text of a CDATA section that starts at `s`: up to the first `]]>`. */
  function CdataText(s: string): string {
    if |s| < 3 then s
    else if s[0] == ']' && s[1] == ']' && s[2] == '>' then ""
    else [s[0]] + CdataText(s[1..])
  }

  predicate NoCdataEnd(s: string) {
    forall i :: 0 <= i < |s| - 2 ==> !(s[i] == ']' && s[i + 1] == ']' && s[i + 2] == '>')
  }

  lemma {:induction false} CdataTextOf(content: string, rest: string)
    requires NoCdataEnd(content)
    ensures CdataText(content + CdataEnd + rest) == content
  {
    var s := content + CdataEnd + rest;
    if content != [] {
      assert s[1..] == content[1..] + CdataEnd + rest;
      CdataTextOf(content[1..], rest);
    }
  }

  /**
   * A document's CDATA section holds exactly the file's text when that
   * text has no `]]>`, and the escaped path reads back as the path.
   */
  lemma DocumentXmlReadsBack(docId: nat, filePath: string, content: string)
    ensures
      var doc, head := DocumentXml(docId, filePath, content), DocumentHead(docId, filePath);
      && head <= doc
      && doc[|head|..] == content + CdataEnd + DocumentTail
      && (NoCdataEnd(content) ==> CdataText(doc[|head|..]) == content)
    ensures Unescape(EscapeXmlText(filePath)) == filePath
  {
    var head := DocumentHead(docId, filePath);
    var doc := DocumentXml(docId, filePath, content);
    assert doc == head + (content + CdataEnd + DocumentTail);
    if NoCdataEnd(content) {
      CdataTextOf(content, DocumentTail);
    }
    UnescapeEscapeXmlText(filePath);
  }

  /** Content holding `]]>` ends its CDATA section early: the reader sees only what precedes it. */
  lemma CdataEndCutsContent()
    ensures CdataText("a]]>b" + CdataEnd + DocumentTail) == "a"
  {
  }

  // ---------------------------------------------------------------- wrapper

  /** What `generateXmlOutput` resolves to; `None` when the directory section rejects. */
  function XmlOutput(root: DirHandle, sel: seq<string>, handles: map<string, DirHandle>, ignored: set<string>)
    : (r: Option<string>)
    ensures r.Some? <==> DirectoryXml(root, ignored, ".", "  ").Some?
  {
    match DirectoryXml(root, ignored, ".", "  ")
    case None => None
    case Some(directoryXml) =>
      Some("<codebase_context>\n" + "<directory_structure>\n" + directoryXml + "</directory_structure>\n\n"
        + "<documents>\n" + Documents(sel, handles) + "</documents>\n" + "</codebase_context>")
  }

  /** `generateXmlOutput`: the directory section of the root, named ".", then the documents, in the wrapper. */
  method GenerateXmlOutput(rootDirectoryHandle: DirHandle, selectedFiles: seq<string>,
                           directoryHandles: map<string, DirHandle>, ignoredDirs: set<string>)
    returns (r: Option<string>)
    ensures r == XmlOutput(rootDirectoryHandle, selectedFiles, directoryHandles, ignoredDirs)
  {
    var directoryXml := BuildDirectoryXml(rootDirectoryHandle, ignoredDirs, ".", "  ");
    if directoryXml.None? {
      return None;
    }
    var documentsXml := BuildDocumentsXml(selectedFiles, directoryHandles);
    r := Some("<codebase_context>\n" + "<directory_structure>\n" + directoryXml.value + "</directory_structure>\n\n"
      + "<documents>\n" + documentsXml + "</documents>\n" + "</codebase_context>");
  }

  lemma PrefixAppend(a: string, b: string, c: string)
    requires b <= c
    ensures a + b <= a + c
  {
    assert (a + c)[..|a + b|] == a + b;
  }

  lemma PrefixExtend(a: string, b: string, c: string)
    requires a <= b
    ensures a <= b + c
  {
    assert (b + c)[..|a|] == b[..|a|];
  }

  /**
   * The output exists exactly when every directory reached can be listed:
   * unreadable documents never make it fail.
   */
  lemma XmlOutputDefined(root: DirHandle, sel: seq<string>, handles: map<string, DirHandle>, ignored: set<string>)
    ensures XmlOutput(root, sel, handles, ignored).Some? <==> ListableUnder(root, ignored)
  {
    DirectoryXmlDefined(root, ignored, ".", "  ");
  }

  /**
   * The root element is named ".": a name without `&` or `"` is written as
   * it is.
   */
  lemma RootOpenTag(dirName: string)
    requires dirName == "."
    ensures OpenDirectory("  ", dirName) == "  <directory name=\".\">\n"
  {
    assert '&' !in dirName && '"' !in dirName;
  }

  /** The output opens with the wrapper and then the root element. */
  lemma XmlOutputOpening(root: DirHandle, sel: seq<string>, handles: map<string, DirHandle>, ignored: set<string>)
    requires XmlOutput(root, sel, handles, ignored).Some?
    ensures "<codebase_context>\n" + "<directory_structure>\n" + OpenDirectory("  ", ".")
      <= XmlOutput(root, sel, handles, ignored).value
  {
    var dx := DirectoryXml(root, ignored, ".", "  ").value;
    var open := OpenDirectory("  ", ".");
    var w := "<codebase_context>\n" + "<directory_structure>\n";
    var docs := Documents(sel, handles);
    assert open <= dx;
    PrefixAppend(w, open, dx);
    PrefixExtend(w + open, w + dx, "</directory_structure>\n\n");
    PrefixExtend(w + open, w + dx + "</directory_structure>\n\n", "<documents>\n");
    PrefixExtend(w + open, w + dx + "</directory_structure>\n\n" + "<documents>\n", docs);
    var x := w + dx + "</directory_structure>\n\n" + "<documents>\n" + docs;
    PrefixExtend(w + open, x, "</documents>\n");
    PrefixExtend(w + open, x + "</documents>\n", "</codebase_context>");
  }

  /** The output ends with the closing tags, its last character the `>` of `</codebase_context>`. */
  lemma XmlOutputClosing(root: DirHandle, sel: seq<string>, handles: map<string, DirHandle>, ignored: set<string>)
    requires XmlOutput(root, sel, handles, ignored).Some?
    ensures
      var out, end := XmlOutput(root, sel, handles, ignored).value, "</documents>\n" + "</codebase_context>";
      && |out| >= |end| && out[|out| - |end|..] == end
      && out[|out| - 1] == '>'
  {
    var dx := DirectoryXml(root, ignored, ".", "  ").value;
    var x := "<codebase_context>\n" + "<directory_structure>\n" + dx + "</directory_structure>\n\n"
      + "<documents>\n" + Documents(sel, handles);
    assert x + "</documents>\n" + "</codebase_context>" == x + ("</documents>\n" + "</codebase_context>");
  }
}
