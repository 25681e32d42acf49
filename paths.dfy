/**
 * Path keys: the root is ".", every other entry is its `/`-joined segments.
 * The directory store builds keys with `ChildPath`; the documents section
 * takes them apart again with `ParentKey` and `BaseName`.
 */
module Paths {

  /** The key of entry `name` inside directory `dirPath`. */
  function ChildPath(dirPath: string, name: string): (p: string)
    ensures dirPath == "." ==> p == name
    ensures dirPath != "." ==> |p| == |dirPath| + 1 + |name| && p[|dirPath|] == '/'
  {
    if dirPath == "." then name else dirPath + "/" + name
  }

  /** `p.lastIndexOf('/')`: -1 when there is none. */
  function LastSlash(p: string): (r: int)
    ensures -1 <= r < |p|
    ensures r >= 0 ==> p[r] == '/'
    ensures forall k :: r < k < |p| ==> p[k] != '/'
  {
    if p == [] then -1
    else if p[|p| - 1] == '/' then |p| - 1
    else LastSlash(p[..|p| - 1])
  }

  /**
   * `p.substring(0, p.lastIndexOf('/')) || '.'`: everything before the last
   * slash, or "." when that is empty (no slash, or a slash in front).
   */
  function ParentKey(p: string): (r: string)
    ensures r == "." || (0 < |r| < |p| && r == p[..|r|] && p[|r|] == '/' && '/' !in p[|r| + 1..])
  {
    var i := LastSlash(p);
    if i <= 0 then "." else p[..i]
  }

  /** `p.split('/').pop()`: everything after the last slash. */
  function BaseName(p: string): (r: string)
    ensures '/' !in r
  {
    p[LastSlash(p) + 1..]
  }

  /**
   * Taking a key apart recovers what built it: the parent's key and the
   * entry's name, for every non-empty parent key and slash-free name.
   */
  lemma ChildPathRoundTrip(dirPath: string, name: string)
    requires dirPath != ""
    requires '/' !in name
    ensures ParentKey(ChildPath(dirPath, name)) == dirPath
    ensures BaseName(ChildPath(dirPath, name)) == name
  {
    var p := ChildPath(dirPath, name);
    if dirPath == "." {
      assert LastSlash(p) == -1;
    } else {
      var i := |dirPath|;
      assert forall k :: i < k < |p| ==> p[k] == name[k - i - 1];
      assert LastSlash(p) == i;
      assert p[..i] == dirPath;
      assert p[i + 1..] == name;
    }
  }

  /** A key with a slash after its first character is its parent, a slash and its base name. */
  lemma ParentKeyBaseName(p: string)
    requires LastSlash(p) > 0
    ensures ParentKey(p) + "/" + BaseName(p) == p
  {
    var i := LastSlash(p);
    assert p == p[..i] + [p[i]] + p[i + 1..];
  }
}
