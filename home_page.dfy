/**
 * The two rules app/page.tsx computes itself: the token tier shown next to
 * the output, and the parsing of the comma-separated ignore box, which
 * `handleGenerate` and the directory-selection callback both perform.
 */
module HomePage {
  import opened Wrappers
  import opened Text
  import opened FsUtils

  /** The ignore box's initial text. */
  const DefaultIgnoreInput: string := "node_modules, .*, _*, dist, build"

  /** `getTokenRecommendation`: the tier of a token count. */
  function TokenRecommendation(tokenCount: int): (r: string)
    ensures r == "Low" <==> tokenCount < 5000
    ensures r == "Medium" <==> 5000 <= tokenCount < 15000
    ensures r == "High" <==> 15000 <= tokenCount
  {
    if tokenCount < 5000 then "Low"
    else if tokenCount < 15000 then "Medium"
    else "High"
  }

  /** The tiers in increasing order. */
  function TierRank(tier: string): nat {
    if tier == "Low" then 0 else if tier == "Medium" then 1 else 2
  }

  /** More tokens never give a lower tier. */
  lemma TokenRecommendationMonotone(a: int, b: int)
    requires a <= b
    ensures TierRank(TokenRecommendation(a)) <= TierRank(TokenRecommendation(b))
  {
  }

  /**
   * `new Set(input.split(',').map(s => s.trim()).filter(Boolean))`: the
   * trimmed pieces between commas that are not empty.
   */
  function ParseIgnoreList(input: string): (r: set<string>)
    ensures "" !in r
    ensures forall x :: x in r ==> Trimmed(x)
  {
    CleanSet(Split(input, ','))
  }

  /**
   * The ignore set holds the trimmed form of every piece between commas
   * that is not blank, and nothing else.
   */
  lemma ParseIgnoreListMembers(input: string, pieces: seq<string>)
    requires pieces == Split(input, ',')
    ensures forall i :: 0 <= i < |pieces| && Trim(pieces[i]) != "" ==> Trim(pieces[i]) in ParseIgnoreList(input)
    ensures forall x :: x in ParseIgnoreList(input) ==> exists i :: 0 <= i < |pieces| && Trim(pieces[i]) == x
  {
    assert ParseIgnoreList(input) == CleanSet(pieces);
  }

  /**
   * Writing names that hold no comma and no surrounding white space into
   * the box, separated by commas, ignores exactly those names.
   */
  lemma ParseIgnoreListJoin(names: seq<string>)
    requires |names| >= 1
    requires forall i :: 0 <= i < |names| ==> ',' !in names[i] && Trimmed(names[i])
    ensures ParseIgnoreList(Join(names, ',')) == set n | n in names && n != ""
  {
    SplitJoin(names, ',');
    ParseIgnoreListMembers(Join(names, ','), names);
    forall i | 0 <= i < |names|
      ensures Trim(names[i]) == names[i]
    {
      TrimOfTrimmed(names[i]);
    }
  }

  /** One space before a trimmed name is all `trim` removes. */
  lemma SpacedName(name: string)
    requires name != [] && Trimmed(name)
    ensures Trim(" " + name) == name
  {
    var s := " " + name;
    assert s[1..] == name;
    assert SpaceRunEnd(s, 1) == 1;
    assert SpaceRunEnd(s, 0) == 1;
    assert SpaceRunStart(s, 1, |s|) == |s|;
  }

  /** The pieces between commas when names are typed as `a, b, c`. */
  function Spaced(names: seq<string>): (pieces: seq<string>)
    requires |names| >= 1
    ensures |pieces| == |names| && pieces[0] == names[0]
    ensures forall i :: 1 <= i < |names| ==> pieces[i] == " " + names[i]
  {
    [names[0]] + seq(|names| - 1, k requires 0 <= k < |names| - 1 => " " + names[k + 1])
  }

  /**
   * Typing names that hold no comma and no surrounding white space as
   * `a, b, c` ignores exactly those names.
   */
  lemma ParseSpacedList(names: seq<string>)
    requires |names| >= 1
    requires forall i :: 0 <= i < |names| ==> names[i] != "" && ',' !in names[i] && Trimmed(names[i])
    ensures ParseIgnoreList(Join(Spaced(names), ',')) == set n | n in names
  {
    var pieces := Spaced(names);
    assert forall i :: 0 <= i < |pieces| ==> ',' !in pieces[i];
    SplitJoin(pieces, ',');
    ParseIgnoreListMembers(Join(pieces, ','), pieces);
    forall i | 0 <= i < |names|
      ensures Trim(pieces[i]) == names[i]
    {
      if i == 0 {
        TrimOfTrimmed(names[0]);
      } else {
        SpacedName(names[i]);
      }
    }
  }

  /** The names in the initial box. */
  const DefaultIgnoreNames: seq<string> := ["node_modules", ".*", "_*", "dist", "build"]

  /** The initial box ignores exactly its five names. */
  lemma DefaultIgnoreSet(input: string)
    requires input == DefaultIgnoreInput
    ensures ParseIgnoreList(input) == set n | n in DefaultIgnoreNames
  {
    var names := DefaultIgnoreNames;
    DefaultIgnoreSpaced(input, names);
    DefaultNamesPlain();
    ParseSpacedList(names);
  }

  /**
   * `.*` and `_*` in the initial box are names like any other: a name
   * starting with `.` or `_` is ignored only when it is `.*` or `_*`
   * itself, so `.git`, `.next` and `_build` are not ignored.
   */
  lemma DefaultIgnoreLiteral(input: string, x: string)
    requires input == DefaultIgnoreInput
    requires |x| >= 2 && (x[0] == '.' || x[0] == '_') && x[1] != '*'
    ensures x !in ParseIgnoreList(input)
  {
    var names := DefaultIgnoreNames;
    assert names[0] != x by {
      assert names[0][0] == 'n';
    }
    assert names[1] != x by {
      assert names[1][1] == '*';
    }
    assert names[2] != x by {
      assert names[2][1] == '*';
    }
    assert names[3] != x by {
      assert names[3][0] == 'd';
    }
    assert names[4] != x by {
      assert names[4][0] == 'b';
    }
    assert x !in names;
    DefaultIgnoreSet(input);
  }

  lemma DefaultIgnoreSpaced(input: string, names: seq<string>)
    requires input == DefaultIgnoreInput && names == DefaultIgnoreNames
    ensures input == Join(Spaced(names), ',')
  {
    var pieces := ["node_modules", " .*", " _*", " dist", " build"];
    var spaced := Spaced(names);
    assert spaced[1] == " " + ".*" == pieces[1];
    assert spaced[2] == " " + "_*" == pieces[2];
    assert spaced[3] == " " + "dist" == pieces[3];
    assert spaced[4] == " " + "build" == pieces[4];
    assert spaced == pieces;
    DefaultIgnoreJoin(input, pieces);
  }

  lemma DefaultIgnoreJoin(input: string, pieces: seq<string>)
    requires input == DefaultIgnoreInput
    requires pieces == ["node_modules", " .*", " _*", " dist", " build"]
    ensures input == Join(pieces, ',')
  {
    JoinFive(pieces, ',');
  }

  /** Five pieces joined: each followed by the separator except the last. */
  lemma JoinFive(ps: seq<string>, sep: char)
    requires |ps| == 5
    ensures Join(ps, sep) == ps[0] + [sep] + ps[1] + [sep] + ps[2] + [sep] + ps[3] + [sep] + ps[4]
  {
    assert Join(ps[4..], sep) == ps[4];
    assert Join(ps[3..], sep) == ps[3] + [sep] + ps[4];
    assert Join(ps[2..], sep) == ps[2] + [sep] + (ps[3] + [sep] + ps[4]);
    assert Join(ps[1..], sep) == ps[1] + [sep] + (ps[2] + [sep] + (ps[3] + [sep] + ps[4]));
  }

  lemma DefaultNamesPlain()
    ensures forall i :: 0 <= i < |DefaultIgnoreNames| ==>
      DefaultIgnoreNames[i] != "" && ',' !in DefaultIgnoreNames[i] && Trimmed(DefaultIgnoreNames[i])
  {
  }

  /**
   * `handleGenerate` up to the call it makes: nothing at all without a
   * chosen root directory, otherwise the ignore set it hands on.
   */
  function HandleGenerate(root: Option<DirHandle>, ignoreDirsInput: string): (r: Option<set<string>>)
    ensures r.None? <==> root.None?
    ensures r.Some? ==> r.value == ParseIgnoreList(ignoreDirsInput)
  {
    if root.None? then None else Some(ParseIgnoreList(ignoreDirsInput))
  }
}
