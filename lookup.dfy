/**
 * Resolving a screenshot id to a folder name (nxshot.py `checkID`,
 * lines 122-128): a lookup with an `Unknown` fallback, and, when regions
 * are stripped, the substitution of ` \((CHN|EUR|JPN|KOR|USA| )*\)$` by
 * the empty string, written out as a recogniser.
 */
module Lookup {
  const UNKNOWN := "Unknown"

  const REGION_CODES: set<string> := {"CHN", "EUR", "JPN", "KOR", "USA"}

  /**
   * `s[i..j]` is in the regular language `(CHN|EUR|JPN|KOR|USA| )*`, read
   * from its last token backwards. A space and a three-letter code never
   * end at the same place, so there is only one way to read a member.
   */
  predicate RunBetween(s: string, i: nat, j: nat)
    requires i <= j <= |s|
    decreases j - i
  {
    || i == j
    || (i < j && s[j - 1] == ' ' && RunBetween(s, i, j - 1))
    || (i + 3 <= j && s[j - 3..j] in REGION_CODES && RunBetween(s, i, j - 3))
  }

  /** The whole of `m` is a run of region tokens. */
  predicate IsRegionRun(m: string) {
    RunBetween(m, 0, |m|)
  }

  lemma ThreeEqual(u: string, x: nat, m: string, y: nat)
    requires x + 3 <= |u| && y + 3 <= |m|
    requires u[x] == m[y] && u[x + 1] == m[y + 1] && u[x + 2] == m[y + 2]
    ensures u[x..x + 3] == m[y..y + 3]
  {
  }

  /** A run inside `m` is a run at the same place inside `a + m + e`. */
  lemma {:induction false} RunShift(a: string, m: string, e: string, j: nat)
    requires j <= |m|
    ensures RunBetween(a + m + e, |a|, |a| + j) == RunBetween(m, 0, j)
    decreases j
  {
    if j > 0 {
      var u := a + m + e;
      RunShift(a, m, e, j - 1);
      assert u[|a| + j - 1] == m[j - 1] by {
        ConcatAt(a, m, e, j - 1);
      }
      if j >= 3 {
        RunShift(a, m, e, j - 3);
        assert u[|a| + j - 3..|a| + j] == m[j - 3..j] by {
          ConcatAt(a, m, e, j - 3);
          ConcatAt(a, m, e, j - 2);
          ConcatAt(a, m, e, j - 1);
          ThreeEqual(u, |a| + j - 3, m, j - 3);
        }
      }
    }
  }

  lemma ConcatAt(a: string, m: string, e: string, q: nat)
    requires q < |m|
    ensures (a + m + e)[|a| + q] == m[q]
  {
  }

  /** Every region code is three capital letters. */
  lemma CodeEndsInLetter(c: string)
    requires c in REGION_CODES
    ensures |c| == 3 && 'A' <= c[2] <= 'Z'
  {
  }

  /** Where the longest run of region tokens ending at `j` starts. */
  function RunStart(s: string, j: nat): (i: nat)
    requires j <= |s|
    ensures i <= j && RunBetween(s, i, j)
    decreases j
  {
    if j >= 1 && s[j - 1] == ' ' then RunStart(s, j - 1)
    else if j >= 3 && s[j - 3..j] in REGION_CODES then RunStart(s, j - 3)
    else j
  }

  /**
   * A run that starts right after a `(` is the one RunStart finds: no
   * token contains `(`, so the backward scan stops exactly there.
   */
  lemma {:induction false} RunStartAfterParen(s: string, i: nat, j: nat)
    requires 0 < i <= j <= |s| && s[i - 1] == '(' && RunBetween(s, i, j)
    ensures RunStart(s, j) == i
    decreases j
  {
    if j >= 3 && s[j - 3..j] in REGION_CODES {
      CodeEndsInLetter(s[j - 3..j]);
      assert s[j - 1] == s[j - 3..j][2];
    }
    if i == j {
      assert s[j - 1] == '(';
    } else if s[j - 1] == ' ' {
      RunStartAfterParen(s, i, j - 1);
    } else {
      RunStartAfterParen(s, i, j - 3);
    }
  }

  /** `s` ends in ` (` + a run of region tokens + `)` and that suffix starts at `k`. */
  predicate RegionSuffixAt(s: string, k: nat) {
    && k + 3 <= |s|
    && s[k..k + 2] == " ("
    && s[|s| - 1] == ')'
    && RunBetween(s, k + 2, |s| - 1)
  }

  /**
   * The substitution anchored at the very end: the result is a prefix of
   * `s`, and anything it removes is a region suffix.
   */
  function StripAtEnd(s: string): (r: string)
    ensures |r| <= |s| && r == s[..|r|]
    ensures r != s ==> RegionSuffixAt(s, |r|)
  {
    if |s| >= 1 && s[|s| - 1] == ')' then
      var j := RunStart(s, |s| - 1);
      if j >= 2 && s[j - 2..j] == " (" then s[..j - 2] else s
    else s
  }

  /** Whatever region suffix `s` has is exactly what StripAtEnd removes. */
  lemma StripAtEndRemovesSuffix(s: string, k: nat)
    requires RegionSuffixAt(s, k)
    ensures StripAtEnd(s) == s[..k]
  {
    assert s[k + 1] == s[k..k + 2][1];
    RunStartAfterParen(s, k + 2, |s| - 1);
  }

  /**
   * `re.sub(r' \((CHN|EUR|JPN|KOR|USA| )*\)$', '', name)`. In Python `$`
   * also matches just before a final newline, so a name ending in `\n`
   * keeps the newline and loses the suffix before it.
   */
  function StripRegion(name: string): (r: string)
    ensures |name| > 0 && name[|name| - 1] == '\n' ==>
      |r| > 0 && r[|r| - 1] == '\n' && r[..|r| - 1] == StripAtEnd(name[..|name| - 1])
    ensures (|name| == 0 || name[|name| - 1] != '\n') ==> r == StripAtEnd(name)
  {
    if |name| > 0 && name[|name| - 1] == '\n' then
      var r := StripAtEnd(name[..|name| - 1]) + "\n";
      assert r[..|r| - 1] == StripAtEnd(name[..|name| - 1]);
      r
    else StripAtEnd(name)
  }

  /** A name ending in ` (` + region tokens + `)` loses exactly that suffix. */
  lemma StripRegionSuffix(p: string, m: string)
    requires IsRegionRun(m)
    ensures StripRegion(p + " (" + m + ")") == p
  {
    var s := p + " (" + m + ")";
    assert s[|p|..|p| + 2] == " (";
    assert s == (p + " (") + m + ")";
    RunShift(p + " (", m, ")", |m|);
    StripAtEndRemovesSuffix(s, |p|);
    assert s[..|p|] == p;
  }

  /** A name with no region suffix (and no final newline) is left alone. */
  lemma StripRegionNoSuffix(name: string)
    requires |name| == 0 || name[|name| - 1] != '\n'
    requires forall k :: 0 <= k <= |name| ==> !RegionSuffixAt(name, k)
    ensures StripRegion(name) == name
  {
  }

  lemma UsaIsRegionRun()
    ensures IsRegionRun("USA")
  {
    assert "USA"[0..3] == "USA";
  }

  lemma UsaEurIsRegionRun()
    ensures IsRegionRun("USA EUR")
  {
    var m := "USA EUR";
    assert m[4..7] == "EUR" && m[3] == ' ' && m[0..3] == "USA";
    assert RunBetween(m, 0, 3);
  }

  /** The documented example, for any game name: ` (USA)` is dropped. */
  lemma StripRegionExample(p: string)
    ensures StripRegion(p + " (USA)") == p
  {
    UsaIsRegionRun();
    assert p + " (USA)" == p + " (" + "USA" + ")" by {
      assert " (" + "USA" + ")" == " (USA)";
      assert p + " (" + "USA" + ")" == p + (" (" + "USA" + ")");
    }
    StripRegionSuffix(p, "USA");
  }

  /** Several codes and blanks form one suffix. */
  lemma StripRegionsExample(p: string)
    ensures StripRegion(p + " (USA EUR)") == p
  {
    UsaEurIsRegionRun();
    assert p + " (USA EUR)" == p + " (" + "USA EUR" + ")" by {
      assert " (" + "USA EUR" + ")" == " (USA EUR)";
      assert p + " (" + "USA EUR" + ")" == p + (" (" + "USA EUR" + ")");
    }
    StripRegionSuffix(p, "USA EUR");
  }

  /** A parenthesised word that is not a region code stays. */
  lemma KeepOtherSuffixExample()
    ensures StripRegion("Super Example (Demo)") == "Super Example (Demo)"
  {
    var s := "Super Example (Demo)";
    assert s[|s| - 2] == 'o' && s[|s| - 4..|s| - 1] == "emo";
    assert RunStart(s, |s| - 1) == |s| - 1;
    assert s[|s| - 3..|s| - 1] == "mo";
  }

  /** The folder name for a screenshot id: `checkID(gameid, idname)` with `--strip-regions` as a parameter. */
  function CheckId(gameId: string, idname: map<string, string>, stripRegions: bool): (r: string)
    ensures gameId !in idname ==> r == UNKNOWN
    ensures gameId in idname && !stripRegions ==> r == idname[gameId]
    ensures gameId in idname && stripRegions ==> r == StripRegion(idname[gameId])
  {
    if gameId in idname then
      if stripRegions then StripRegion(idname[gameId]) else idname[gameId]
    else UNKNOWN
  }

  /**
   * The result is `Unknown` exactly when the id is missing or its stored
   * name itself reads `Unknown` after the optional strip.
   */
  lemma CheckIdUnknown(gameId: string, idname: map<string, string>, stripRegions: bool)
    ensures CheckId(gameId, idname, stripRegions) == UNKNOWN <==>
      (|| gameId !in idname
       || (!stripRegions && idname[gameId] == UNKNOWN)
       || (stripRegions && StripRegion(idname[gameId]) == UNKNOWN))
  {
  }

  /** Stripping turns a stored `Name (REGIONS)` into `Name`; without it the stored name is used. */
  lemma CheckIdStripsRegion(gameId: string, idname: map<string, string>, p: string, m: string)
    requires gameId in idname && idname[gameId] == p + " (" + m + ")" && IsRegionRun(m)
    ensures CheckId(gameId, idname, true) == p
    ensures CheckId(gameId, idname, false) == p + " (" + m + ")"
  {
    StripRegionSuffix(p, m);
  }
}
