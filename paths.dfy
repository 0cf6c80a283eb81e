/** The two path rules of the batch driver: the input directory gets a
    trailing slash when it has none at all, and each image's metadata path is
    derived from the image path with Python's `str.replace`, which rewrites
    every non-overlapping occurrence of the pattern, scanning left to right. */
module PathRules {

  /** The input directory as the driver uses it: "/" is appended exactly when
      the name contains no "/" anywhere. */
  function NormalizeDir(dir: string): (r: string)
    ensures '/' in r
    ensures r == dir <==> '/' in dir
    ensures r == dir || r == dir + "/"
  {
    if '/' !in dir then dir + "/" else dir
  }

  /** Normalising an already normalised directory changes nothing. */
  lemma NormalizeDirIdempotent(dir: string)
    ensures NormalizeDir(NormalizeDir(dir)) == NormalizeDir(dir)
  {
  }

  /** pat occurs in s starting at index k. */
  predicate OccursAt(s: string, pat: string, k: nat) {
    k + |pat| <= |s| && s[k..k + |pat|] == pat
  }

  /** pat occurs somewhere in s. */
  predicate Contains(s: string, pat: string) {
    exists k: nat :: k <= |s| && OccursAt(s, pat, k)
  }

  /** An occurrence in the tail of s is an occurrence in s, one place later. */
  lemma OccursInTail(s: string, pat: string, k: nat)
    requires |s| > 0 && OccursAt(s[1..], pat, k)
    ensures OccursAt(s, pat, k + 1)
  {
    assert s[k + 1..k + 1 + |pat|] == s[1..][k..k + |pat|];
  }

  /** A string whose tail contains the pattern contains it too. */
  lemma TailContains(s: string, pat: string)
    requires |s| > 0
    ensures Contains(s[1..], pat) ==> Contains(s, pat)
  {
    if Contains(s[1..], pat) {
      var k: nat :| OccursAt(s[1..], pat, k);
      OccursInTail(s, pat, k);
    }
  }

  /** An occurrence in s starts at its first character or lies in its tail. */
  lemma ContainsSplitsAtHead(s: string, pat: string)
    requires |s| > 0
    ensures Contains(s, pat) ==> OccursAt(s, pat, 0) || Contains(s[1..], pat)
  {
    if Contains(s, pat) {
      var k: nat :| k <= |s| && OccursAt(s, pat, k);
      if k > 0 {
        assert s[1..][k - 1..k - 1 + |pat|] == s[k..k + |pat|];
        assert OccursAt(s[1..], pat, k - 1);
      }
    }
  }

  /** Python's `s.replace(pat, rep)` for a non-empty pattern: scanning from the
      left, each occurrence of pat is replaced by rep and scanning resumes
      after it; all other characters are kept, in order. */
  function ReplaceAll(s: string, pat: string, rep: string): (r: string)
    requires |pat| > 0
    decreases |s|
  {
    if |s| < |pat| then s
    else if s[..|pat|] == pat then
      assert OccursAt(s, pat, 0);
      rep + ReplaceAll(s[|pat|..], pat, rep)
    else
      [s[0]] + ReplaceAll(s[1..], pat, rep)
  }

  /** A string without the pattern is returned unchanged. */
  lemma {:induction false} ReplaceWithoutOccurrence(s: string, pat: string, rep: string)
    requires |pat| > 0 && !Contains(s, pat)
    ensures ReplaceAll(s, pat, rep) == s
    decreases |s|
  {
    if |s| >= |pat| {
      assert !OccursAt(s, pat, 0);
      TailContains(s, pat);
      ReplaceWithoutOccurrence(s[1..], pat, rep);
    }
  }

  /** Python's `s.split(pat)`: the pieces between the non-overlapping
      occurrences of pat, found from the left. There is always one piece more
      than there are occurrences. */
  function Split(s: string, pat: string): (pieces: seq<string>)
    requires |pat| > 0
    ensures |pieces| > 0
    decreases |s|
  {
    if |s| < |pat| then [s]
    else if s[..|pat|] == pat then [""] + Split(s[|pat|..], pat)
    else
      var rest := Split(s[1..], pat);
      [[s[0]] + rest[0]] + rest[1..]
  }

  /** Python's `sep.join(pieces)`. */
  function Join(sep: string, pieces: seq<string>): string
    requires |pieces| > 0
    decreases |pieces|
  {
    if |pieces| == 1 then pieces[0] else pieces[0] + sep + Join(sep, pieces[1..])
  }

  /** Putting a character in front of the first piece puts it in front of the
      joined string. */
  lemma JoinConsFirst(c: char, sep: string, pieces: seq<string>)
    requires |pieces| > 0
    ensures Join(sep, [[c] + pieces[0]] + pieces[1..]) == [c] + Join(sep, pieces)
  {
    var ps := [[c] + pieces[0]] + pieces[1..];
    assert ps[1..] == pieces[1..];
  }

  /** Splitting and joining back with the same pattern gives the original
      string: the pieces keep every character that is not part of a replaced
      occurrence, in order. */
  lemma {:induction false} JoinSplit(s: string, pat: string)
    requires |pat| > 0
    ensures Join(pat, Split(s, pat)) == s
    decreases |s|
  {
    if |s| < |pat| {
    } else if s[..|pat|] == pat {
      var pieces := Split(s, pat);
      JoinSplit(s[|pat|..], pat);
      assert pieces[1..] == Split(s[|pat|..], pat);
      assert s == pat + s[|pat|..];
    } else {
      var rest := Split(s[1..], pat);
      JoinSplit(s[1..], pat);
      JoinConsFirst(s[0], pat, rest);
      assert s == [s[0]] + s[1..];
    }
  }

  /** `s.replace(pat, rep)` is `rep.join(s.split(pat))`: the same pieces, with
      rep between them where pat was. */
  lemma {:induction false} ReplaceIsJoinOfSplit(s: string, pat: string, rep: string)
    requires |pat| > 0
    ensures ReplaceAll(s, pat, rep) == Join(rep, Split(s, pat))
    decreases |s|
  {
    if |s| < |pat| {
    } else if s[..|pat|] == pat {
      var pieces := Split(s, pat);
      ReplaceIsJoinOfSplit(s[|pat|..], pat, rep);
      assert pieces[1..] == Split(s[|pat|..], pat);
    } else {
      ReplaceIsJoinOfSplit(s[1..], pat, rep);
      JoinConsFirst(s[0], rep, Split(s[1..], pat));
    }
  }

  /** The first piece of a split is a prefix of the string. */
  lemma {:induction false} FirstPieceIsPrefix(s: string, pat: string)
    requires |pat| > 0
    ensures |Split(s, pat)[0]| <= |s| && Split(s, pat)[0] == s[..|Split(s, pat)[0]|]
    decreases |s|
  {
    if |s| >= |pat| && s[..|pat|] != pat {
      var r0 := Split(s[1..], pat)[0];
      FirstPieceIsPrefix(s[1..], pat);
      SplitKeepsFirst(s, pat);
      PrefixAfterFirst(s, r0);
    }
  }

  /** Where no occurrence starts, the first piece keeps the first character. */
  lemma SplitKeepsFirst(s: string, pat: string)
    requires |pat| > 0 && |s| >= |pat| && s[..|pat|] != pat
    ensures Split(s, pat)[0] == [s[0]] + Split(s[1..], pat)[0]
  {
  }

  /** A prefix of the tail, with the first character in front, is a prefix. */
  lemma PrefixAfterFirst(s: string, p: string)
    requires |s| > 0 && |p| < |s| && p == s[1..][..|p|]
    ensures [s[0]] + p == s[..|p| + 1]
  {
  }

  /** No piece of a split contains the pattern: every occurrence was cut out. */
  lemma {:induction false} PiecesAreFree(s: string, pat: string)
    requires |pat| > 0
    ensures forall i :: 0 <= i < |Split(s, pat)| ==> !Contains(Split(s, pat)[i], pat)
    decreases |s|
  {
    var pieces := Split(s, pat);
    if |s| < |pat| {
    } else if s[..|pat|] == pat {
      PiecesAreFree(s[|pat|..], pat);
      assert pieces[1..] == Split(s[|pat|..], pat);
    } else {
      var rest := Split(s[1..], pat);
      PiecesAreFree(s[1..], pat);
      assert pieces[1..] == rest[1..];
      var head := [s[0]] + rest[0];
      FirstPieceIsPrefix(s[1..], pat);
      assert head == s[..|head|];
      if |pat| <= |head| {
        assert head[..|pat|] == s[..|pat|];
      }
      assert head[1..] == rest[0];
      ContainsSplitsAtHead(head, pat);
    }
  }

  /** The metadata path the driver derives from an image path:
      `img.replace('.tif', '_meta.csv')`. */
  function MetaPath(img: string): string {
    ReplaceAll(img, ".tif", "_meta.csv")
  }

  /** A non-empty prefix free of pat cannot start an occurrence of pat when
      pat follows it, provided pat's first character does not recur in pat. */
  lemma NoOccurrenceAtStart(base: string, pat: string, rest: string)
    requires |pat| > 0 && pat[0] !in pat[1..] && !Contains(base, pat) && |base| > 0
    ensures (base + pat + rest)[..|pat|] != pat
  {
    var s := base + pat + rest;
    if |base| >= |pat| {
      assert s[..|pat|] == base[..|pat|];
      assert !OccursAt(base, pat, 0);
    } else {
      // Where pat itself starts, s holds pat's first character, which does
      // not appear at that offset of pat.
      assert s[|base|] == pat[0];
      assert pat[|base|] in pat[1..];
      assert s[..|pat|][|base|] != pat[|base|];
    }
  }

  /** Where no occurrence starts, `replace` keeps the first character. */
  lemma ReplaceKeepsFirst(s: string, pat: string, rep: string)
    requires |pat| > 0 && |s| >= |pat| && s[..|pat|] != pat
    ensures ReplaceAll(s, pat, rep) == [s[0]] + ReplaceAll(s[1..], pat, rep)
  {
  }

  /** Where an occurrence starts, `replace` replaces it and carries on after it. */
  lemma ReplaceAtStart(s: string, pat: string, rep: string)
    requires |pat| > 0 && |s| >= |pat| && s[..|pat|] == pat
    ensures ReplaceAll(s, pat, rep) == rep + ReplaceAll(s[|pat|..], pat, rep)
  {
  }

  /** One step of the scan through a prefix free of pat: the first character
      is kept, and the rest of the prefix is dealt with as before. */
  lemma ReplaceStepThroughPrefix(base: string, pat: string, rep: string, rest: string)
    requires |pat| > 0 && |base| > 0 && (base + pat + rest)[..|pat|] != pat
    requires ReplaceAll(base[1..] + pat + rest, pat, rep) == base[1..] + rep + ReplaceAll(rest, pat, rep)
    ensures ReplaceAll(base + pat + rest, pat, rep) == base + rep + ReplaceAll(rest, pat, rep)
  {
    var s, r := base + pat + rest, ReplaceAll(rest, pat, rep);
    ReplaceKeepsFirst(s, pat, rep);
    assert s[0] == base[0] && s[1..] == base[1..] + pat + rest;
    assert [base[0]] + (base[1..] + rep + r) == base + rep + r;
  }

  /** Up to the first occurrence of a pattern whose first character does not
      recur in it, `replace` copies the string, replaces that occurrence, and
      carries on with the rest. */
  lemma {:induction false} ReplaceAtFirstOccurrence(base: string, pat: string, rep: string, rest: string)
    requires |pat| > 0 && pat[0] !in pat[1..] && !Contains(base, pat)
    ensures ReplaceAll(base + pat + rest, pat, rep) == base + rep + ReplaceAll(rest, pat, rep)
    decreases |base|
  {
    if base == [] {
      var s := base + pat + rest;
      assert s == pat + rest && s[..|pat|] == pat && s[|pat|..] == rest;
      ReplaceAtStart(s, pat, rep);
    } else {
      TailContains(base, pat);
      ReplaceAtFirstOccurrence(base[1..], pat, rep, rest);
      NoOccurrenceAtStart(base, pat, rest);
      ReplaceStepThroughPrefix(base, pat, rep, rest);
    }
  }

  /** For an image path that contains ".tif" only as its extension, the
      metadata path swaps the extension for "_meta.csv". */
  lemma MetaPathOfPlainName(base: string)
    requires !Contains(base, ".tif")
    ensures MetaPath(base + ".tif") == base + "_meta.csv"
  {
    assert ".tif"[0] !in ".tif"[1..];
    ReplaceAtFirstOccurrence(base, ".tif", "_meta.csv", "");
    assert base + ".tif" + "" == base + ".tif";
  }

  /** The metadata path as evidently intended: only a trailing ".tif"
      extension is replaced by "_meta.csv"; a path without that extension is
      returned unchanged. */
  function MetaPathOfSuffix(img: string): (r: string)
    ensures |img| < 4 || img[|img| - 4..] != ".tif" ==> r == img
  {
    if |img| >= 4 && img[|img| - 4..] == ".tif" then img[..|img| - 4] + "_meta.csv" else img
  }

  /** For every image path ending in ".tif", whatever its directories are
      called, the intended rule swaps the extension and keeps the rest. */
  lemma MetaPathOfSuffixSwapsExtension(base: string)
    ensures MetaPathOfSuffix(base + ".tif") == base + "_meta.csv"
  {
    var s := base + ".tif";
    assert s[|s| - 4..] == ".tif";
    assert s[..|s| - 4] == base;
  }

  /** Where ".tif" occurs only as the extension, both rules agree. */
  lemma MetaPathRulesAgree(base: string)
    requires !Contains(base, ".tif")
    ensures MetaPath(base + ".tif") == MetaPathOfSuffix(base + ".tif")
  {
    MetaPathOfPlainName(base);
    MetaPathOfSuffixSwapsExtension(base);
  }

  /** Putting a character that does not start the pattern in front of a
      string free of the pattern keeps it free of the pattern. */
  lemma ConsLacksPattern(c: char, s: string, pat: string)
    requires |pat| > 0 && c != pat[0] && !Contains(s, pat)
    ensures !Contains([c] + s, pat)
  {
    var t := [c] + s;
    assert t[1..] == s;
    ContainsSplitsAtHead(t, pat);
  }

  /** The driver's rule on an image dir.tif/name.tif, where neither dir nor
      name contains ".tif": both occurrences are replaced. */
  lemma MetaPathOfTifDirectory(dir: string, name: string)
    requires !Contains(dir, ".tif") && !Contains(name, ".tif")
    ensures MetaPath(dir + ".tif" + ("/" + name + ".tif")) == dir + "_meta.csv" + ("/" + name + "_meta.csv")
  {
    var pat, rep := ".tif", "_meta.csv";
    var tail := "/" + name;
    assert pat[0] !in pat[1..];
    ConsLacksPattern('/', name, pat);
    MetaPathOfPlainName(tail);
    ReplaceAtFirstOccurrence(dir, pat, rep, tail + pat);
  }

  /** A directory whose name ends in ".tif" is rewritten too: for the image
      dir.tif/name.tif the driver looks for dir_meta.csv/name_meta.csv, where
      the intended rule gives dir.tif/name_meta.csv (for instance
      "a.tif/b.tif" gives "a_meta.csv/b_meta.csv" instead of
      "a.tif/b_meta.csv"). */
  lemma MetaPathRewritesDirectory(dir: string, name: string)
    requires !Contains(dir, ".tif") && !Contains(name, ".tif")
    ensures MetaPath(dir + ".tif/" + name + ".tif") == dir + "_meta.csv/" + name + "_meta.csv"
    ensures MetaPathOfSuffix(dir + ".tif/" + name + ".tif") == dir + ".tif/" + name + "_meta.csv"
    ensures MetaPath(dir + ".tif/" + name + ".tif") != MetaPathOfSuffix(dir + ".tif/" + name + ".tif")
  {
    MetaPathOfTifDirectory(dir, name);
    assert dir + ".tif" + ("/" + name + ".tif") == dir + ".tif/" + name + ".tif";
    assert dir + "_meta.csv" + ("/" + name + "_meta.csv") == dir + "_meta.csv/" + name + "_meta.csv";
    MetaPathOfSuffixSwapsExtension(dir + ".tif/" + name);
  }
}
