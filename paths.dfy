/**
  The path arithmetic the converter does for one annotation file: finding the
  paired raster by rewriting the file name with `str.replace`, stripping the
  directory and the extension (POSIX `os.path.basename` and
  `os.path.splitext`), and joining the output name onto the output directory
  (POSIX `os.path.join`). Existence on disk is an abstract set of paths.
*/
module Paths {

  import opened Optional

  /** The suffixes tried, in this order, for the raster paired with a `.json` file. */
  const Suffixes: seq<string> := ["png", "tif"]

  /** The word that is rewritten in the annotation file name to find its raster. */
  const JsonWord: string := "json"

  /** The name ending of the colour mask written for a file. */
  const MaskEnding: string := "_mask.png"

  // ---------------------------------------------------------------------------
  // str.replace

  /** `pat` occurs in `s` starting at index `k`. */
  predicate OccursAt(s: string, pat: string, k: nat) {
    k + |pat| <= |s| && s[k..k + |pat|] == pat
  }

  /** `pat` occurs nowhere in `s`. */
  predicate Absent(s: string, pat: string) {
    forall k: nat :: k <= |s| ==> !OccursAt(s, pat, k)
  }

  /**
    Python's `s.replace(pat, rep)` for a non-empty pattern: the string is
    scanned from the left and every non-overlapping occurrence of `pat` is
    replaced by `rep`.
  */
  function Replace(s: string, pat: string, rep: string): string
    requires pat != []
    decreases |s|
  {
    if |s| < |pat| then s
    else if s[..|pat|] == pat then rep + Replace(s[|pat|..], pat, rep)
    else [s[0]] + Replace(s[1..], pat, rep)
  }

  /** Where the pattern does not occur, replacing changes nothing. */
  lemma {:induction false} ReplaceAbsent(s: string, pat: string, rep: string)
    requires pat != [] && Absent(s, pat)
    ensures Replace(s, pat, rep) == s
    decreases |s|
  {
    if |s| >= |pat| {
      assert !OccursAt(s, pat, 0);
      assert Absent(s[1..], pat) by {
        forall k: nat | k <= |s[1..]| ensures !OccursAt(s[1..], pat, k) {
          assert !OccursAt(s, pat, k + 1);
          if k + |pat| <= |s[1..]| {
            assert s[1..][k..k + |pat|] == s[k + 1..k + 1 + |pat|];
          }
        }
      }
      ReplaceAbsent(s[1..], pat, rep);
    }
  }

  /**
    The first `m` characters of `s`, where no occurrence of the pattern starts
    (even one running on past them), are left as they are.
  */
  lemma {:induction false} ReplaceKeepsFirst(s: string, m: nat, pat: string, rep: string)
    requires pat != [] && m <= |s|
    requires forall k: nat :: k < m ==> !OccursAt(s, pat, k)
    ensures Replace(s, pat, rep) == s[..m] + Replace(s[m..], pat, rep)
    decreases m
  {
    if m == 0 {
      assert s[..m] + s[m..] == s;
    } else if |s| < |pat| {
      assert s[..m] + s[m..] == s;
    } else {
      assert !OccursAt(s, pat, 0);
      var u := s[1..];
      NoOccurrenceAfterFirst(s, m, pat);
      assert s[..|pat|] != pat;
      assert Replace(s, pat, rep) == [s[0]] + Replace(u, pat, rep);
      ReplaceKeepsFirst(u, m - 1, pat, rep);
      var tail := Replace(s[m..], pat, rep);
      assert u[m - 1..] == s[m..];
      assert [s[0]] + u[..m - 1] == s[..m];
    }
  }

  /** Dropping the first character shifts every occurrence one place left. */
  lemma NoOccurrenceAfterFirst(s: string, m: nat, pat: string)
    requires 0 < m <= |s|
    requires forall k: nat :: k < m ==> !OccursAt(s, pat, k)
    ensures forall k: nat :: k < m - 1 ==> !OccursAt(s[1..], pat, k)
  {
    forall k: nat | k < m - 1 ensures !OccursAt(s[1..], pat, k) {
      assert !OccursAt(s, pat, k + 1);
      if k + |pat| <= |s[1..]| {
        assert s[1..][k..k + |pat|] == s[k + 1..k + 1 + |pat|];
      }
    }
  }

  /** The same, for a prefix `a` written out: `a` is left as it is. */
  lemma ReplaceKeepsPrefix(a: string, t: string, pat: string, rep: string)
    requires pat != []
    requires forall k: nat :: k < |a| ==> !OccursAt(a + t, pat, k)
    ensures Replace(a + t, pat, rep) == a + Replace(t, pat, rep)
  {
    ReplaceKeepsFirst(a + t, |a|, pat, rep);
    assert (a + t)[..|a|] == a && (a + t)[|a|..] == t;
  }

  /**
    For a path whose only `json` is its extension, the replacement swaps the
    extension and nothing else: `p.json` becomes `p.<sfx>`.
  */
  lemma ReplaceExtension(p: string, sfx: string)
    requires Absent(p, JsonWord)
    ensures Replace(p + ".json", JsonWord, sfx) == p + "." + sfx
  {
    var a := p + ".";
    assert p + ".json" == a + JsonWord;
    forall k: nat | k < |a| ensures !OccursAt(a + JsonWord, JsonWord, k) {
      if k + 4 <= |a + JsonWord| {
        var w := (a + JsonWord)[k..k + 4];
        if k + 4 <= |p| {
          assert w == p[k..k + 4];
          assert !OccursAt(p, JsonWord, k);
        } else {
          // the window covers the dot at index |p|, and "json" has no dot
          assert w[|p| - k] == '.';
          assert '.' !in JsonWord;
        }
      }
    }
    ReplaceKeepsPrefix(a, JsonWord, JsonWord, sfx);
    assert Replace(JsonWord, JsonWord, sfx) == sfx + Replace([], JsonWord, sfx);
  }

  /**
    Every occurrence is rewritten, also one in a directory name: the raster
    sought for `json/a.json` is `png/a.png`, not `json/a.png`.
  */
  lemma ReplaceRewritesDirectories()
    ensures Replace("json/a.json", JsonWord, "png") == "png/a.png"
  {
    assert "json/a.json"[..4] == JsonWord;
    assert "json/a.json"[4..] == "/a." + JsonWord;
    forall k: nat | k < 3 ensures !OccursAt("/a." + JsonWord, JsonWord, k) {
      assert ("/a." + JsonWord)[k] != 'j';
    }
    ReplaceKeepsPrefix("/a.", JsonWord, JsonWord, "png");
    assert Replace(JsonWord, JsonWord, "png") == "png" + Replace([], JsonWord, "png");
  }

  // ---------------------------------------------------------------------------
  // Choosing the paired raster

  /** The path of the raster with suffix `sfx` paired with annotation file `file`. */
  function PairedPath(file: string, sfx: string): string {
    Replace(file, JsonWord, sfx)
  }

  /**
    The index of the first candidate suffix whose paired path exists, as
    `next(s for s in cands if exists(...))` finds it.
  */
  function FirstExisting(file: string, cands: seq<string>, existing: set<string>): (k: Option<nat>)
    ensures k.Some? ==> k.value < |cands| && PairedPath(file, cands[k.value]) in existing
    ensures k.Some? ==> forall j :: 0 <= j < k.value ==> PairedPath(file, cands[j]) !in existing
    ensures k.None? ==> forall j :: 0 <= j < |cands| ==> PairedPath(file, cands[j]) !in existing
  {
    if cands == [] then None
    else if PairedPath(file, cands[0]) in existing then Some(0)
    else match FirstExisting(file, cands[1..], existing)
      case None => None
      case Some(k) => Some(k + 1)
  }

  /** The suffix chosen for `file`: the first of `png`, `tif` whose path exists, else "". */
  function SelectSuffix(file: string, existing: set<string>): string {
    match FirstExisting(file, Suffixes, existing)
    case Some(k) => Suffixes[k]
    case None => ""
  }

  /** The three outcomes of the suffix choice, each in both directions. */
  lemma SuffixChoice(file: string, existing: set<string>)
    ensures SelectSuffix(file, existing) == "png" <==> PairedPath(file, "png") in existing
    ensures SelectSuffix(file, existing) == "tif" <==>
              PairedPath(file, "png") !in existing && PairedPath(file, "tif") in existing
    ensures SelectSuffix(file, existing) == "" <==>
              PairedPath(file, "png") !in existing && PairedPath(file, "tif") !in existing
  {
    var k := FirstExisting(file, Suffixes, existing);
    if k.None? {
      assert PairedPath(file, Suffixes[0]) !in existing;
      assert PairedPath(file, Suffixes[1]) !in existing;
    }
  }

  /** The raster that is copied next to a written mask. */
  function CompanionPath(file: string, existing: set<string>): string {
    PairedPath(file, SelectSuffix(file, existing))
  }

  // ---------------------------------------------------------------------------
  // basename, splitext, join

  /** POSIX `os.path.basename`: the longest slash-free ending of the path. */
  function Basename(p: string): (b: string)
    ensures '/' !in b
    decreases |p|
  {
    if p == [] then []
    else if p[|p| - 1] == '/' then []
    else Basename(p[..|p| - 1]) + [p[|p| - 1]]
  }

  /** The basename ends the path and is all of it or follows a slash. */
  lemma {:induction false} BasenameShape(p: string)
    ensures |Basename(p)| <= |p| && Basename(p) == p[|p| - |Basename(p)|..]
    ensures |Basename(p)| == |p| || p[|p| - |Basename(p)| - 1] == '/'
    decreases |p|
  {
    if p != [] && p[|p| - 1] != '/' {
      var q := p[..|p| - 1];
      BasenameShape(q);
      assert p == q + [p[|p| - 1]];
    }
  }

  /** The basename is the only slash-free ending that is the whole path or follows a slash. */
  lemma {:induction false} BasenameUnique(p: string, b: string)
    requires '/' !in b && |b| <= |p| && b == p[|p| - |b|..]
    requires |b| == |p| || p[|p| - |b| - 1] == '/'
    ensures Basename(p) == b
    decreases |p|
  {
    if b != [] {
      var q := p[..|p| - 1];
      assert p[|p| - 1] == b[|b| - 1];
      var c := b[..|b| - 1];
      assert c == q[|q| - |c|..];
      BasenameUnique(q, c);
      assert b == c + [b[|b| - 1]];
    }
  }

  /** The name after the last slash is the basename, whatever the directory. */
  lemma BasenameAfterSlash(dir: string, name: string)
    requires '/' !in name
    ensures Basename(dir + "/" + name) == name
  {
    var p := dir + "/" + name;
    assert name == p[|p| - |name|..];
    BasenameUnique(p, name);
  }

  /** The index of the last `c` in `s`, or -1. */
  function LastIndexOf(s: string, c: char): (k: int)
    ensures -1 <= k < |s|
    ensures k >= 0 ==> s[k] == c
    ensures forall j :: k < j < |s| ==> s[j] != c
    decreases |s|
  {
    if s == [] then -1
    else if s[|s| - 1] == c then |s| - 1
    else LastIndexOf(s[..|s| - 1], c)
  }

  /**
    The root that POSIX `os.path.splitext` returns for a slash-free name: the
    name up to its last dot, unless every character before that dot is a dot
    (a leading-dot name such as `.bashrc` has no extension).
  */
  function Stem(name: string): (root: string)
    ensures |root| <= |name| && root == name[..|root|]
    ensures root != name ==>
              name[|root|] == '.' && '.' !in name[|root| + 1..] &&
              exists j :: 0 <= j < |root| && root[j] != '.'
    ensures root == name <==>
              forall j, k :: 0 <= j < k < |name| && name[k] == '.' ==> name[j] == '.'
  {
    var k := LastIndexOf(name, '.');
    if k > 0 && exists j :: 0 <= j < k && name[j] != '.' then
      assert forall i :: k + 1 <= i < |name| ==> name[i] == name[k + 1..][i - k - 1];
      name[..k]
    else
      name
  }

  /** `os.path.splitext(os.path.basename(file))[0]`: directory and extension stripped. */
  function BaseName(file: string): (b: string)
    ensures '/' !in b
  {
    var n := Basename(file);
    assert forall i :: 0 <= i < |Stem(n)| ==> Stem(n)[i] == n[i];
    Stem(n)
  }

  /**
    For `dir/name.json` the base name is `name`, dots inside `name` included
    (`frame.0001.json` gives `frame.0001`), unless `name` is dots only.
  */
  lemma BaseNameOfJsonFile(dir: string, name: string)
    requires '/' !in name
    requires exists j :: 0 <= j < |name| && name[j] != '.'
    ensures BaseName(dir + "/" + name + ".json") == name
  {
    var n := name + ".json";
    assert dir + "/" + name + ".json" == dir + "/" + n;
    BasenameAfterSlash(dir, n);
    var j :| 0 <= j < |name| && name[j] != '.';
    assert n[|name|] == '.' && n[j] == name[j];
    var root := Stem(n);
    assert root != n;
    assert |root| == |name| by {
      assert n[|root|] == '.';
      assert forall i :: |name| < i < |n| ==> n[i] != '.';
    }
    assert root == n[..|name|] == name;
  }

  /** POSIX `os.path.join` of two components. */
  function Join(a: string, b: string): string {
    if b != [] && b[0] == '/' then b
    else if a == [] || a[|a| - 1] == '/' then a + b
    else a + "/" + b
  }

  /** Joining a plain file name onto a directory gives a path with that basename. */
  lemma JoinBasename(dir: string, name: string)
    requires '/' !in name
    ensures Basename(Join(dir, name)) == name
  {
    if name != [] && name[0] == '/' {
    } else if dir == [] || dir[|dir| - 1] == '/' {
      var p := dir + name;
      assert name == p[|p| - |name|..];
      BasenameUnique(p, name);
    } else {
      BasenameAfterSlash(dir, name);
    }
  }

  /** `os.path.join(output_path, f"{base}_mask.png")`. */
  function MaskPath(outDir: string, file: string): string {
    Join(outDir, BaseName(file) + MaskEnding)
  }

  /** Every annotation file's mask is `<base>_mask.png` in the output directory. */
  lemma MaskPathBasename(outDir: string, file: string)
    ensures Basename(MaskPath(outDir, file)) == BaseName(file) + MaskEnding
  {
    JoinBasename(outDir, BaseName(file) + MaskEnding);
  }

  /** The mask of `dir/name.json` is the file `name_mask.png` in the output directory. */
  lemma MaskFileName(outDir: string, dir: string, name: string)
    requires '/' !in name
    requires exists j :: 0 <= j < |name| && name[j] != '.'
    ensures Basename(MaskPath(outDir, dir + "/" + name + ".json")) == name + MaskEnding
  {
    BaseNameOfJsonFile(dir, name);
    MaskPathBasename(outDir, dir + "/" + name + ".json");
  }
}
