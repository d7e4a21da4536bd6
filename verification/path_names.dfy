/** Deriving a person's label from a gallery image path.

    The label of an image is the stem of its file name: the text after the
    last `/`, with the final extension removed. Both steps follow the POSIX
    path rules of Python's `os.path.basename` and `os.path.splitext`,
    including the rule that leading dots of a name never start an extension
    (so `.jpg` has no extension at all).
 */
module PathNames {

  const Sep: char := '/'
  const ExtSep: char := '.'

  /** Index of the last occurrence of `c` in `s`, or -1 when there is none
      (the behaviour of `str.rfind`). */
  function LastIndexOf(s: string, c: char): (i: int)
    ensures -1 <= i < |s|
    ensures i >= 0 ==> s[i] == c
    ensures forall j :: i < j < |s| ==> s[j] != c
    ensures i == -1 <==> c !in s
  {
    if |s| == 0 then -1
    else if s[|s| - 1] == c then |s| - 1
    else LastIndexOf(s[..|s| - 1], c)
  }

  /** The final component of a path: everything after the last separator. */
  function Basename(p: string): (b: string)
    ensures Sep !in b
    ensures |b| <= |p| && forall j :: 0 <= j < |b| ==> b[j] == p[|p| - |b| + j]
    ensures |b| < |p| ==> p[|p| - |b| - 1] == Sep
  {
    p[LastIndexOf(p, Sep) + 1..]
  }

  /** True when some character of `t` is not a dot. */
  predicate HasNonDot(t: string) {
    exists k :: 0 <= k < |t| && t[k] != ExtSep
  }

  /** Splits a path into root and extension. The extension starts at the
      last dot, provided that dot lies in the final path component and is
      preceded there by at least one character other than a dot; otherwise
      the extension is empty. The contract below holds for either outcome;
      where the split falls is pinned down, for the names the gallery glob
      enumerates, by `GlobbedNameLosesLastExtension` and `LabelOfJoin`. */
  function SplitExt(p: string): (r: (string, string))
    ensures r.0 + r.1 == p
    ensures r.1 == [] || (r.1[0] == ExtSep && ExtSep !in r.1[1..] && Sep !in r.1)
  {
    var sepIndex := LastIndexOf(p, Sep);
    var dotIndex := LastIndexOf(p, ExtSep);
    if dotIndex > sepIndex && HasNonDot(p[sepIndex + 1..dotIndex]) then
      assert p[..dotIndex] + p[dotIndex..] == p;
      (p[..dotIndex], p[dotIndex..])
    else
      (p, [])
  }

  /** The identity label a gallery image contributes: its file name without
      the directory part and without the final extension. */
  function Label(path: string): (r: string)
    ensures Sep !in r
    ensures |r| <= |Basename(path)| && forall j :: 0 <= j < |r| ==> r[j] == Basename(path)[j]
    ensures |r| < |Basename(path)| ==> Basename(path)[|r|] == ExtSep
  {
    SplitExt(Basename(path)).0
  }

  /** The names the `*.*` glob pattern enumerates: they contain a dot and,
      being non-hidden, do not start with one. */
  ghost predicate MatchesStarDotStar(name: string) {
    |name| > 0 && name[0] != ExtSep && ExtSep in name
  }

  /** The label followed by the removed extension gives back the file name. */
  lemma LabelPlusExtensionIsBasename(path: string)
    ensures Label(path) + SplitExt(Basename(path)).1 == Basename(path)
    ensures Sep !in Label(path)
  {
  }

  /** For every name the gallery glob can enumerate, the extension is
      non-empty and the root is exactly the text before the last dot. */
  lemma GlobbedNameLosesLastExtension(b: string)
    requires Sep !in b
    requires MatchesStarDotStar(b)
    ensures SplitExt(b) == (b[..LastIndexOf(b, ExtSep)], b[LastIndexOf(b, ExtSep)..])
    ensures 0 < |SplitExt(b).0| < |b|
  {
    var sepIndex := LastIndexOf(b, Sep);
    var dotIndex := LastIndexOf(b, ExtSep);
    assert sepIndex == -1;
    assert 0 < dotIndex;
    var root := b[sepIndex + 1..dotIndex];
    assert root[0] == b[0];
    assert HasNonDot(root);
  }

  /** The base name of a directory joined with a separator-free name is
      that name. */
  lemma BasenameOfJoin(dir: string, name: string)
    requires Sep !in name
    ensures Basename(dir + [Sep] + name) == name
  {
    var p := dir + [Sep] + name;
    assert p[|dir|] == Sep;
    forall j | |dir| < j < |p| ensures p[j] != Sep {
      assert p[j] == name[j - |dir| - 1];
    }
    assert LastIndexOf(p, Sep) == |dir|;
    assert p[|dir| + 1..] == name;
  }

  /** Helper: the name `stem.ext` has no separator when neither part has
      one, the glob can enumerate it when the stem does not start with a
      dot, and its last dot is the one right after the stem. */
  lemma StemDotExt(stem: string, ext: string)
    requires Sep !in stem && Sep !in ext && ExtSep !in ext
    requires |stem| > 0 && stem[0] != ExtSep
    ensures Sep !in stem + [ExtSep] + ext
    ensures MatchesStarDotStar(stem + [ExtSep] + ext)
    ensures LastIndexOf(stem + [ExtSep] + ext, ExtSep) == |stem|
    ensures (stem + [ExtSep] + ext)[..|stem|] == stem
  {
    var b := stem + [ExtSep] + ext;
    assert b[0] == stem[0] && b[|stem|] == ExtSep;
    assert b[..|stem|] == stem;
    LastDotAfterStem(stem, ext);
  }

  /** Helper: in `stem.ext` with a dot-free extension, the last dot is the
      one right after the stem; by induction on the extension. */
  lemma {:induction false} LastDotAfterStem(stem: string, ext: string)
    requires ExtSep !in ext
    ensures LastIndexOf(stem + [ExtSep] + ext, ExtSep) == |stem|
    decreases |ext|
  {
    var b := stem + [ExtSep] + ext;
    if |ext| > 0 {
      var shorter := ext[..|ext| - 1];
      assert b[|b| - 1] == ext[|ext| - 1];
      assert b[..|b| - 1] == stem + [ExtSep] + shorter;
      LastDotAfterStem(stem, shorter);
    } else {
      assert b[|b| - 1] == ExtSep;
    }
  }

  /** Helper: a join written flat is the join of the directory and the name. */
  lemma JoinStemDotExt(dir: string, stem: string, ext: string)
    ensures dir + [Sep] + stem + [ExtSep] + ext == dir + [Sep] + (stem + [ExtSep] + ext)
  {
  }

  /** The label of a directory joined with a name the `*.*` glob can
      enumerate is that name up to its last dot. */
  lemma LabelOfJoin(dir: string, name: string)
    requires Sep !in name
    requires MatchesStarDotStar(name)
    ensures Label(dir + [Sep] + name) == name[..LastIndexOf(name, ExtSep)]
  {
    BasenameOfJoin(dir, name);
    GlobbedNameLosesLastExtension(name);
  }

  /** A path made of a directory, a separator, a stem that does not start
      with a dot, a dot and an extension free of dots gets that stem as its
      label: the label rule takes apart exactly what the naming put together. */
  lemma LabelOfDirStemExt(dir: string, stem: string, ext: string)
    requires Sep !in stem && Sep !in ext && ExtSep !in ext
    requires |stem| > 0 && stem[0] != ExtSep
    ensures Label(dir + [Sep] + stem + [ExtSep] + ext) == stem
  {
    StemDotExt(stem, ext);
    JoinStemDotExt(dir, stem, ext);
    LabelOfJoin(dir, stem + [ExtSep] + ext);
  }
}
