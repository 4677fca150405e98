/**
 The name a saved banner gets: `os.path.splitext(filename)[0] + "_ESN_OK" + ext`, with `ext`
 either `".jpg"` ("Save jpg") or the source's own extension ("Save").

 `os.path.splitext` splits at the last dot of the final path component, where the dots that
 start the component do not count (so `.png` has no extension). The final component begins
 after the last separator: `/` on POSIX systems, `\` or `/` on Windows.
 */
module PathName {

  datatype Flavour = Posix | Windows

  /** `os.sep` together with `os.altsep`. */
  function Separators(f: Flavour): (s: set<char>)
  {
    if f == Posix then {'/'} else {'\\', '/'}
  }

  /** `p.rfind(c)` for every `c` in `cs`, maximised: the last index holding one of `cs`, or -1. */
  function LastIndexIn(p: string, cs: set<char>): (i: int)
    ensures -1 <= i < |p|
    ensures 0 <= i ==> p[i] in cs
    ensures forall k :: i < k < |p| ==> p[k] !in cs
  {
    if |p| == 0 then -1
    else if p[|p| - 1] in cs then |p| - 1
    else LastIndexIn(p[..|p| - 1], cs)
  }

  /** Some character of `p[lo..hi]` is not a dot. */
  predicate HasNonDot(p: string, lo: int, hi: int)
    requires 0 <= lo && hi <= |p|
  {
    exists k :: lo <= k < hi && p[k] != '.'
  }

  /** `os.path.splitext(p)` as `genericpath._splitext` computes it: the pair `(root, ext)`. */
  function SplitExt(p: string, seps: set<char>): (parts: (string, string))
    requires '.' !in seps
    ensures parts.0 + parts.1 == p
    ensures parts.1 == [] || parts.1[0] == '.'
    ensures forall k :: 0 < k < |parts.1| ==> parts.1[k] != '.' && parts.1[k] !in seps
    ensures parts.1 != [] ==> exists k :: LastIndexIn(p, seps) < k < |parts.0| && parts.0[k] != '.'
    ensures parts.1 == [] ==>
      forall d, k :: LastIndexIn(p, seps) < k < d < |p| && p[d] == '.' ==> p[k] == '.'
  {
    var sepIndex := LastIndexIn(p, seps);
    var dotIndex := LastIndexIn(p, {'.'});
    if sepIndex < dotIndex && HasNonDot(p, sepIndex + 1, dotIndex) then (p[..dotIndex], p[dotIndex..])
    else (p, [])
  }

  /** The suffix both scripts append to the stem. */
  const Marker: string := "_ESN_OK"

  /** The two save buttons. */
  datatype SaveAction = Save | SaveJpg

  /** The output name of a save: the stem, the marker, then `.jpg` or the original extension.
      It is never the source's own name, so a save never overwrites the image it read. */
  function OutputName(filename: string, action: SaveAction, f: Flavour): (out: string)
    ensures out != filename
    ensures SplitExt(filename, Separators(f)).0 + Marker <= out
  {
    var parts := SplitExt(filename, Separators(f));
    var out := parts.0 + Marker + (if action == SaveJpg then ".jpg" else parts.1);
    assert action == Save ==> |out| == |filename| + |Marker|;
    assert action == SaveJpg ==> out[|parts.0|] == '_';
    out
  }

  /** Any index meeting the three clauses of `LastIndexIn`'s contract is its result. */
  lemma LastIndexUnique(p: string, cs: set<char>, i: int)
    requires -1 <= i < |p|
    requires 0 <= i ==> p[i] in cs
    requires forall k :: i < k < |p| ==> p[k] !in cs
    ensures LastIndexIn(p, cs) == i
  {
  }

  /** Appending characters none of which is in `cs` leaves the last index in `cs` where it was. */
  lemma LastIndexAppendNone(a: string, b: string, cs: set<char>)
    requires forall k :: 0 <= k < |b| ==> b[k] !in cs
    ensures LastIndexIn(a + b, cs) == LastIndexIn(a, cs)
  {
    var i := LastIndexIn(a, cs);
    assert forall k :: i < k < |a + b| ==> (a + b)[k] !in cs by {
      forall k | i < k < |a + b|
        ensures (a + b)[k] !in cs
      {
        if k >= |a| {
          assert (a + b)[k] == b[k - |a|];
        }
      }
    }
    LastIndexUnique(a + b, cs, i);
  }

  /** Splitting `root + Marker + e` for an extension `e`: the marker joins the stem, `e` stays
      the extension, whatever `root` holds. */
  lemma SplitAfterMarker(root: string, e: string, f: Flavour)
    requires |e| > 0 && e[0] == '.'
    requires forall k :: 0 < k < |e| ==> e[k] != '.' && e[k] !in Separators(f)
    ensures SplitExt(root + Marker + e, Separators(f)) == (root + Marker, e)
  {
    var seps := Separators(f);
    var p := root + Marker + e;
    var m := |root| + |Marker|;
    assert p[..m] == root + Marker;
    assert p[m..] == e;
    assert forall k :: 0 <= k < |Marker| + |e| ==> (Marker + e)[k] !in seps by {
      forall k | 0 <= k < |Marker| + |e|
        ensures (Marker + e)[k] !in seps
      {
        if k >= |Marker| {
          assert (Marker + e)[k] == e[k - |Marker|];
        }
      }
    }
    assert p == root + (Marker + e);
    LastIndexAppendNone(root, Marker + e, seps);
    LastIndexUnique(p, {'.'}, m);
    assert p[|root|] == '_';
  }

  /** Splitting `p + Marker` when `p` has no extension: neither has the result. */
  lemma SplitWithoutExtension(p: string, f: Flavour)
    requires SplitExt(p, Separators(f)).1 == []
    ensures SplitExt(p + Marker, Separators(f)) == (p + Marker, [])
  {
    var seps := Separators(f);
    var q := p + Marker;
    assert forall k :: 0 <= k < |Marker| ==> Marker[k] !in seps && Marker[k] != '.';
    LastIndexAppendNone(p, Marker, seps);
    LastIndexAppendNone(p, Marker, {'.'});
  }

  /** Saving round-trips through `splitext`: the output's stem is the source's stem plus the
      marker, and its extension is `.jpg` or the source's extension, as the action chose. */
  lemma OutputNameSplits(filename: string, action: SaveAction, f: Flavour)
    ensures var (root, ext) := SplitExt(filename, Separators(f));
      SplitExt(OutputName(filename, action, f), Separators(f))
        == (root + Marker, if action == SaveJpg then ".jpg" else ext)
  {
    var (root, ext) := SplitExt(filename, Separators(f));
    if action == SaveJpg {
      SplitAfterMarker(root, ".jpg", f);
    } else if ext == [] {
      assert root == filename;
      SplitWithoutExtension(filename, f);
    } else {
      SplitAfterMarker(root, ext, f);
    }
  }

  /** No character of `s` is a path separator. */
  predicate NoSeparator(s: string, f: Flavour)
  {
    forall k :: 0 <= k < |s| ==> s[k] !in Separators(f)
  }

  /** Neither the marker, nor `.jpg`, nor an extension `splitext` returns holds a separator. */
  lemma TailHasNoSeparator(ext: string, action: SaveAction, f: Flavour)
    requires ext == [] || ext[0] == '.'
    requires forall k :: 0 < k < |ext| ==> ext[k] !in Separators(f)
    ensures NoSeparator(ext, f)
    ensures NoSeparator(Marker + (if action == SaveJpg then ".jpg" else ext), f)
  {
    var tail := Marker + (if action == SaveJpg then ".jpg" else ext);
    forall k | 0 <= k < |tail|
      ensures tail[k] !in Separators(f)
    {
      if k >= |Marker| && action == Save {
        assert tail[k] == ext[k - |Marker|];
      }
    }
  }

  /** The output goes to the source's folder: both names share everything up to and including
      the last separator, and the output has no separator after it. */
  lemma OutputNameSameFolder(filename: string, action: SaveAction, f: Flavour)
    ensures var out := OutputName(filename, action, f);
      var i := LastIndexIn(filename, Separators(f));
      LastIndexIn(out, Separators(f)) == i && out[..i + 1] == filename[..i + 1]
  {
    var parts := SplitExt(filename, Separators(f));
    var tail := Marker + (if action == SaveJpg then ".jpg" else parts.1);
    TailHasNoSeparator(parts.1, action, f);
    SameFolderParts(parts.0, parts.1, tail, f);
    assert OutputName(filename, action, f) == parts.0 + tail;
    assert filename == parts.0 + parts.1;
  }

  /** Replacing a separator-free end of a path by another keeps the folder part. */
  lemma SameFolderParts(root: string, ext: string, tail: string, f: Flavour)
    requires NoSeparator(ext, f) && NoSeparator(tail, f)
    ensures var i := LastIndexIn(root + ext, Separators(f));
      LastIndexIn(root + tail, Separators(f)) == i && (root + tail)[..i + 1] == (root + ext)[..i + 1]
  {
    var seps := Separators(f);
    LastIndexAppendNone(root, ext, seps);
    LastIndexAppendNone(root, tail, seps);
    var i := LastIndexIn(root, seps);
    PrefixOfConcat(root, tail, i + 1);
    PrefixOfConcat(root, ext, i + 1);
  }

  /** A prefix of `a + b` no longer than `a` is a prefix of `a`. */
  lemma PrefixOfConcat(a: string, b: string, n: nat)
    requires n <= |a|
    ensures (a + b)[..n] == a[..n]
  {
  }

  /** A file named only by an extension, such as `.png`, passes the folder filter (see
      `FileFilter.ExampleExtensionOnly`), yet `splitext` gives it no extension: "Save" then names the
      output `.png_ESN_OK`, and the extension handed to `cv.imencode` by the `min`-based script is
      empty. */
  lemma DotOnlyNameLosesExtension()
    ensures SplitExt("photos/.png", Separators(Posix)) == ("photos/.png", [])
    ensures OutputName("photos/.png", Save, Posix) == "photos/.png_ESN_OK"
  {
    var p := "photos/.png";
    assert LastIndexIn(p, Separators(Posix)) == 6 by {
      LastIndexUnique(p, Separators(Posix), 6);
    }
    assert LastIndexIn(p, {'.'}) == 7 by {
      LastIndexUnique(p, {'.'}, 7);
    }
  }
}
