/**
 The folder listing of both scripts: of the names `os.listdir` returns, keep those that name a
 regular file and whose lower-cased form ends with one of the fourteen image extensions OpenCV
 can decode, in listing order. Whether a name is a regular file is a property of the file
 system, passed in as a predicate.
 */
module FileFilter {
  import opened Optional

  /** The `supported_extensions` tuple, in the scripts' order. */
  const SupportedExtensions: seq<string> :=
    [".bmp", ".dib", ".jpeg", ".jpg", ".png", ".webp", ".pbm",
     ".pgm", ".ppm", ".pxm", ".pnm", ".tiff", ".tif", ".hdr"]

  /** `str.lower` on one character, for the ASCII letters. */
  function LowerChar(c: char): (r: char)
  {
    if 'A' <= c <= 'Z' then (c as int - 'A' as int + 'a' as int) as char else c
  }

  /** `str.lower`: every ASCII capital replaced by its small letter, nothing else touched. */
  function Lower(s: string): (r: string)
    ensures |r| == |s|
    ensures forall i :: 0 <= i < |s| ==> r[i] == LowerChar(s[i])
  {
    seq(|s|, i requires 0 <= i < |s| => LowerChar(s[i]))
  }

  /** `s.endswith(suffix)`. */
  predicate EndsWith(s: string, suffix: string)
  {
    |suffix| <= |s| && s[|s| - |suffix|..] == suffix
  }

  /** `s.endswith(suffixes)` with a tuple: the suffixes are tried in order. */
  predicate EndsWithAny(s: string, suffixes: seq<string>)
  {
    |suffixes| > 0 && (EndsWith(s, suffixes[0]) || EndsWithAny(s, suffixes[1..]))
  }

  /** `f.lower().endswith(supported_extensions)`. */
  predicate IsSupported(name: string)
  {
    EndsWithAny(Lower(name), SupportedExtensions)
  }

  /** The condition of the list comprehension: a regular file with a supported extension. */
  predicate Admitted(name: string, isFile: string -> bool)
  {
    isFile(name) && IsSupported(name)
  }

  /** The list comprehension over a listing, as a function of its prefix. */
  function Filtered(names: seq<string>, isFile: string -> bool): (r: seq<string>)
    ensures |r| <= |names|
    ensures forall f :: f in r <==> f in names && Admitted(f, isFile)
  {
    if |names| == 0 then []
    else
      var last := names[|names| - 1];
      Filtered(names[..|names| - 1], isFile) + (if Admitted(last, isFile) then [last] else [])
  }

  /** A tuple of suffixes matches exactly when one of its members does. */
  lemma {:induction false} EndsWithAnyIff(s: string, suffixes: seq<string>)
    ensures EndsWithAny(s, suffixes) <==> exists k :: 0 <= k < |suffixes| && EndsWith(s, suffixes[k])
  {
    if |suffixes| > 0 {
      EndsWithAnyIff(s, suffixes[1..]);
      if EndsWithAny(s, suffixes[1..]) {
        var k :| 0 <= k < |suffixes[1..]| && EndsWith(s, suffixes[1..][k]);
        assert EndsWith(s, suffixes[k + 1]);
      }
      if exists k :: 0 <= k < |suffixes| && EndsWith(s, suffixes[k]) {
        var k :| 0 <= k < |suffixes| && EndsWith(s, suffixes[k]);
        if k > 0 {
          assert EndsWith(s, suffixes[1..][k - 1]);
        }
      }
    }
  }

  /** A name is kept exactly when its lower-cased form ends with one of the fourteen extensions. */
  lemma SupportedIff(name: string)
    ensures IsSupported(name) <==>
      exists k :: 0 <= k < |SupportedExtensions| && EndsWith(Lower(name), SupportedExtensions[k])
  {
    EndsWithAnyIff(Lower(name), SupportedExtensions);
  }

  /** Lower-casing twice changes nothing more. */
  lemma LowerIdempotent(s: string)
    ensures Lower(Lower(s)) == Lower(s)
  {
  }

  /** The test ignores case: a name and its lower-cased form are kept or dropped together. */
  lemma SupportedIgnoresCase(name: string)
    ensures IsSupported(Lower(name)) == IsSupported(name)
  {
    LowerIdempotent(name);
  }

  /** Filtering a concatenation filters each part: together with the one-name case this fixes
      the filter completely, and in particular it keeps the listing order. */
  lemma {:induction false} FilteredAppend(a: seq<string>, b: seq<string>, isFile: string -> bool)
    ensures Filtered(a + b, isFile) == Filtered(a, isFile) + Filtered(b, isFile)
    decreases |b|
  {
    if |b| == 0 {
      assert a + b == a;
    } else {
      var b' := b[..|b| - 1];
      var last := b[|b| - 1];
      assert (a + b)[..|a + b| - 1] == a + b';
      assert (a + b)[|a + b| - 1] == last;
      FilteredAppend(a, b', isFile);
    }
  }

  /** Filtering one name keeps it exactly when it is admitted. */
  lemma FilteredSingle(f: string, isFile: string -> bool)
    ensures Filtered([f], isFile) == if Admitted(f, isFile) then [f] else []
  {
    assert [f][..0] == [];
  }

  /** Filtering a filtered listing changes nothing. */
  lemma {:induction false} FilteredIdempotent(names: seq<string>, isFile: string -> bool)
    ensures Filtered(Filtered(names, isFile), isFile) == Filtered(names, isFile)
    decreases |names|
  {
    if |names| > 0 {
      var init := names[..|names| - 1];
      var last := names[|names| - 1];
      FilteredIdempotent(init, isFile);
      var tail := if Admitted(last, isFile) then [last] else [];
      FilteredAppend(Filtered(init, isFile), tail, isFile);
      if Admitted(last, isFile) {
        FilteredSingle(last, isFile);
      }
    }
  }

  /** Upper-case extensions are kept. */
  lemma ExampleUpperCase()
    ensures IsSupported("A.JPG")
  {
    var l := Lower("A.JPG");
    assert l[1] == '.' && l[2] == 'j' && l[3] == 'p' && l[4] == 'g';
    assert SupportedExtensions[3] == ".jpg";
    assert l[1..] == ".jpg";
    EndsWithAnyIff(l, SupportedExtensions);
    assert EndsWith(l, SupportedExtensions[3]);
  }

  /** A name that is nothing but an extension is kept too. */
  lemma ExampleExtensionOnly()
    ensures IsSupported(".png")
  {
    var l := Lower(".png");
    assert l == ".png";
    assert SupportedExtensions[4] == ".png";
    EndsWithAnyIff(l, SupportedExtensions);
    assert EndsWith(l, SupportedExtensions[4]);
  }

  /** The `-FOLDER-` event: the listing, or nothing when `os.listdir` raised, filtered by the
      list comprehension. */
  method ListImages(listing: Option<seq<string>>, isFile: string -> bool) returns (fnames: seq<string>)
    ensures listing.None? ==> fnames == []
    ensures listing.Some? ==> fnames == Filtered(listing.value, isFile)
    ensures forall f :: f in fnames <==> listing.Some? && f in listing.value && Admitted(f, isFile)
  {
    var files := if listing.Some? then listing.value else [];
    fnames := [];
    var i := 0;
    while i < |files|
      invariant 0 <= i <= |files|
      invariant fnames == Filtered(files[..i], isFile)
    {
      assert files[..i + 1][..i] == files[..i];
      if isFile(files[i]) && IsSupported(files[i]) {
        fnames := fnames + [files[i]];
      }
      i := i + 1;
    }
    assert files[..i] == files;
  }
}
