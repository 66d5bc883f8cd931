/**
  The command-line upload client `post_images_to_api`: it selects the image
  files of a directory, derives an upload name for every copy of every
  image, and builds the ordered list of multipart parts it posts.

  The directory is given as its listing (the names `os.listdir` returns, in
  its order) and the set of those names that are regular files
  (`os.path.isfile`). The open file handle of a part is replaced by the path
  it was opened from.
 */
module Client {
  import opened Text
  import opened Wrappers

  /** One multipart part: the form field, the upload name, the file it
      streams, and the declared content type. */
  datatype Part = Part(field: string, filename: string, path: string, contentType: string)

  /** The upload is selected when its lower-cased name ends with one of these. */
  predicate IsImageName(name: string) {
    var low := Lower(name);
    EndsWith(low, ".jpg") || EndsWith(low, ".jpeg") || EndsWith(low, ".png")
  }

  /** Whether a directory entry is kept by the filter of the list comprehension. */
  predicate Selected(name: string, regular: set<string>) {
    name in regular && IsImageName(name)
  }

  /** The list comprehension that builds `image_files`. */
  function SelectImages(listing: seq<string>, regular: set<string>): (r: seq<string>)
    ensures |r| <= |listing|
    ensures forall x :: multiset(r)[x] == if Selected(x, regular) then multiset(listing)[x] else 0
  {
    if listing == [] then []
    else
      var rest := SelectImages(listing[..|listing| - 1], regular);
      var last := listing[|listing| - 1];
      assert listing == listing[..|listing| - 1] + [last];
      if Selected(last, regular) then rest + [last] else rest
  }

  /**
    The selection keeps the listing's order: filtering a concatenation is
    concatenating the filtered parts.
   */
  lemma {:induction false} SelectImagesKeepsOrder(a: seq<string>, b: seq<string>, regular: set<string>)
    ensures SelectImages(a + b, regular) == SelectImages(a, regular) + SelectImages(b, regular)
  {
    if b == [] {
      assert a + b == a;
      assert SelectImages(b, regular) == [];
    } else {
      var init, last := b[..|b| - 1], b[|b| - 1];
      assert b == init + [last];
      assert a + b == (a + init) + [last];
      SelectImagesKeepsOrder(a, init, regular);
      SelectImagesSnoc(init, last, regular);
      SelectImagesSnoc(a + init, last, regular);
    }
  }

  /** Appending one entry to the listing appends it to the selection when it passes the filter. */
  lemma SelectImagesSnoc(s: seq<string>, x: string, regular: set<string>)
    ensures SelectImages(s + [x], regular) == if Selected(x, regular) then SelectImages(s, regular) + [x] else SelectImages(s, regular)
  {
    var t := s + [x];
    assert t[..|t| - 1] == s;
    assert t[|t| - 1] == x;
  }

  /** A single entry is kept exactly when it passes the filter. */
  lemma SelectImagesSingle(x: string, regular: set<string>)
    ensures SelectImages([x], regular) == if Selected(x, regular) then [x] else []
  {
    assert [x][..0] == [];
  }

  /**
    The filter ignores letter case: a name is an image name exactly when it
    ends in `.jpg`, `.jpeg` or `.png` written in any mix of ASCII case.
   */
  lemma FilterIgnoresCase(name: string)
    ensures IsImageName(name) <==>
      EndsWithAnyCase(name, ".jpg") || EndsWithAnyCase(name, ".jpeg") || EndsWithAnyCase(name, ".png")
  {
    LowerEndsWithAnyCase(name, ".jpg");
    LowerEndsWithAnyCase(name, ".jpeg");
    LowerEndsWithAnyCase(name, ".png");
  }

  /** Index of the last '.' in `s`, or -1 when there is none. */
  function LastDot(s: string): (r: int)
    ensures -1 <= r < |s|
    ensures r >= 0 ==> s[r] == '.'
    ensures forall k :: r < k < |s| ==> s[k] != '.'
  {
    if s == [] then -1
    else if s[|s| - 1] == '.' then |s| - 1
    else LastDot(s[..|s| - 1])
  }

  /** Whether some character before position `d` is not a dot. */
  predicate HasNonDotBefore(s: string, d: int) {
    exists k :: 0 <= k < d && k < |s| && s[k] != '.'
  }

  /**
    `os.path.splitext` for a name without a separator: the extension starts
    at the last dot, unless every character before that dot is a dot too
    (".png" and "..png" have no extension).
   */
  function SplitExt(name: string): (parts: (string, string))
    ensures parts.0 + parts.1 == name
    ensures parts.1 == [] || (parts.1[0] == '.' && forall k :: 0 < k < |parts.1| ==> parts.1[k] != '.')
    ensures parts.1 != [] <==> HasNonDotBefore(name, LastDot(name))
  {
    var d := LastDot(name);
    if HasNonDotBefore(name, d) then (name[..d], name[d..]) else (name, [])
  }

  /** The `send_name` expression of the loop body for copy `i`. */
  function SendName(name: string, i: nat, multiply: int): string {
    if multiply > 1 then
      var (stem, ext) := SplitExt(name);
      stem + "_copy" + Decimal(i) + ext
    else name
  }

  /** `os.path.join(images_dir, f)` for a relative `f`. */
  function JoinPath(dir: string, name: string): string {
    if dir == [] || dir[|dir| - 1] == '/' then dir + name else dir + "/" + name
  }

  function PartFor(dir: string, name: string, i: nat, multiply: int): Part {
    Part("images", SendName(name, i, multiply), JoinPath(dir, name), "image/jpeg")
  }

  /** The parts appended by one pass of the inner loop, for copy `i`. */
  function Round(dir: string, images: seq<string>, i: nat, multiply: int): (r: seq<Part>)
    ensures |r| == |images|
    ensures forall j :: 0 <= j < |images| ==> r[j] == PartFor(dir, images[j], i, multiply)
  {
    seq(|images|, j requires 0 <= j < |images| => PartFor(dir, images[j], i, multiply))
  }

  /** The parts appended by the first `rounds` passes of the outer loop. */
  function Uploads(dir: string, images: seq<string>, multiply: int, rounds: nat): seq<Part> {
    if rounds == 0 then [] else Uploads(dir, images, multiply, rounds - 1) + Round(dir, images, rounds - 1, multiply)
  }

  /** `range(multiply)` has this many elements. */
  function Copies(multiply: int): nat {
    if multiply > 0 then multiply else 0
  }

  /** One pass of the inner loop: appends the parts for copy `i` to `files`. */
  method AppendRound(dir: string, images: seq<string>, i: nat, multiply: int, files: seq<Part>)
    returns (out: seq<Part>)
    ensures out == files + Round(dir, images, i, multiply)
  {
    ghost var round := Round(dir, images, i, multiply);
    out := files;
    var j := 0;
    while j < |images|
      invariant 0 <= j <= |images|
      invariant out == files + round[..j]
    {
      assert round[..j + 1] == round[..j] + [PartFor(dir, images[j], i, multiply)];
      out := out + [PartFor(dir, images[j], i, multiply)];
      j := j + 1;
    }
    assert round[..j] == round;
  }

  /** Builds `files` with the two nested loops of the source. */
  method BuildFiles(dir: string, images: seq<string>, multiply: int) returns (files: seq<Part>)
    ensures files == Uploads(dir, images, multiply, Copies(multiply))
  {
    files := [];
    var i := 0;
    while i < multiply
      invariant 0 <= i <= Copies(multiply)
      invariant files == Uploads(dir, images, multiply, i)
    {
      files := AppendRound(dir, images, i, multiply, files);
      i := i + 1;
    }
  }

  /**
    The whole function without its network post: `None` when no image was
    found (the early return), otherwise the parts it would post.
   */
  method PostImagesToApi(dir: string, listing: seq<string>, regular: set<string>, multiply: int)
    returns (request: Option<seq<Part>>)
    ensures request.None? <==> (forall x :: x in listing ==> !Selected(x, regular))
    ensures request.Some? ==> request.value == Uploads(dir, SelectImages(listing, regular), multiply, Copies(multiply))
  {
    var images := SelectImages(listing, regular);
    if images == [] {
      forall x | x in listing ensures !Selected(x, regular) {
        assert multiset(listing)[x] > 0;
      }
      return None;
    }
    assert multiset(images)[images[0]] > 0;
    var files := BuildFiles(dir, images, multiply);
    request := Some(files);
  }

  // ----- properties of the upload list -----

  lemma ProductAtLeast(a: int, n: nat)
    requires a >= 1
    ensures a * n >= n
  {
    assert a * n == (a - 1) * n + n;
  }

  lemma DivModOfRound(q: nat, n: nat, j: nat)
    requires j < n
    ensures (q * n + j) / n == q && (q * n + j) % n == j
  {
    var k := q * n + j;
    var q', j' := k / n, k % n;
    assert q' * n + j' == k;
    if q' < q {
      assert (q - q') * n == j' - j;
      ProductAtLeast(q - q', n);
    } else if q' > q {
      assert (q' - q) * n == j - j';
      ProductAtLeast(q' - q, n);
    }
  }

  /** The list has one part per copy and image. */
  lemma {:induction false} UploadsLength(dir: string, images: seq<string>, multiply: int, rounds: nat)
    ensures |Uploads(dir, images, multiply, rounds)| == rounds * |images|
  {
    if rounds > 0 {
      UploadsLength(dir, images, multiply, rounds - 1);
      NextMultiple(rounds - 1, |images|);
    }
  }

  /**
    The list is ordered by copy index first and by position in `images`
    second: the part at position `k` is image `k % n` in copy `k / n`.
   */
  lemma {:induction false} UploadsAt(dir: string, images: seq<string>, multiply: int, rounds: nat, k: nat)
    requires k < rounds * |images|
    ensures |images| > 0 && k < |Uploads(dir, images, multiply, rounds)|
    ensures Uploads(dir, images, multiply, rounds)[k] == PartFor(dir, images[k % |images|], k / |images|, multiply)
  {
    var n := |images|;
    ZeroFactor(rounds, n);
    UploadsLength(dir, images, multiply, rounds);
    var m := (rounds - 1) * n;
    NextMultiple(rounds - 1, n);
    var prev := Uploads(dir, images, multiply, rounds - 1);
    var round := Round(dir, images, rounds - 1, multiply);
    UploadsLength(dir, images, multiply, rounds - 1);
    assert Uploads(dir, images, multiply, rounds) == prev + round;
    if k >= m {
      var j := k - m;
      DivModOfRound(rounds - 1, n, j);
      assert k % n == j && k / n == rounds - 1;
      assert Uploads(dir, images, multiply, rounds)[k] == round[j] == PartFor(dir, images[j], rounds - 1, multiply);
    } else {
      UploadsAt(dir, images, multiply, rounds - 1, k);
      assert Uploads(dir, images, multiply, rounds)[k] == prev[k];
    }
  }

  lemma DivModBounds(k: nat, n: nat)
    requires n > 0
    ensures 0 <= k / n && 0 <= k % n < n
  {
  }

  lemma NextMultiple(q: nat, n: nat)
    ensures (q + 1) * n == q * n + n
  {
  }

  lemma ZeroFactor(r: nat, n: nat)
    ensures r == 0 || n == 0 ==> r * n == 0
  {
  }

  /** With at most one copy every part keeps the file's own name. */
  lemma NoRenamingForSingleCopy(dir: string, images: seq<string>, multiply: int)
    requires multiply <= 1
    ensures var u := Uploads(dir, images, multiply, Copies(multiply));
      && |u| == Copies(multiply) * |images|
      && forall k :: 0 <= k < |u| ==> u[k].filename == images[k] && u[k].path == JoinPath(dir, images[k])
  {
    if multiply == 1 {
      var u := Uploads(dir, images, multiply, 1);
      var round := Round(dir, images, 0, multiply);
      assert u == Uploads(dir, images, multiply, 0) + round;
      assert u == round;
      forall k | 0 <= k < |u|
        ensures u[k].filename == images[k] && u[k].path == JoinPath(dir, images[k])
      {
        assert u[k] == PartFor(dir, images[k], 0, multiply);
      }
    }
  }

  /**
    For more than one copy, a renamed image that has a non-dot character
    before its last dot keeps an image extension, so the name still passes
    the filter.
   */
  lemma RenamedKeepsImageExtension(name: string, i: nat, multiply: int)
    requires IsImageName(name) && HasNonDotBefore(name, LastDot(name))
    ensures IsImageName(SendName(name, i, multiply))
  {
    if multiply > 1 {
      var suf := if EndsWith(Lower(name), ".jpeg") then ".jpeg"
                 else if EndsWith(Lower(name), ".jpg") then ".jpg" else ".png";
      OneLeadingDot(suf);
      RenamedKeepsSuffix(name, i, multiply, suf);
      ImageNameBySuffix(SendName(name, i, multiply), suf);
    }
  }

  /** A name whose lower-cased form ends in one of the image suffixes passes the filter. */
  lemma ImageNameBySuffix(s: string, suf: string)
    requires suf == ".jpeg" || suf == ".jpg" || suf == ".png"
    requires EndsWith(Lower(s), suf)
    ensures IsImageName(s)
  {
  }

  /** A suffix whose only dot is its first character, like the three image suffixes. */
  predicate DotSuffix(suf: string) {
    |suf| >= 1 && suf[0] == '.' && forall k :: 0 < k < |suf| ==> suf[k] != '.'
  }

  /** Renaming keeps the suffix the extension ends in, up to case. */
  lemma RenamedKeepsSuffix(name: string, i: nat, multiply: int, suf: string)
    requires multiply > 1 && DotSuffix(suf)
    requires EndsWith(Lower(name), suf) && HasNonDotBefore(name, LastDot(name))
    ensures EndsWith(Lower(SendName(name, i, multiply)), suf)
  {
    var (stem, ext) := SplitExt(name);
    ExtensionIsImageSuffix(name, suf);
    var p := stem + "_copy" + Decimal(i);
    assert SendName(name, i, multiply) == p + ext;
    LowerEndsWith(p, ext, suf);
  }

  /** Appending a string whose lower-cased form is `suf` gives a name ending in `suf`. */
  lemma LowerEndsWith(p: string, ext: string, suf: string)
    requires Lower(ext) == suf
    ensures EndsWith(Lower(p + ext), suf)
  {
    var r := p + ext;
    assert r[|p|..] == ext;
    LowerOfSuffix(r, |p|);
  }

  /** The extension of a name ending in an image suffix is that suffix, up to case. */
  lemma ExtensionIsImageSuffix(name: string, suf: string)
    requires DotSuffix(suf) && EndsWith(Lower(name), suf)
    ensures SplitExt(name).1 != [] ==> Lower(SplitExt(name).1) == suf
  {
    ExtensionIsSuffix(name, suf);
    LowerOfSuffix(name, |name| - |suf|);
    var low := Lower(name);
    assert low[|low| - |suf|..] == suf;
  }

  /**
    When the lower-cased name ends with a suffix whose only dot is its
    first character, the last dot of the name starts that suffix.
   */
  lemma ExtensionIsSuffix(name: string, suf: string)
    requires DotSuffix(suf) && EndsWith(Lower(name), suf)
    ensures LastDot(name) == |name| - |suf|
  {
    SuffixDots(name, suf);
  }

  /** The dots of the name under such a suffix: one where it starts, none after. */
  lemma SuffixDots(name: string, suf: string)
    requires DotSuffix(suf) && EndsWith(Lower(name), suf)
    ensures name[|name| - |suf|] == '.'
    ensures forall k :: |name| - |suf| < k < |name| ==> name[k] != '.'
  {
    var n, e := |name|, |suf|;
    var low := Lower(name);
    SuffixChars(low, suf);
    assert low[n - e] == suf[0];
    LowerKeepsDots(name[n - e]);
    forall k | n - e < k < n ensures name[k] != '.' {
      assert low[k] == suf[k - (n - e)];
      LowerKeepsDots(name[k]);
    }
  }

  /** Lower-casing commutes with dropping a prefix. */
  lemma LowerOfSuffix(s: string, d: nat)
    requires d <= |s|
    ensures Lower(s[d..]) == Lower(s)[d..]
  {
    var a, b := Lower(s[d..]), Lower(s)[d..];
    forall k | 0 <= k < |a| ensures a[k] == b[k] {
      assert s[d..][k] == s[d + k];
    }
  }

  /** The characters of a suffix, position by position. */
  lemma SuffixChars(s: string, suf: string)
    requires EndsWith(s, suf)
    ensures forall k :: 0 <= k < |suf| ==> s[|s| - |suf| + k] == suf[k]
  {
    forall k | 0 <= k < |suf| ensures s[|s| - |suf| + k] == suf[k] {
      assert s[|s| - |suf|..][k] == suf[k];
    }
  }

  /** The three image suffixes start with their only dot. */
  lemma OneLeadingDot(suf: string)
    requires suf == ".jpeg" || suf == ".jpg" || suf == ".png"
    ensures |suf| >= 4 && suf[0] == '.' && forall k :: 0 < k < |suf| ==> suf[k] != '.'
  {
  }

  /** Lower-casing maps a dot, and only a dot, to a dot. */
  lemma LowerKeepsDots(c: char)
    ensures LowerChar(c) == '.' <==> c == '.'
  {
  }

  /**
    A name made of dots and an extension has no extension for `splitext`,
    so its renamed copy no longer ends in an image extension.
   */
  lemma DotOnlyStemLosesExtension()
    ensures IsImageName(".png")
    ensures SendName(".png", 0, 2) == ".png_copy0"
    ensures !IsImageName(SendName(".png", 0, 2))
  {
    var s := ".png";
    assert s[..3] == ".pn" && s[..2] == ".p" && s[..1] == ".";
    assert LastDot(".") == 0;
    assert LastDot(".p") == 0;
    assert LastDot(".pn") == 0;
    assert LastDot(s) == 0;
    assert !HasNonDotBefore(s, 0);
    assert SplitExt(s) == (s, "");
    assert Lower(s) == s;
    assert Decimal(0) == "0";
    var r := ".png_copy0";
    assert SendName(s, 0, 2) == s + "_copy" + "0" + "" == r;
    assert r[|r| - 1] == '0';
    ImageNameEndsInLetter(r);
  }

  /**
    The extension survives renaming: `splitext` of the renamed name gives
    the original stem with `_copy` and the copy index appended, and the
    original extension, for every name.
   */
  lemma SplitExtOfRenamed(a: string, i: nat, multiply: int)
    requires multiply > 1
    ensures SplitExt(SendName(a, i, multiply)) == (SplitExt(a).0 + "_copy" + Decimal(i), SplitExt(a).1)
  {
    var (stem, ext) := SplitExt(a);
    var tag := "_copy" + Decimal(i);
    TagHasNoDot(i);
    var r := SendName(a, i, multiply);
    assert r == (stem + tag) + ext;
    assert stem + "_copy" + Decimal(i) == stem + tag;
    if ext == [] {
      assert stem == a && r == a + tag;
      NoExtensionKept(a, tag);
    } else {
      ExtensionKept(a, tag);
    }
  }

  /** Inserting dot-free text between the stem and the extension keeps the extension. */
  lemma ExtensionKept(a: string, tag: string)
    requires SplitExt(a).1 != []
    requires forall k :: 0 <= k < |tag| ==> tag[k] != '.'
    ensures SplitExt((SplitExt(a).0 + tag) + SplitExt(a).1) == (SplitExt(a).0 + tag, SplitExt(a).1)
  {
    var (stem, ext) := SplitExt(a);
    var d := LastDot(a);
    var p := stem + tag;
    var r := p + ext;
    // the extension's dot is still the last one, and the stem still has a non-dot before it
    assert |stem| == d;
    assert forall k :: 0 <= k < |ext| ==> r[|p| + k] == ext[k];
    LastDotIs(r, |p|);
    var k :| 0 <= k < d && k < |a| && a[k] != '.';
    assert r[k] == stem[k] == a[k];
  }

  /** Appending dot-free text to a name without extension gives a name without extension. */
  lemma NoExtensionKept(a: string, tag: string)
    requires SplitExt(a).1 == []
    requires forall k :: 0 <= k < |tag| ==> tag[k] != '.'
    ensures SplitExt(a + tag) == (a + tag, [])
  {
    var r, d := a + tag, LastDot(a);
    // the last dot is unchanged, and every character before it is still a dot
    LastDotIs(r, d);
    forall k | 0 <= k < d && k < |r| ensures r[k] == '.' {
      assert r[k] == a[k];
    }
  }

  /** The text inserted by renaming holds no dot. */
  lemma TagHasNoDot(i: nat)
    ensures forall k :: 0 <= k < |"_copy" + Decimal(i)| ==> ("_copy" + Decimal(i))[k] != '.'
  {
    var tag := "_copy" + Decimal(i);
    forall k | 0 <= k < |tag| ensures tag[k] != '.' {
      if k >= 5 {
        assert tag[k] == Decimal(i)[k - 5];
      }
    }
  }

  /** `LastDot` is the only index with its three properties. */
  lemma LastDotIs(s: string, r: int)
    requires -1 <= r < |s|
    requires r >= 0 ==> s[r] == '.'
    requires forall k :: r < k < |s| ==> s[k] != '.'
    ensures LastDot(s) == r
  {
  }

  /** A selected name ends in 'g' or 'G', never in a digit. */
  lemma ImageNameEndsInLetter(name: string)
    ensures IsImageName(name) ==> |name| >= 4 && !IsDigit(name[|name| - 1])
  {
    if IsImageName(name) {
      var low := Lower(name);
      assert low[|low| - 1] == 'g';
    }
  }

  /** What `SplitExt` can return as the extension of a selected name. */
  predicate ExtensionShape(e: string) {
    e == [] || (e[0] == '.' && (forall k :: 0 < k < |e| ==> e[k] != '.') && !IsDigit(e[|e| - 1]))
  }

  lemma ConcatIndex(p: string, e: string)
    ensures forall k :: 0 <= k < |e| ==> (p + e)[|p| + k] == e[k]
    ensures |p| > 0 ==> (p + e)[|p| - 1] == p[|p| - 1]
  {
  }

  /**
    Two splits of one name, each ending its first part in a digit and each
    with an extension of the shape above, have the same extension.
   */
  lemma ExtensionsAgree(p1: string, e1: string, p2: string, e2: string)
    requires p1 + e1 == p2 + e2
    requires |p1| > 0 && IsDigit(p1[|p1| - 1]) && |p2| > 0 && IsDigit(p2[|p2| - 1])
    requires ExtensionShape(e1) && ExtensionShape(e2)
    ensures e1 == e2
  {
    ConcatIndex(p1, e1);
    ConcatIndex(p2, e2);
    if e1 == [] && e2 != [] {
      assert false;
    } else if e2 == [] && e1 != [] {
      assert false;
    } else if |e1| < |e2| {
      assert false;
    } else if |e2| < |e1| {
      assert false;
    }
    assert e1 == (p1 + e1)[|p1|..];
  }

  /** The digits after "_copy" are all the trailing digits of the name. */
  lemma CopyNumbersAgree(s1: string, d1: string, s2: string, d2: string)
    requires (s1 + "_copy") + d1 == (s2 + "_copy") + d2
    requires AllDigits(d1) && AllDigits(d2)
    ensures d1 == d2 && s1 == s2
  {
    ConcatIndex(s1 + "_copy", d1);
    ConcatIndex(s2 + "_copy", d2);
    if |d1| < |d2| {
      assert false;
    } else if |d2| < |d1| {
      assert false;
    }
    var x := (s1 + "_copy") + d1;
    assert d1 == x[|x| - |d1|..] == d2;
    assert s1 == x[..|s1|] == s2;
  }

  /** A renamed selected image splits into stem, "_copy", digits and extension. */
  lemma RenamedParts(a: string, i: nat, multiply: int)
    requires multiply > 1 && IsImageName(a)
    ensures var (stem, ext) := SplitExt(a);
      SendName(a, i, multiply) == (stem + "_copy" + Decimal(i)) + ext && ExtensionShape(ext)
  {
    var (stem, ext) := SplitExt(a);
    ImageNameEndsInLetter(a);
    assert ext != [] ==> ext[|ext| - 1] == a[|a| - 1];
  }

  /**
    Different (file, copy) pairs get different upload names when the images
    are renamed: the extension, the copy number and the stem can each be
    read back from the name.
   */
  lemma SendNameInjective(a: string, i: nat, b: string, j: nat, multiply: int)
    requires multiply > 1 && IsImageName(a) && IsImageName(b)
    requires SendName(a, i, multiply) == SendName(b, j, multiply)
    ensures a == b && i == j
  {
    var (sa, ea) := SplitExt(a);
    var (sb, eb) := SplitExt(b);
    var da, db := Decimal(i), Decimal(j);
    RenamedParts(a, i, multiply);
    RenamedParts(b, j, multiply);
    var pa, pb := sa + "_copy" + da, sb + "_copy" + db;
    assert pa[|pa| - 1] == da[|da| - 1];
    assert pb[|pb| - 1] == db[|db| - 1];
    ExtensionsAgree(pa, ea, pb, eb);
    var r := SendName(a, i, multiply);
    assert pa == r[..|r| - |ea|] == pb;
    CopyNumbersAgree(sa, da, sb, db);
    DecimalInjective(i, j);
  }

  /** Distinct directory entries stay distinct after the filter, and all pass it. */
  lemma {:induction false} SelectImagesDistinct(listing: seq<string>, regular: set<string>)
    requires forall a, b :: 0 <= a < b < |listing| ==> listing[a] != listing[b]
    ensures var r := SelectImages(listing, regular);
      (forall a, b :: 0 <= a < b < |r| ==> r[a] != r[b]) && (forall x :: x in r ==> Selected(x, regular))
  {
    var r := SelectImages(listing, regular);
    forall x | x in r ensures Selected(x, regular) {
      assert multiset(r)[x] > 0;
    }
    if listing != [] {
      var init := listing[..|listing| - 1];
      var last := listing[|listing| - 1];
      SelectImagesDistinct(init, regular);
      var rest := SelectImages(init, regular);
      assert last !in init;
    }
  }

  /** Two positions with the same copy number and file are the same position. */
  lemma SamePosition(k1: nat, k2: nat, n: nat)
    requires n > 0 && k1 / n == k2 / n && k1 % n == k2 % n
    ensures k1 == k2
  {
    assert k1 == (k1 / n) * n + k1 % n;
    assert k2 == (k2 / n) * n + k2 % n;
  }

  /** Two positions of the list stand for different (copy, file) pairs. */
  lemma PositionsDiffer(n: nat, multiply: int, k1: nat, k2: nat)
    requires k1 < k2 < Copies(multiply) * n
    ensures k1 / n != k2 / n || k1 % n != k2 % n
    ensures multiply <= 1 ==> k1 / n == 0 && k2 / n == 0
  {
    if k1 / n == k2 / n && k1 % n == k2 % n {
      SamePosition(k1, k2, n);
    }
    if multiply <= 1 {
      assert Copies(multiply) * n <= n;
      DivModOfRound(0, n, k1);
      DivModOfRound(0, n, k2);
    }
  }

  /** Two different (copy, file) pairs carry different names. */
  lemma NamesDiffer(images: seq<string>, multiply: int, q1: nat, j1: nat, q2: nat, j2: nat)
    requires forall a, b :: 0 <= a < b < |images| ==> images[a] != images[b]
    requires forall x :: x in images ==> IsImageName(x)
    requires j1 < |images| && j2 < |images| && (q1 != q2 || j1 != j2)
    requires multiply <= 1 ==> q1 == q2
    ensures SendName(images[j1], q1, multiply) != SendName(images[j2], q2, multiply)
  {
    if multiply > 1 && SendName(images[j1], q1, multiply) == SendName(images[j2], q2, multiply) {
      SendNameInjective(images[j1], q1, images[j2], q2, multiply);
    }
  }

  /**
    The comment of the loop body: copies never collide. When every file
    name is distinct and passes the image filter, all upload names in the
    list are distinct, whatever `multiply` is.
   */
  lemma UploadNamesDistinct(dir: string, images: seq<string>, multiply: int)
    requires forall a, b :: 0 <= a < b < |images| ==> images[a] != images[b]
    requires forall x :: x in images ==> IsImageName(x)
    ensures var u := Uploads(dir, images, multiply, Copies(multiply));
      forall k1, k2 :: 0 <= k1 < k2 < |u| ==> u[k1].filename != u[k2].filename
  {
    var u := Uploads(dir, images, multiply, Copies(multiply));
    UploadsLength(dir, images, multiply, Copies(multiply));
    forall k1, k2 | 0 <= k1 < k2 < |u|
      ensures u[k1].filename != u[k2].filename
    {
      NamesDifferAt(dir, images, multiply, k1, k2);
    }
  }

  /** The parts at two different positions of the list carry different names. */
  lemma NamesDifferAt(dir: string, images: seq<string>, multiply: int, k1: nat, k2: nat)
    requires forall a, b :: 0 <= a < b < |images| ==> images[a] != images[b]
    requires forall x :: x in images ==> IsImageName(x)
    requires k1 < k2 < Copies(multiply) * |images|
    ensures var u := Uploads(dir, images, multiply, Copies(multiply));
      |u| == Copies(multiply) * |images| && u[k1].filename != u[k2].filename
  {
    var n := |images|;
    UploadsAt(dir, images, multiply, Copies(multiply), k1);
    UploadsAt(dir, images, multiply, Copies(multiply), k2);
    UploadsLength(dir, images, multiply, Copies(multiply));
    PositionsDiffer(n, multiply, k1, k2);
    DivModBounds(k1, n);
    DivModBounds(k2, n);
    NamesDiffer(images, multiply, k1 / n, k1 % n, k2 / n, k2 % n);
  }

  /**
    What the client posts never holds two parts with the same name, since
    a directory listing names each entry once.
   */
  lemma PostedNamesDistinct(dir: string, listing: seq<string>, regular: set<string>, multiply: int)
    requires forall a, b :: 0 <= a < b < |listing| ==> listing[a] != listing[b]
    ensures var u := Uploads(dir, SelectImages(listing, regular), multiply, Copies(multiply));
      forall k1, k2 :: 0 <= k1 < k2 < |u| ==> u[k1].filename != u[k2].filename
  {
    SelectImagesDistinct(listing, regular);
    UploadNamesDistinct(dir, SelectImages(listing, regular), multiply);
  }
}
