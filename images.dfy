/** The script's image-path helpers: the file-name pattern `^(.+?)(\d*)(\.[^.]+)$`,
    getMainImagePath, getImageVariants and the image a product card shows. */
module Images {
  import opened Seqs
  import opened Strings
  import opened Catalog

  /** The characters a regular-expression `.` does not match. */
  predicate IsLineTerminator(c: char) {
    c == '\n' || c == '\r' || c == '\U{2028}' || c == '\U{2029}'
  }

  predicate NoLineTerminator(s: string) {
    forall i :: 0 <= i < |s| ==> !IsLineTerminator(s[i])
  }

  /** `\.[^.]+`: a dot followed by at least one character that is not a dot. */
  predicate IsExtension(e: string) {
    |e| >= 2 && e[0] == '.' && '.' !in e[1..]
  }

  /** `name` is `b + d + e` with `b` matching `.+`, `d` matching `\d*` and `e` matching `\.[^.]+`. */
  ghost predicate IsSplitOf(name: string, b: string, d: string, e: string) {
    name == b + d + e && b != "" && NoLineTerminator(b) && AllDigits(d) && IsExtension(e)
  }

  /** The groups the pattern reports: the lazy `.+?` takes the shortest base that admits a match. */
  ghost predicate RegexGroups(name: string, b: string, d: string, e: string) {
    IsSplitOf(name, b, d, e) && forall b', d', e' :: IsSplitOf(name, b', d', e') ==> |b| <= |b'|
  }

  /** The three capture groups of a successful match. */
  datatype FileParts = FileParts(base: string, digits: string, ext: string)

  /** Where the run of decimal digits that ends `s` begins. */
  function DigitRunStart(s: string): (j: nat)
    ensures j <= |s| && AllDigits(s[j..])
    ensures j > 0 ==> !IsDigit(s[j - 1])
  {
    if s == [] || !IsDigit(s[|s| - 1]) then |s|
    else
      var j := DigitRunStart(s[..|s| - 1]);
      assert s[j..] == s[..|s| - 1][j..] + [s[|s| - 1]];
      j
  }

  lemma DigitRunStartLeast(s: string, i: nat)
    requires i <= |s| && AllDigits(s[i..])
    ensures DigitRunStart(s) <= i
  {
  }

  /** The extension of any split starts at the last dot of the name. */
  lemma ExtensionAtLastDot(name: string, b: string, d: string, e: string)
    requires IsSplitOf(name, b, d, e)
    ensures LastIndex(name, '.') == |b| + |d|
  {
    var n := |b| + |d|;
    assert name[n] == e[0];
    forall i | n < i < |name| ensures name[i] != '.' {
      assert name[i] == e[1..][i - n - 1];
    }
  }

  /** `filename.match(/^(.+?)(\d*)(\.[^.]+)$/)`. */
  function MatchFileName(name: string): (r: Option<FileParts>)
    ensures r.Some? ==> RegexGroups(name, r.value.base, r.value.digits, r.value.ext)
    ensures r.None? ==> forall b, d, e :: !IsSplitOf(name, b, d, e)
  {
    var l := LastIndex(name, '.');
    if l < 1 || l == |name| - 1 then
      NoSplitWithoutExtension(name);
      None
    else
      var j := DigitRunStart(name[..l]);
      var k := if j == 0 then 1 else j;
      if !NoLineTerminator(name[..k]) then
        NoSplitWithLineTerminator(name, l, k);
        None
      else
        MatchIsLeast(name, l, k);
        Some(FileParts(name[..k], name[k..l], name[l..]))
  }

  lemma NoSplitWithoutExtension(name: string)
    requires LastIndex(name, '.') < 1 || LastIndex(name, '.') == |name| - 1
    ensures forall b, d, e :: !IsSplitOf(name, b, d, e)
  {
    forall b, d, e | IsSplitOf(name, b, d, e) ensures false {
      ExtensionAtLastDot(name, b, d, e);
    }
  }

  /** Every split's base is at least as long as `k`, the start of the stem's final digit run
      (or 1 when the whole stem is digits). */
  lemma SplitBaseAtLeast(name: string, l: int, k: nat, b: string, d: string, e: string)
    requires 1 <= l < |name| - 1 && LastIndex(name, '.') == l
    requires k == var j := DigitRunStart(name[..l]); if j == 0 then 1 else j
    requires IsSplitOf(name, b, d, e)
    ensures k <= |b|
  {
    ExtensionAtLastDot(name, b, d, e);
    var stem := name[..l];
    assert stem[|b|..] == d;
    DigitRunStartLeast(stem, |b|);
  }

  lemma NoSplitWithLineTerminator(name: string, l: int, k: nat)
    requires 1 <= l < |name| - 1 && LastIndex(name, '.') == l
    requires k == var j := DigitRunStart(name[..l]); if j == 0 then 1 else j
    requires !NoLineTerminator(name[..k])
    ensures forall b, d, e :: !IsSplitOf(name, b, d, e)
  {
    forall b, d, e | IsSplitOf(name, b, d, e) ensures false {
      SplitBaseClean(name, l, k, b, d, e);
    }
  }

  /** The first `k` characters of a split name lie in its base, which has no line terminator. */
  lemma SplitBaseClean(name: string, l: int, k: nat, b: string, d: string, e: string)
    requires 1 <= l < |name| - 1 && LastIndex(name, '.') == l
    requires k == var j := DigitRunStart(name[..l]); if j == 0 then 1 else j
    requires IsSplitOf(name, b, d, e)
    ensures NoLineTerminator(name[..k])
  {
    SplitBaseAtLeast(name, l, k, b, d, e);
    forall i | 0 <= i < k ensures !IsLineTerminator(name[..k][i]) {
      assert name[..k][i] == b[i];
    }
  }

  lemma AllDigitsSuffix(s: string, j: nat, k: nat)
    requires j <= k <= |s| && AllDigits(s[j..])
    ensures AllDigits(s[k..])
  {
    forall i | 0 <= i < |s| - k ensures IsDigit(s[k..][i]) {
      assert s[k..][i] == s[j..][i + k - j];
    }
  }

  lemma ExtensionFromLastDot(name: string, l: int)
    requires 0 <= l < |name| - 1 && LastIndex(name, '.') == l
    ensures IsExtension(name[l..])
  {
    var e := name[l..];
    forall i | 0 <= i < |e| - 1 ensures e[1..][i] != '.' {
      assert e[1..][i] == name[l + 1 + i];
    }
  }

  lemma MatchIsSplit(name: string, l: int, k: nat)
    requires 1 <= l < |name| - 1 && LastIndex(name, '.') == l
    requires 1 <= k <= l && AllDigits(name[..l][k..])
    requires NoLineTerminator(name[..k])
    ensures IsSplitOf(name, name[..k], name[k..l], name[l..])
  {
    assert name[..l][k..] == name[k..l];
    ExtensionFromLastDot(name, l);
    assert name == name[..k] + name[k..l] + name[l..];
  }

  lemma MatchIsLeast(name: string, l: int, k: nat)
    requires 1 <= l < |name| - 1 && LastIndex(name, '.') == l
    requires k == var j := DigitRunStart(name[..l]); if j == 0 then 1 else j
    requires NoLineTerminator(name[..k])
    ensures k <= l
    ensures RegexGroups(name, name[..k], name[k..l], name[l..])
  {
    var stem := name[..l];
    AllDigitsSuffix(stem, DigitRunStart(stem), k);
    MatchIsSplit(name, l, k);
    forall b, d, e | IsSplitOf(name, b, d, e) ensures k <= |b| {
      SplitBaseAtLeast(name, l, k, b, d, e);
    }
  }

  /** The groups are unique: whatever split the pattern reports, its base and extension are these. */
  lemma RegexGroupsUnique(name: string, b: string, d: string, e: string, b': string, d': string, e': string)
    requires RegexGroups(name, b, d, e) && RegexGroups(name, b', d', e')
    ensures b == b' && d == d' && e == e'
  {
    ExtensionAtLastDot(name, b, d, e);
    ExtensionAtLastDot(name, b', d', e');
    assert b == name[..|b|] && b' == name[..|b'|];
    assert e == name[|b| + |d|..] && e' == name[|b'| + |d'|..];
    assert d == name[|b|..|b| + |d|] && d' == name[|b'|..|b'| + |d'|];
  }

  /** A base the pattern reports ends in a non-digit, or is a single character. */
  lemma MatchedBaseShape(name: string)
    requires MatchFileName(name).Some?
    ensures var b := MatchFileName(name).value.base; |b| == 1 || !IsDigit(b[|b| - 1])
  {
    var l := LastIndex(name, '.');
    var j := DigitRunStart(name[..l]);
    if j > 0 {
      assert name[..j][j - 1] == name[..l][j - 1];
    }
  }

  /** A name built from a base of that shape, digits and an extension matches with that base. */
  lemma MatchOfParts(b: string, d: string, e: string)
    requires b != "" && NoLineTerminator(b) && (|b| == 1 || !IsDigit(b[|b| - 1]))
    requires AllDigits(d) && IsExtension(e)
    ensures MatchFileName(b + d + e).Some?
    ensures MatchFileName(b + d + e).value.base == b
    ensures MatchFileName(b + d + e).value.ext == e
  {
    var name := b + d + e;
    assert IsSplitOf(name, b, d, e);
    var p := MatchFileName(name).value;
    var stem := name[..|b| + |d|];
    ExtensionAtLastDot(name, b, d, e);
    ExtensionAtLastDot(name, p.base, p.digits, p.ext);
    if |b| > 1 {
      var j := DigitRunStart(stem);
      assert stem[|b| - 1] == b[|b| - 1];
      assert stem[|b|..] == d;
      DigitRunStartLeast(stem, |b|);
    }
    assert p.base == name[..|p.base|];
    assert p.ext == name[|p.base| + |p.digits|..];
  }

  /** The last segment of a '/'-separated path. */
  function FileNameOf(path: string): string {
    path[LastIndex(path, '/') + 1..]
  }

  /** Everything before the last '/', or nothing when there is none. */
  function DirectoryOf(path: string): string {
    var i := LastIndex(path, '/');
    if i >= 0 then path[..i] else ""
  }

  /** `parts[parts.length - 1]` and `parts.slice(0, parts.length - 1).join('/')` for
      `parts = path.split('/')`. */
  lemma PathParts(path: string)
    ensures var parts := Split(path, '/');
      && parts[|parts| - 1] == FileNameOf(path)
      && Join(parts[..|parts| - 1], '/') == DirectoryOf(path)
  {
    if LastIndex(path, '/') < 0 {
      PathPartsWithoutSlash(path);
    } else {
      PathPartsAtSlash(path);
    }
  }

  /** A path without '/' is one piece: its own file name, in no directory. */
  lemma PathPartsWithoutSlash(path: string)
    requires LastIndex(path, '/') < 0
    ensures var parts := Split(path, '/');
      && parts[|parts| - 1] == FileNameOf(path)
      && Join(parts[..|parts| - 1], '/') == DirectoryOf(path)
  {
    assert '/' !in path;
    SplitWithout(path, '/');
  }

  lemma PathPartsAtSlash(path: string)
    requires LastIndex(path, '/') >= 0
    ensures var parts := Split(path, '/');
      && parts[|parts| - 1] == FileNameOf(path)
      && Join(parts[..|parts| - 1], '/') == DirectoryOf(path)
  {
    var dir, name := PathAtLastSlash(path);
    DirAndName(dir, name);
  }

  /** A path with a '/' is its directory, the last '/' and its file name. */
  lemma PathAtLastSlash(path: string) returns (dir: string, name: string)
    requires LastIndex(path, '/') >= 0
    ensures dir == DirectoryOf(path) && name == FileNameOf(path)
    ensures path == dir + ['/'] + name && '/' !in name
  {
    var i := LastIndex(path, '/');
    dir, name := path[..i], path[i + 1..];
    assert path[i..] == [path[i]] + name;
    assert path == dir + path[i..];
    NoSlashInFileName(path);
  }

  /** Splitting `dir/name`, where `name` has no '/', gives the pieces of `dir` and then `name`. */
  lemma DirAndName(dir: string, name: string)
    requires '/' !in name
    ensures var parts := Split(dir + ['/'] + name, '/');
      && parts[|parts| - 1] == name
      && Join(parts[..|parts| - 1], '/') == dir
  {
    SplitAt(dir, name, '/');
    SplitWithout(name, '/');
    JoinSplit(dir, '/');
    LastAndInit(Split(dir, '/'), name);
  }

  lemma LastAndInit(pieces: seq<string>, x: string)
    ensures var s := pieces + [x]; s[|s| - 1] == x && s[..|s| - 1] == pieces
  {
    var s := pieces + [x];
    assert s[..|s| - 1] == pieces;
  }

  /** getMainImagePath: `dir/name<digits>.ext` becomes `dir/name_main.ext`; an empty path or a
      file name the pattern rejects is returned unchanged. */
  function GetMainImagePath(path: string): (r: string)
    ensures path == "" ==> r == path
    ensures path != "" && (forall b, d, e :: !IsSplitOf(FileNameOf(path), b, d, e)) ==> r == path
    ensures forall b, d, e :: path != "" && RegexGroups(FileNameOf(path), b, d, e) ==>
      r == DirectoryOf(path) + "/" + b + "_main" + e
  {
    if path == "" then path
    else
      var parts := Split(path, '/');
      var filename := parts[|parts| - 1];
      var directory := Join(parts[..|parts| - 1], '/');
      PathParts(path);
      match MatchFileName(filename)
      case None => path
      case Some(m) =>
        forall b, d, e | RegexGroups(filename, b, d, e) ensures b == m.base && e == m.ext {
          RegexGroupsUnique(filename, b, d, e, m.base, m.digits, m.ext);
        }
        directory + "/" + m.base + "_main" + m.ext
  }

  /** The number a variant carries: none for 0, else its decimal digits. */
  function VariantDigits(i: nat): (ds: string)
    ensures AllDigits(ds)
  {
    if i == 0 then "" else NatToString(i)
  }

  /** One path of the legacy variant list: `dir/base.ext` for 0, `dir/base<i>.ext` for i > 0. */
  function Variant(dir: string, base: string, ext: string, i: nat): string {
    dir + "/" + base + VariantDigits(i) + ext
  }

  /** What getImageVariants is given: an array of paths or a single (legacy) path, where the
      empty string stands for every falsy argument. */
  datatype ImageInput = ImageList(paths: seq<string>) | ImagePath(path: string)

  /** The filter of the array branch: entries that are not `_main` images. */
  predicate IsGalleryImage(img: string) {
    !Contains(img, "_main")
  }

  /** getImageVariants. An array loses its `_main` entries and keeps its order; a falsy path gives
      nothing; a path whose file name the pattern rejects gives itself; any other path gives
      `dir/base.ext` followed by `dir/base1.ext` through `dir/base10.ext`. */
  method GetImageVariants(images: ImageInput) returns (variants: seq<string>)
    ensures images.ImageList? ==> variants == Filter(images.paths, IsGalleryImage)
    ensures images.ImageList? ==> forall x :: x in variants <==> x in images.paths && !Contains(x, "_main")
    ensures images.ImagePath? && images.path == "" ==> variants == []
    ensures images.ImagePath? && images.path != "" ==>
      (forall b, d, e :: !IsSplitOf(FileNameOf(images.path), b, d, e)) ==> variants == [images.path]
    ensures images.ImagePath? && images.path != "" ==>
      forall b, d, e :: RegexGroups(FileNameOf(images.path), b, d, e) ==>
        |variants| == 11 && forall i :: 0 <= i < 11 ==> variants[i] == Variant(DirectoryOf(images.path), b, e, i)
  {
    if images.ImageList? {
      return Filter(images.paths, IsGalleryImage);
    }
    var path := images.path;
    if path == "" {
      return [];
    }
    var parts := Split(path, '/');
    var filename := parts[|parts| - 1];
    var directory := Join(parts[..|parts| - 1], '/');
    PathParts(path);
    var baseMatch := MatchFileName(filename);
    if baseMatch.None? {
      return [path];
    }
    var baseName, extension := baseMatch.value.base, baseMatch.value.ext;
    forall b, d, e | RegexGroups(filename, b, d, e) ensures b == baseName && e == extension {
      RegexGroupsUnique(filename, b, d, e, baseName, baseMatch.value.digits, extension);
    }
    variants := NumberedVariants(directory, baseName, extension);
  }

  /** The loop of getImageVariants: the unnumbered name, then the names numbered 1 to 10. */
  method NumberedVariants(directory: string, baseName: string, extension: string) returns (variants: seq<string>)
    ensures |variants| == 11
    ensures forall i :: 0 <= i < 11 ==> variants[i] == Variant(directory, baseName, extension, i)
  {
    variants := [directory + "/" + baseName + extension];
    var i := 1;
    while i <= 10
      invariant 1 <= i <= 11
      invariant |variants| == i
      invariant forall k :: 0 <= k < i ==> variants[k] == Variant(directory, baseName, extension, k)
    {
      variants := variants + [directory + "/" + baseName + NatToString(i) + extension];
      i := i + 1;
    }
  }

  lemma NoSlashInFileName(path: string)
    ensures '/' !in FileNameOf(path)
  {
    var i := LastIndex(path, '/');
    forall k | 0 <= k < |FileNameOf(path)| ensures FileNameOf(path)[k] != '/' {
      assert FileNameOf(path)[k] == path[i + 1 + k];
    }
  }

  /** Splitting `dir + "/" + name` where `name` has no '/' gives back `dir` and `name`. */
  lemma PathOfParts(dir: string, name: string)
    requires '/' !in name
    ensures FileNameOf(dir + "/" + name) == name
    ensures DirectoryOf(dir + "/" + name) == dir
  {
    var p := dir + "/" + name;
    assert p[|dir|] == '/';
    forall k | |dir| < k < |p| ensures p[k] != '/' {
      assert p[k] == name[k - |dir| - 1];
    }
    assert LastIndex(p, '/') == |dir|;
  }

  lemma MainImageOfMatch(path: string)
    requires path != "" && MatchFileName(FileNameOf(path)).Some?
    ensures var m := MatchFileName(FileNameOf(path)).value;
      GetMainImagePath(path) == DirectoryOf(path) + "/" + m.base + "_main" + m.ext
  {
  }

  lemma NoSlashInVariantName(name: string, m: FileParts, ds: string)
    requires '/' !in name && name == m.base + m.digits + m.ext && AllDigits(ds)
    ensures '/' !in m.base + ds + m.ext
  {
    var v := m.base + ds + m.ext;
    forall k | 0 <= k < |v| ensures v[k] != '/' {
      if k < |m.base| {
        assert v[k] == name[k];
      } else if k < |m.base| + |ds| {
        assert v[k] == ds[k - |m.base|];
      } else {
        assert v[k] == name[k - |ds| + |m.digits|];
      }
    }
  }

  /** Every path the legacy branch synthesises leads back to the main image of the path it came
      from, so all variants of one product share one `_main` image. */
  lemma VariantsShareMainImage(path: string, i: nat)
    requires path != "" && MatchFileName(FileNameOf(path)).Some?
    ensures var m := MatchFileName(FileNameOf(path)).value;
      GetMainImagePath(Variant(DirectoryOf(path), m.base, m.ext, i)) == GetMainImagePath(path)
  {
    var m := MatchFileName(FileNameOf(path)).value;
    var v := Variant(DirectoryOf(path), m.base, m.ext, i);
    VariantParts(path, i);
    MainImageOfMatch(v);
    MainImageOfMatch(path);
  }

  /** A variant lies in the same directory, and the pattern finds in its file name the base and
      extension of the original. */
  lemma VariantParts(path: string, i: nat)
    requires path != "" && MatchFileName(FileNameOf(path)).Some?
    ensures var m := MatchFileName(FileNameOf(path)).value;
      var v := Variant(DirectoryOf(path), m.base, m.ext, i);
      && DirectoryOf(v) == DirectoryOf(path)
      && MatchFileName(FileNameOf(v)).Some?
      && MatchFileName(FileNameOf(v)).value.base == m.base
      && MatchFileName(FileNameOf(v)).value.ext == m.ext
  {
    var name := FileNameOf(path);
    var m := MatchFileName(name).value;
    NoSlashInFileName(path);
    VariantNameMatches(name, i);
    NoSlashInVariantName(name, m, VariantDigits(i));
    VariantPath(DirectoryOf(path), m.base, m.ext, i);
  }

  lemma VariantPath(dir: string, base: string, ext: string, i: nat)
    requires '/' !in base + VariantDigits(i) + ext
    ensures FileNameOf(Variant(dir, base, ext, i)) == base + VariantDigits(i) + ext
    ensures DirectoryOf(Variant(dir, base, ext, i)) == dir
  {
    var vname := base + VariantDigits(i) + ext;
    assert Variant(dir, base, ext, i) == dir + "/" + vname;
    PathOfParts(dir, vname);
  }

  /** The pattern finds in a variant's file name the base and extension of the original. */
  lemma VariantNameMatches(name: string, i: nat)
    requires MatchFileName(name).Some?
    ensures var m := MatchFileName(name).value;
      var vname := m.base + VariantDigits(i) + m.ext;
      && MatchFileName(vname).Some?
      && MatchFileName(vname).value.base == m.base
      && MatchFileName(vname).value.ext == m.ext
  {
    var m := MatchFileName(name).value;
    MatchedBaseShape(name);
    assert IsSplitOf(name, m.base, m.digits, m.ext);
    MatchOfParts(m.base, VariantDigits(i), m.ext);
  }

  /** The card's image (the product grid and the related-products strip): the first `images`
      entry containing `_main`, else the first entry, else the single `image` field. */
  function CardImage(p: Product): (r: string)
    ensures |p.images| > 0 && (exists i :: 0 <= i < |p.images| && Contains(p.images[i], "_main")) ==>
      exists i :: 0 <= i < |p.images| && r == p.images[i] && Contains(r, "_main")
        && forall j :: 0 <= j < i ==> !Contains(p.images[j], "_main")
    ensures |p.images| > 0 && (forall i :: 0 <= i < |p.images| ==> !Contains(p.images[i], "_main")) ==>
      r == p.images[0]
    ensures |p.images| == 0 ==> r == p.image
  {
    if |p.images| > 0 then
      match FindIndex(p.images, (img: string) => Contains(img, "_main"))
      case Some(i) => p.images[i]
      case None => p.images[0]
    else p.image
  }

  /** The card shows one of the product's own pictures, or nothing when it has none. */
  lemma CardImageIsOwn(p: Product)
    ensures CardImage(p) in p.images || CardImage(p) == p.image
  {
  }
}
