/** The spreadsheet converter: every worksheet row below the header row becomes a product
    record keyed by the fields its headers name, image names become paths under the product
    image folder, a product without images gets its category's picture, and the categories met
    on the way become the sorted category list of products.json. */
module Converter {
  import opened Seqs
  import opened Strings
  import opened Sorting
  import opened Catalog
  import opened Images

  /** A cell value as the workbook reader returns it with cached formula results; an empty cell
      is None in the sequences below. */
  datatype Cell = Text(s: string) | Int(n: int) | Bool(b: bool)

  /** Python's `str(v)`. */
  function CellText(c: Cell): string {
    match c
    case Text(s) => s
    case Int(n) => IntToString(n)
    case Bool(b) => if b then "True" else "False"
  }

  /** Python truthiness. */
  predicate CellTruthy(c: Cell) {
    match c
    case Text(s) => s != ""
    case Int(n) => n != 0
    case Bool(b) => b
  }

  // ---------------------------------------------------------------------------------------
  // Header classification

  /** The product fields a header can name. */
  datatype Field = IdField | CodeField | NameField | CategoryField | DescriptionField
                 | DetailsField | FeaturesField | ImagesField

  /** The position of a field's test in the converter's if/elif chain. */
  function Rank(f: Field): nat {
    match f
    case IdField => 0
    case CodeField => 1
    case NameField => 2
    case CategoryField => 3
    case DescriptionField => 4
    case DetailsField => 5
    case FeaturesField => 6
    case ImagesField => 7
  }

  /** The substrings each test looks for in the lower-cased, stripped header. */
  function Keywords(f: Field): seq<string> {
    match f
    case IdField => ["id"]
    case CodeField => ["code", "c\U{C3}\U{B3}digo"]
    case NameField => ["name", "nombre", "producto"]
    case CategoryField => ["category", "categor\U{C3}\U{AD}a"]
    case DescriptionField => ["description", "descripci\U{C3}\U{B3}n"]
    case DetailsField => ["details", "detalles"]
    case FeaturesField => ["features", "caracter\U{C3}\U{AD}sticas", "especificaciones"]
    case ImagesField => ["image", "imagen", "im\U{C3}\U{A1}genes"]
  }

  /** The header passes the test of field `f`. */
  predicate Names(header: string, f: Field) {
    exists i :: 0 <= i < |Keywords(f)| && Contains(header, Keywords(f)[i])
  }

  /** The field a header maps to: the first test in the chain that it passes, if any. */
  function Classify(header: string): (r: Option<Field>)
    ensures r.Some? ==> Names(header, r.value)
    ensures r.Some? ==> forall g :: Rank(g) < Rank(r.value) ==> !Names(header, g)
    ensures r.None? ==> forall g :: !Names(header, g)
  {
    if Names(header, IdField) then Some(IdField)
    else if Names(header, CodeField) then Some(CodeField)
    else if Names(header, NameField) then Some(NameField)
    else if Names(header, CategoryField) then Some(CategoryField)
    else if Names(header, DescriptionField) then Some(DescriptionField)
    else if Names(header, DetailsField) then Some(DetailsField)
    else if Names(header, FeaturesField) then Some(FeaturesField)
    else if Names(header, ImagesField) then Some(ImagesField)
    else None
  }

  /** The id test comes first and looks for two letters only, so headers such as "video" or
      "width" fill the id field. */
  lemma HeadersWithIdInside()
    ensures Classify("video") == Some(IdField)
    ensures Classify("width") == Some(IdField)
  {
    assert Keywords(IdField)[0] == "id";
    assert OccursAt("video", "id", 1);
    assert Contains("video", Keywords(IdField)[0]);
    assert OccursAt("width", "id", 1);
    assert Contains("width", Keywords(IdField)[0]);
  }

  // ---------------------------------------------------------------------------------------
  // Lists in a cell

  /** `[x.strip() for x in parts]`. */
  function StripAll(parts: seq<string>): (r: seq<string>)
    ensures |r| == |parts|
    ensures forall i :: 0 <= i < |parts| ==> r[i] == PyStrip(parts[i])
  {
    if parts == [] then [] else [PyStrip(parts[0])] + StripAll(parts[1..])
  }

  predicate NonEmptyText(s: string) {
    s != ""
  }

  /** The stripped, non-empty pieces of `s` split at `sep`, in order. */
  function SplitEntries(s: string, sep: char): (r: seq<string>)
    ensures forall x :: x in r ==> x != "" && PyStrip(x) == x && sep !in x
    ensures forall i :: 0 <= i < |Split(s, sep)| && PyStrip(Split(s, sep)[i]) != "" ==> PyStrip(Split(s, sep)[i]) in r
  {
    var stripped := StripAll(Split(s, sep));
    forall i | 0 <= i < |stripped| ensures PyStrip(stripped[i]) == stripped[i] && sep !in stripped[i] {
      TrimIdempotent(Split(s, sep)[i], IsPySpace);
      TrimChars(Split(s, sep)[i], IsPySpace);
    }
    Filter(stripped, NonEmptyText)
  }

  /** The separator of a details or features cell: ';' when present, else ',', else newline. */
  function ListSeparator(s: string): char {
    if ';' in s then ';' else if ',' in s then ',' else '\n'
  }

  /** The separator of an images cell: ';' when present, else ',' (no newline fallback). */
  function ImageSeparator(s: string): char {
    if ';' in s then ';' else ','
  }

  function SplitList(s: string): seq<string> {
    SplitEntries(s, ListSeparator(s))
  }

  function SplitImages(s: string): seq<string> {
    SplitEntries(s, ImageSeparator(s))
  }

  lemma StripAllClean(parts: seq<string>)
    requires forall i :: 0 <= i < |parts| ==> PyStrip(parts[i]) == parts[i]
    ensures StripAll(parts) == parts
  {
  }

  lemma JoinHasSeparator(parts: seq<string>, c: char)
    requires |parts| >= 2
    ensures c in Join(parts, c)
  {
    assert Join(parts, c) == parts[0] + [c] + Join(parts[1..], c);
    assert Join(parts, c)[|parts[0]|] == c;
  }

  /** Entries written with ';' between them come back one for one from a details, features or
      images cell when each is stripped, non-empty and free of ';'. */
  lemma SemicolonListRoundTrip(entries: seq<string>)
    requires |entries| >= 2
    requires forall i :: 0 <= i < |entries| ==> entries[i] != "" && PyStrip(entries[i]) == entries[i] && ';' !in entries[i]
    ensures SplitList(Join(entries, ';')) == entries
    ensures SplitImages(Join(entries, ';')) == entries
  {
    var s := Join(entries, ';');
    JoinHasSeparator(entries, ';');
    SplitJoin(entries, ';');
    StripAllClean(entries);
    FilterAll(entries, NonEmptyText);
  }

  /** Without any ';', entries written with ',' between them come back one for one. */
  lemma CommaListRoundTrip(entries: seq<string>)
    requires |entries| >= 2
    requires forall i :: 0 <= i < |entries| ==>
      entries[i] != "" && PyStrip(entries[i]) == entries[i] && ';' !in entries[i] && ',' !in entries[i]
    ensures SplitList(Join(entries, ',')) == entries
    ensures SplitImages(Join(entries, ',')) == entries
  {
    var s := Join(entries, ',');
    JoinChars(entries, ',');
    JoinHasSeparator(entries, ',');
    SplitJoin(entries, ',');
    StripAllClean(entries);
    FilterAll(entries, NonEmptyText);
  }

  /** With neither ';' nor ',' in it, a details or features cell splits at newlines: clean
      entries written one per line come back one for one. */
  lemma NewlineListRoundTrip(entries: seq<string>)
    requires |entries| >= 1
    requires forall i :: 0 <= i < |entries| ==>
      entries[i] != "" && PyStrip(entries[i]) == entries[i] && ';' !in entries[i] && ',' !in entries[i] && '\n' !in entries[i]
    ensures SplitList(Join(entries, '\n')) == entries
  {
    var s := Join(entries, '\n');
    assert ';' !in s by { JoinLacks(entries, '\n', ';'); }
    assert ',' !in s by { JoinLacks(entries, '\n', ','); }
    assert Filter(StripAll(Split(s, '\n')), NonEmptyText) == entries by { CleanEntriesRoundTrip(entries, '\n'); }
    NewlineSplitList(s);
  }

  lemma NewlineSplitList(s: string)
    requires ';' !in s && ',' !in s
    ensures SplitList(s) == Filter(StripAll(Split(s, '\n')), NonEmptyText)
  {
  }

  /** Clean entries joined with `c` split, strip and filter back to themselves. */
  lemma CleanEntriesRoundTrip(entries: seq<string>, c: char)
    requires |entries| >= 1
    requires forall i :: 0 <= i < |entries| ==> entries[i] != "" && PyStrip(entries[i]) == entries[i] && c !in entries[i]
    ensures Filter(StripAll(Split(Join(entries, c), c)), NonEmptyText) == entries
  {
    SplitJoin(entries, c);
    StripAllClean(entries);
    FilterAll(entries, NonEmptyText);
  }

  /** An images cell has no newline fallback: with neither ';' nor ',' in it, the whole cell is
      one entry, stripped, or no entry when it is blank. */
  lemma SingleImageCell(s: string)
    requires ';' !in s && ',' !in s
    ensures SplitImages(s) == if PyStrip(s) == "" then [] else [PyStrip(s)]
  {
    SplitWithout(s, ',');
  }

  lemma {:induction false} JoinChars(parts: seq<string>, c: char)
    ensures forall x :: x in Join(parts, c) ==> x == c || exists i :: 0 <= i < |parts| && x in parts[i]
  {
    if |parts| >= 2 {
      JoinChars(parts[1..], c);
      forall x | x in Join(parts, c) ensures x == c || exists i :: 0 <= i < |parts| && x in parts[i] {
        if x in Join(parts[1..], c) && x != c {
          var i :| 0 <= i < |parts[1..]| && x in parts[1..][i];
          assert x in parts[i + 1];
        } else if x != c {
          assert x in parts[0];
        }
      }
    }
  }

  // ---------------------------------------------------------------------------------------
  // Categories

  /** The lookup table of category spellings. */
  const CategoryMap: map<string, string> := map[
    "c\U{C3}\U{A1}maras y fotograf\U{C3}\U{AD}a" := "camera",
    "camera" := "camera",
    "productos de belleza" := "beauty",
    "beauty" := "beauty",
    "audio y sonido" := "audio",
    "audio" := "audio",
    "hogar y cocina" := "home",
    "hogar" := "home",
    "home" := "home",
    "computaci\U{C3}\U{B3}n y gamer" := "computing",
    "computing" := "computing",
    "imagen y tv" := "image",
    "image" := "image",
    "electr\U{C3}\U{B3}nica y accesorios" := "electronics",
    "electr\U{C3}\U{B3}nica" := "electronics",
    "electronics" := "electronics",
    "celulares y tablets" := "mobile",
    "mobile" := "mobile"
  ]

  const CategoryImageDir := "assets/images/categories/"

  /** The default picture of each category (the mobile one is named cat-cell). */
  const CategoryImages: map<string, string> := map[
    "audio" := CategoryImageDir + "cat-audio.png",
    "beauty" := CategoryImageDir + "cat-beauty.png",
    "camera" := CategoryImageDir + "cat-camera.png",
    "computing" := CategoryImageDir + "cat-computing.png",
    "electronics" := CategoryImageDir + "cat-electronics.png",
    "home" := CategoryImageDir + "cat-home.png",
    "image" := CategoryImageDir + "cat-image.png",
    "mobile" := CategoryImageDir + "cat-cell.png"
  ]

  /** The display names of the category list. */
  const CategoryNames: map<string, string> := map[
    "camera" := "C\U{C3}\U{A1}maras & Fotograf\U{C3}\U{AD}a",
    "beauty" := "Productos de Belleza",
    "audio" := "Audio & Sonido",
    "home" := "Hogar & Cocina",
    "computing" := "Computaci\U{C3}\U{B3}n & Gamer",
    "image" := "Imagen & TV",
    "electronics" := "Electr\U{C3}\U{B3}nica & Accesorios",
    "mobile" := "Celulares & Tablets"
  ]

  /** The fallback for a spelling the table lacks: spaces become hyphens, then each listed
      accented sequence becomes its plain vowel. */
  function CategorySlug(c: string): (r: string)
    ensures ' ' !in r
  {
    var s := ReplaceAll(c, " ", "-");
    var s := ReplaceAll(s, "\U{C3}\U{A1}", "a");
    var s := ReplaceAll(s, "\U{C3}\U{A9}", "e");
    var s := ReplaceAll(s, "\U{C3}\U{AD}", "i");
    var s := ReplaceAll(s, "\U{C3}\U{B3}", "o");
    ReplaceAll(s, "\U{C3}\U{BA}", "u")
  }

  /** The category id of a lower-cased, stripped category cell. Table spellings map to one of
      the eight ids that have a picture and a display name; any other spelling becomes a slug
      without spaces. */
  function NormalizeCategory(c: string): (r: string)
    ensures c in CategoryMap ==> r == CategoryMap[c] && r in CategoryImages && r in CategoryNames
    ensures c !in CategoryMap ==> r == CategorySlug(c) && ' ' !in r
  {
    if c in CategoryMap then CategoryMap[c] else CategorySlug(c)
  }

  lemma NotContainedWithoutFirst(s: string, t: string)
    requires t != [] && t[0] !in s
    ensures !Contains(s, t)
  {
  }

  /** Python's lower() turns U+00C3 into U+00E3, so a lowered cell never holds it. For such a
      spelling the table keys written with it never match and the accent replacements change
      nothing: a spelling outside the table keeps every character except that spaces become
      hyphens. */
  lemma LoweredCategorySlug(c: string)
    requires '\U{C3}' !in c
    ensures c !in CategoryMap ==>
      && |NormalizeCategory(c)| == |c|
      && forall i :: 0 <= i < |c| ==> NormalizeCategory(c)[i] == if c[i] == ' ' then '-' else c[i]
  {
    var s := ReplaceAll(c, " ", "-");
    ReplaceChar(c, ' ', '-');
    assert '\U{C3}' !in s;
    NotContainedWithoutFirst(s, "\U{C3}\U{A1}");
    NotContainedWithoutFirst(s, "\U{C3}\U{A9}");
    NotContainedWithoutFirst(s, "\U{C3}\U{AD}");
    NotContainedWithoutFirst(s, "\U{C3}\U{B3}");
    NotContainedWithoutFirst(s, "\U{C3}\U{BA}");
  }

  /** The picture of a product with no image: its category's, or the electronics picture for a
      category without one. */
  function DefaultImage(category: string): (r: string)
    ensures r in CategoryImages.Values
    ensures category in CategoryImages ==> r == CategoryImages[category]
    ensures category !in CategoryImages ==> r == CategoryImages["electronics"]
  {
    if category in CategoryImages then CategoryImages[category]
    else
      assert CategoryImages["electronics"] in CategoryImages.Values;
      CategoryImageDir + "cat-electronics.png"
  }

  // ---------------------------------------------------------------------------------------
  // Image paths

  const ProductImageBase := "assets/images/products/"

  /** A path the converter leaves where it is: under assets/ or absolute. */
  predicate IsRooted(p: string) {
    StartsWith(p, "assets/") || StartsWith(p, "/")
  }

  /** `img.strip().rstrip(';').strip()`. */
  function CleanImage(img: string): (r: string)
    ensures r != [] ==> !IsPySpace(r[0]) && !IsPySpace(r[|r| - 1])
    ensures forall x :: x in r ==> x in img
  {
    var t := RStripChar(PyStrip(img), ';');
    CleanImageChars(img, t);
    StrippedEnds(t);
    PyStrip(t)
  }

  /** A stripped string has no space at either end. */
  lemma StrippedEnds(t: string)
    ensures var r := PyStrip(t); r != [] ==> !IsPySpace(r[0]) && !IsPySpace(r[|r| - 1])
  {
    TrimEnds(t, IsPySpace);
  }

  /** Stripping, then cutting trailing ';', then stripping again keeps only characters of the entry. */
  lemma CleanImageChars(img: string, t: string)
    requires t <= PyStrip(img)
    ensures forall x :: x in PyStrip(t) ==> x in img
  {
    TrimChars(img, IsPySpace);
    TrimChars(t, IsPySpace);
    PrefixChars(t, PyStrip(img));
  }

  lemma {:induction false} LastIndexAppend(p: string, x: string, c: char)
    requires c !in x
    ensures LastIndex(p + x, c) == LastIndex(p, c)
  {
    if x != [] {
      assert (p + x)[..|p + x| - 1] == p + x[..|x| - 1];
      LastIndexAppend(p, x[..|x| - 1], c);
    } else {
      assert p + x == p;
    }
  }

  /** `os.path.basename` of a path with a '/'-free suffix appended. */
  lemma FileNameOfAppend(p: string, x: string)
    requires '/' !in x
    ensures FileNameOf(p + x) == FileNameOf(p) + x
  {
    LastIndexAppend(p, x, '/');
  }

  /** `p` when its last segment has a '.', else `p + '.png'`. */
  function WithExtension(p: string): (r: string)
    ensures '.' in FileNameOf(r) && p <= r
    ensures '.' in FileNameOf(p) ==> r == p
  {
    if '.' in FileNameOf(p) then p
    else
      FileNameOfAppend(p, ".png");
      assert FileNameOf(p + ".png")[|FileNameOf(p)|] == '.';
      p + ".png"
  }

  /** The path of an image name that is not rooted, before the extension is added. With a
      product code, a name holding the code, a '_' or only digits is completed from the code;
      any other name is taken as it is. */
  function CodedImagePath(img: string, code: string): (r: string)
    ensures ProductImageBase <= r
    ensures img == "" ==> r == ProductImageBase
    ensures img != "" ==> r[|r| - 1] == img[|img| - 1]
  {
    if code != "" && (Contains(img, code) || '_' in img || IsDigits(img)) then
      if StartsWith(img, code) then ProductImageBase + img
      else if StartsWith(img, "_") then ProductImageBase + code + img
      else if IsDigits(img) then ProductImageBase + code + img
      else ProductImageBase + code + "_" + img
    else ProductImageBase + img
  }

  /** One entry of the images list, made into a path with an extension: a rooted path is kept,
      anything else goes under the product image folder. */
  function NormalizeImage(img: string, code: string): (r: string)
    ensures IsRooted(r) && '.' in FileNameOf(r)
  {
    var c := CleanImage(img);
    if IsRooted(c) then
      var r := WithExtension(c);
      PrefixRooted(c, r);
      r
    else
      var p := CodedImagePath(c, code);
      var r := WithExtension(p);
      PrefixRooted(ProductImageBase, p);
      PrefixRooted(p, r);
      r
  }

  /** A path that extends a rooted path is rooted. */
  lemma PrefixRooted(p: string, r: string)
    requires IsRooted(p) && p <= r
    ensures IsRooted(r)
  {
    if StartsWith(p, "assets/") {
      assert r[..7] == p[..7];
    } else {
      assert r[..1] == p[..1];
    }
  }

  lemma CleanImageFixed(s: string)
    requires s != [] && !IsPySpace(s[0]) && !IsPySpace(s[|s| - 1]) && s[|s| - 1] != ';'
    ensures CleanImage(s) == s
  {
  }

  /** A rooted entry keeps its place, gaining at most the extension; any other entry is put
      under the product image folder. */
  lemma NormalizeImagePlace(img: string, code: string)
    ensures IsRooted(CleanImage(img)) ==>
      NormalizeImage(img, code) in {CleanImage(img), CleanImage(img) + ".png"}
    ensures !IsRooted(CleanImage(img)) ==> StartsWith(NormalizeImage(img, code), ProductImageBase)
  {
  }

  /** No space at either end and no ';' at the end. */
  predicate CleanEnds(s: string) {
    s != [] && !IsPySpace(s[0]) && !IsPySpace(s[|s| - 1]) && s[|s| - 1] != ';'
  }

  lemma WithExtensionEnds(p: string)
    requires p != [] && !IsPySpace(p[0])
    requires '.' in FileNameOf(p) ==> !IsPySpace(p[|p| - 1]) && p[|p| - 1] != ';'
    ensures CleanEnds(WithExtension(p))
  {
  }

  lemma BaseFileName() ensures FileNameOf(ProductImageBase) == "" { }

  /** A clean file name without '/' or '.' ends up in the product folder with ".png". */
  lemma InFolderImage(img: string, code: string, name: string)
    requires CleanEnds(img) && !IsRooted(img)
    requires CodedImagePath(img, code) == ProductImageBase + name && '/' !in name && '.' !in name
    ensures NormalizeImage(img, code) == ProductImageBase + name + ".png"
  {
    CleanImageFixed(img);
    FileNameOfAppend(ProductImageBase, name);
    BaseFileName();
  }

  predicate PlainName(s: string) {
    CleanEnds(s) && '/' !in s && '.' !in s
  }

  lemma SuffixImage(suffix: string, code: string)
    requires code != "" && PlainName(code) && PlainName(suffix) && suffix[0] == '_' && !StartsWith(suffix, code)
    ensures NormalizeImage(suffix, code) == ProductImageBase + code + suffix + ".png"
  {
    SuffixPath(suffix, code);
    assert ProductImageBase + code + suffix == ProductImageBase + (code + suffix);
    InFolderImage(suffix, code, code + suffix);
  }

  /** A name starting with '_' is appended to the code. */
  lemma SuffixPath(suffix: string, code: string)
    requires code != "" && '/' !in suffix && suffix != [] && suffix[0] == '_' && !StartsWith(suffix, code)
    ensures !IsRooted(suffix)
    ensures CodedImagePath(suffix, code) == ProductImageBase + (code + suffix)
  {
    assert '_' in suffix && StartsWith(suffix, "_");
    NotRooted(suffix);
  }

  lemma NumberImage(number: string, code: string)
    requires code != "" && PlainName(code) && IsDigits(number) && !StartsWith(number, code)
    ensures NormalizeImage(number, code) == ProductImageBase + code + number + ".png"
  {
    assert ProductImageBase + code + number == ProductImageBase + (code + number);
    InFolderImage(number, code, code + number);
  }

  lemma CodedImage(name: string, code: string)
    requires code != "" && PlainName(name) && StartsWith(name, code)
    ensures NormalizeImage(name, code) == ProductImageBase + name + ".png"
  {
    assert OccursAt(name, code, 0);
    NotRooted(name);
    InFolderImage(name, code, name);
  }

  lemma JoinedImage(name: string, code: string)
    requires code != "" && PlainName(code) && PlainName(name)
    requires Contains(name, code) && !StartsWith(name, code) && name[0] != '_' && !IsDigits(name)
    ensures NormalizeImage(name, code) == ProductImageBase + code + "_" + name + ".png"
  {
    NotRooted(name);
    JoinedPath(name, code);
    NoSeparatorInJoined(code, name);
    JoinedConcat(code, name);
    InFolderImage(name, code, code + "_" + name);
  }

  lemma JoinedConcat(code: string, name: string)
    ensures ProductImageBase + code + "_" + name == ProductImageBase + (code + "_" + name)
    ensures ProductImageBase + code + "_" + name + ".png" == ProductImageBase + (code + "_" + name) + ".png"
  {
  }

  /** `code_name` has no '/' and no '.' when neither part has. */
  lemma NoSeparatorInJoined(code: string, name: string)
    requires '/' !in code && '.' !in code && '/' !in name && '.' !in name
    ensures '/' !in code + "_" + name && '.' !in code + "_" + name
  {
  }

  lemma BareImage(name: string, code: string)
    requires PlainName(name)
    requires code == "" || (!Contains(name, code) && '_' !in name && !IsDigits(name))
    ensures NormalizeImage(name, code) == ProductImageBase + name + ".png"
  {
    NotRooted(name);
    InFolderImage(name, code, name);
  }

  /** A name that already has an extension, without the code, '_' or digits only, goes under the
      product image folder unchanged. */
  lemma DottedImage(name: string, code: string)
    requires CleanEnds(name) && '/' !in name && '.' in name
    requires code == "" || (!Contains(name, code) && '_' !in name && !IsDigits(name))
    ensures NormalizeImage(name, code) == ProductImageBase + name
  {
    assert CleanImage(name) == name by { CleanImageFixed(name); }
    assert !IsRooted(name) by { NotRooted(name); }
    assert CodedImagePath(name, code) == ProductImageBase + name by { BarePath(name, code); }
    assert FileNameOf(ProductImageBase + name) == name by {
      FileNameOfAppend(ProductImageBase, name);
      BaseFileName();
    }
    KeptImage(name, code, ProductImageBase + name);
  }

  /** A clean, unrooted entry whose constructed path already has an extension becomes that path. */
  lemma KeptImage(img: string, code: string, p: string)
    requires CleanImage(img) == img && !IsRooted(img) && CodedImagePath(img, code) == p
    requires '.' in FileNameOf(p)
    ensures NormalizeImage(img, code) == p
  {
  }

  /** A name without the code, '_' or digits only is taken as it is. */
  lemma BarePath(name: string, code: string)
    requires code == "" || (!Contains(name, code) && '_' !in name && !IsDigits(name))
    ensures CodedImagePath(name, code) == ProductImageBase + name
  {
  }

  lemma PrefixChars(p: string, s: string)
    ensures p <= s ==> forall i :: 0 <= i < |p| ==> p[i] in s
  {
    if p <= s {
      forall i | 0 <= i < |p| ensures p[i] in s {
        assert s[i] == p[i];
      }
    }
  }

  lemma NotRooted(s: string)
    requires '/' !in s
    ensures !IsRooted(s)
  {
    PrefixChars("assets/", s);
    PrefixChars("/", s);
    assert "assets/"[6] == '/' && "/"[0] == '/';
  }

  lemma CleanImageEnds(img: string)
    requires ';' !in img
    ensures CleanImage(img) == "" || CleanEnds(CleanImage(img))
  {
    var c := CleanImage(img);
    if c != "" {
      assert c[|c| - 1] in c;
    }
  }

  lemma RootedImageEnds(c: string)
    requires (c == "" || CleanEnds(c)) && IsRooted(c)
    ensures CleanEnds(WithExtension(c))
  {
    WithExtensionEnds(c);
  }

  lemma CodedImageEnds(c: string, code: string)
    requires c == "" || CleanEnds(c)
    ensures CleanEnds(WithExtension(CodedImagePath(c, code)))
  {
    if c == "" {
      BaseFileName();
    }
    WithExtensionEnds(CodedImagePath(c, code));
  }

  lemma NormalizeImageEnds(img: string, code: string)
    requires ';' !in img
    ensures CleanEnds(NormalizeImage(img, code))
  {
    var c := CleanImage(img);
    CleanImageEnds(img);
    if IsRooted(c) {
      assert NormalizeImage(img, code) == WithExtension(c);
      RootedImageEnds(c);
    } else {
      assert NormalizeImage(img, code) == WithExtension(CodedImagePath(c, code));
      CodedImageEnds(c, code);
    }
  }


  lemma JoinedPath(name: string, code: string)
    requires code != "" && name != ""
    requires Contains(name, code) && !StartsWith(name, code) && name[0] != '_' && !IsDigits(name)
    ensures CodedImagePath(name, code) == ProductImageBase + code + "_" + name
  {
  }

  /** Normalising a path the converter produced changes nothing, so every entry it writes is in
      its final form. */
  lemma NormalizeImageIdempotent(img: string, code: string)
    requires ';' !in img
    ensures NormalizeImage(NormalizeImage(img, code), code) == NormalizeImage(img, code)
  {
    NormalizeImageEnds(img, code);
    FinalImageFixed(NormalizeImage(img, code), code);
  }

  /** A rooted path with clean ends and an extension is left as it is. */
  lemma FinalImageFixed(p: string, code: string)
    requires CleanEnds(p) && FinalImagePath(p)
    ensures NormalizeImage(p, code) == p
  {
    CleanImageFixed(p);
  }

  // ---------------------------------------------------------------------------------------
  // One row

  /** A field's value in a product record. */
  datatype FieldValue = IdValue(id: Id) | TextValue(text: string) | ListValue(items: seq<string>)

  /** A product record as a dictionary from field to value. */
  type Record = map<Field, FieldValue>

  /** The value kind each field holds. */
  predicate Fits(f: Field, v: FieldValue) {
    match f
    case IdField => v.IdValue?
    case DetailsField | FeaturesField | ImagesField => v.ListValue?
    case _ => v.TextValue?
  }

  predicate WellTyped(product: Record) {
    forall f :: f in product ==> Fits(f, product[f])
  }

  /** `int(v)` for a number or a boolean, the cell itself for text. */
  function CellId(c: Cell): (r: Id)
    ensures r.StrId? <==> c.Text?
  {
    match c
    case Int(n) => IntId(n)
    case Bool(b) => IntId(if b then 1 else 0)
    case Text(s) => StrId(s)
  }

  /** `str(header).lower().strip()`. */
  function HeaderKey(header: Cell, lower: string -> string): string {
    PyStrip(lower(CellText(header)))
  }

  /** The key a header is classified by has no space at either end. */
  lemma HeaderKeyStripped(header: Cell, lower: string -> string)
    ensures PyStrip(HeaderKey(header, lower)) == HeaderKey(header, lower)
  {
    TrimIdempotent(lower(CellText(header)), IsPySpace);
  }

  /** What a cell stores in the field its header chose. */
  function ColumnValue(f: Field, cell: Cell, lower: string -> string): (v: FieldValue)
    ensures Fits(f, v)
  {
    match f
    case IdField => IdValue(CellId(cell))
    case CategoryField => TextValue(NormalizeCategory(PyStrip(lower(CellText(cell)))))
    case DetailsField | FeaturesField =>
      ListValue(if cell.Text? then SplitList(cell.s) else [CellText(cell)])
    case ImagesField =>
      ListValue(if cell.Text? then SplitImages(cell.s) else if CellTruthy(cell) then [CellText(cell)] else [])
    case _ => TextValue(CellText(cell))
  }

  /** One column's effect on the record: the field and the value it stores, if any. */
  type Assignment = Option<(Field, FieldValue)>

  /** The assignment of column `i`: none when its header or its cell is empty or the header
      names no field. */
  function Column(headers: seq<Option<Cell>>, row: seq<Option<Cell>>, lower: string -> string, i: nat): (a: Assignment)
    requires i < |headers|
    ensures a.Some? ==> Fits(a.value.0, a.value.1)
  {
    var cell := if i < |row| then row[i] else None;
    if headers[i].None? || cell.None? then None
    else match Classify(HeaderKey(headers[i].value, lower))
      case None => None
      case Some(f) => Some((f, ColumnValue(f, cell.value, lower)))
  }

  /** The assignments of a row's columns, in column order. */
  function Columns(headers: seq<Option<Cell>>, row: seq<Option<Cell>>, lower: string -> string): (cols: seq<Assignment>)
    ensures |cols| == |headers|
    ensures forall i :: 0 <= i < |headers| ==> cols[i] == Column(headers, row, lower, i)
  {
    seq(|headers|, i requires 0 <= i < |headers| => Column(headers, row, lower, i))
  }

  /** The record a sequence of assignments builds, each one overwriting the field it names. */
  function Assigned(cols: seq<Assignment>): (r: Record)
    ensures (forall i :: 0 <= i < |cols| && cols[i].Some? ==> Fits(cols[i].value.0, cols[i].value.1)) ==> WellTyped(r)
  {
    if cols == [] then map[]
    else
      var m := Assigned(cols[..|cols| - 1]);
      match cols[|cols| - 1]
      case None => m
      case Some(fv) => m[fv.0 := fv.1]
  }

  /** The category ids the assignments add to the category set, in order. */
  function CategoriesOf(cols: seq<Assignment>): (r: seq<string>)
    ensures forall c :: c in r <==> exists i :: 0 <= i < |cols| && cols[i].Some? && cols[i].value.0 == CategoryField
                                             && cols[i].value.1.TextValue? && cols[i].value.1.text == c
  {
    if cols == [] then []
    else
      var prev := CategoriesOf(cols[..|cols| - 1]);
      var last := cols[|cols| - 1];
      assert forall i :: 0 <= i < |cols| - 1 ==> cols[..|cols| - 1][i] == cols[i];
      if last.Some? && last.value.0 == CategoryField && last.value.1.TextValue? then prev + [last.value.1.text] else prev
  }

  /** The last assignment to `f`, or -1. */
  function LastAssigning(cols: seq<Assignment>, f: Field): (k: int)
    ensures -1 <= k < |cols|
    ensures k >= 0 ==> cols[k].Some? && cols[k].value.0 == f
    ensures forall j :: k < j < |cols| ==> !(cols[j].Some? && cols[j].value.0 == f)
  {
    if cols == [] then -1
    else if cols[|cols| - 1].Some? && cols[|cols| - 1].value.0 == f then |cols| - 1
    else
      var k := LastAssigning(cols[..|cols| - 1], f);
      assert forall j :: k < j < |cols| - 1 ==> cols[..|cols| - 1][j] == cols[j];
      k
  }

  /** Later columns overwrite earlier ones: a field holds the value of the last column that
      assigns it, and is absent when no column does. */
  lemma {:induction false} LastColumnWins(cols: seq<Assignment>, f: Field)
    ensures var k := LastAssigning(cols, f);
      && (f in Assigned(cols) <==> k >= 0)
      && (k >= 0 ==> Assigned(cols)[f] == cols[k].value.1)
  {
    if cols != [] {
      var init := cols[..|cols| - 1];
      LastColumnWins(init, f);
      if !(cols[|cols| - 1].Some? && cols[|cols| - 1].value.0 == f) {
        var k := LastAssigning(init, f);
        assert k >= 0 ==> init[k] == cols[k];
      }
    }
  }

  /** The record a row's columns build. */
  function RowFields(headers: seq<Option<Cell>>, row: seq<Option<Cell>>, lower: string -> string): (r: Record)
    ensures WellTyped(r)
  {
    Assigned(Columns(headers, row, lower))
  }

  /** The category ids a row adds to the category set. */
  function RowCategories(headers: seq<Option<Cell>>, row: seq<Option<Cell>>, lower: string -> string): seq<string> {
    CategoriesOf(Columns(headers, row, lower))
  }

  /** The loop over the header cells, filling the record field by field. */
  method ConvertRow(headers: seq<Option<Cell>>, row: seq<Option<Cell>>, lower: string -> string)
    returns (product: Record, categories: seq<string>)
    ensures product == RowFields(headers, row, lower)
    ensures categories == RowCategories(headers, row, lower)
  {
    ghost var cols := Columns(headers, row, lower);
    product := map[];
    categories := [];
    for colIdx := 0 to |headers|
      invariant product == Assigned(cols[..colIdx])
      invariant categories == CategoriesOf(cols[..colIdx])
    {
      ColumnStep(cols, colIdx);
      if headers[colIdx].None? {
        continue;
      }
      var cellValue := if colIdx < |row| then row[colIdx] else None;
      if cellValue.None? {
        continue;
      }
      var headerLower := HeaderKey(headers[colIdx].value, lower);
      var field := Classify(headerLower);
      if field.Some? {
        var value := ColumnValue(field.value, cellValue.value, lower);
        assert cols[colIdx] == Some((field.value, value));
        product := product[field.value := value];
        if field.value == CategoryField {
          categories := categories + [value.text];
        }
      }
    }
    assert cols[..|headers|] == cols;
  }

  /** What one more column does to the record and to the category ids. */
  lemma ColumnStep(cols: seq<Assignment>, k: nat)
    requires k < |cols|
    ensures Assigned(cols[..k + 1]) ==
      match cols[k]
      case None => Assigned(cols[..k])
      case Some(fv) => Assigned(cols[..k])[fv.0 := fv.1]
    ensures CategoriesOf(cols[..k + 1]) == CategoriesOf(cols[..k]) +
      (if cols[k].Some? && cols[k].value.0 == CategoryField && cols[k].value.1.TextValue? then [cols[k].value.1.text] else [])
  {
    assert cols[..k + 1][..k] == cols[..k];
    assert cols[..k + 1][k] == cols[k];
  }

  // ---------------------------------------------------------------------------------------
  // One product

  /** `product.get(f, '')` for a text field. */
  function TextField(product: Record, f: Field): string {
    if f in product && product[f].TextValue? then product[f].text else ""
  }

  /** `product.get(f, [])` for a list field. */
  function ListField(product: Record, f: Field): seq<string> {
    if f in product && product[f].ListValue? then product[f].items else []
  }

  /** `product.get('name')` is truthy. */
  predicate HasName(product: Record) {
    TextField(product, NameField) != ""
  }

  function ImageNormalizer(code: string): string -> string {
    img => NormalizeImage(img, code)
  }

  /** `normalized_images`: each non-empty entry normalised, in order. */
  function NormalizedImages(images: seq<string>, code: string): seq<string> {
    Map(Filter(images, NonEmptyText), ImageNormalizer(code))
  }

  /** A path the converter writes: rooted, with a '.' in its file name. */
  predicate FinalImagePath(x: string) {
    IsRooted(x) && '.' in FileNameOf(x)
  }

  /** Every normalised entry is a final path; there is one for each non-empty entry. */
  lemma NormalizedImagesRooted(images: seq<string>, code: string)
    ensures |NormalizedImages(images, code)| == |Filter(images, NonEmptyText)|
    ensures forall x :: x in NormalizedImages(images, code) ==> FinalImagePath(x)
  {
    var f := ImageNormalizer(code);
    forall y ensures FinalImagePath(f(y)) {
      assert f(y) == NormalizeImage(y, code);
    }
    MapKeeps(Filter(images, NonEmptyText), f, FinalImagePath);
  }

  /** The loop that builds `normalized_images`. */
  method NormalizeImages(images: seq<string>, code: string) returns (normalized: seq<string>)
    ensures normalized == NormalizedImages(images, code)
  {
    normalized := [];
    for i := 0 to |images|
      invariant normalized == NormalizedImages(images[..i], code)
    {
      var img := images[i];
      assert images[..i + 1] == images[..i] + [img];
      NormalizedImagesAppend(images[..i], img, code);
      if img == "" {
        continue;
      }
      normalized := normalized + [NormalizeImage(img, code)];
    }
    assert images[..|images|] == images;
  }

  /** One more entry adds its normalised path, unless it is empty. */
  lemma NormalizedImagesAppend(images: seq<string>, img: string, code: string)
    ensures NormalizedImages(images + [img], code) ==
      NormalizedImages(images, code) + (if img == "" then [] else [NormalizeImage(img, code)])
  {
    FilterAppend(images, [img], NonEmptyText);
    MapAppend(Filter(images, NonEmptyText), Filter([img], NonEmptyText), ImageNormalizer(code));
    if img != "" {
      assert Map([img], ImageNormalizer(code)) == [NormalizeImage(img, code)];
    }
  }

  /** The record with an id: its own, or the next position, `count + 1`. */
  function WithId(product: Record, count: nat): Record {
    if IdField in product then product else product[IdField := IdValue(IntId(count + 1))]
  }

  /** The record with its images normalised, when it has any. */
  function WithNormalizedImages(product: Record): Record {
    var given := ListField(product, ImagesField);
    if ImagesField in product && given != [] then
      product[ImagesField := ListValue(NormalizedImages(given, TextField(product, CodeField)))]
    else product
  }

  /** The record with its category's picture when no image is left. */
  function WithDefaultImage(product: Record): Record {
    if ListField(product, ImagesField) == [] then
      product[ImagesField := ListValue([DefaultImage(TextField(product, CategoryField))])]
    else product
  }

  /** A named record as it is appended after `count` products. */
  function FinishedProduct(product: Record, count: nat): Record {
    WithDefaultImage(WithNormalizedImages(WithId(product, count)))
  }

  /** Every image of the record is a final path. */
  predicate ImagesFinal(product: Record) {
    forall x :: x in ListField(product, ImagesField) ==> FinalImagePath(x)
  }

  /** The fields other than `f` are the same in both records. */
  predicate SameExcept(a: Record, b: Record, f: Field) {
    forall g :: g != f ==> (g in a <==> g in b) && (g in a ==> a[g] == b[g])
  }

  lemma WithNormalizedImagesShape(product: Record)
    ensures SameExcept(WithNormalizedImages(product), product, ImagesField)
    ensures ListField(WithNormalizedImages(product), ImagesField) != [] ==> ImagesFinal(WithNormalizedImages(product))
  {
    var given := ListField(product, ImagesField);
    if ImagesField in product && given != [] {
      NormalizedImagesRooted(given, TextField(product, CodeField));
    }
  }

  lemma WithDefaultImageShape(product: Record)
    requires ListField(product, ImagesField) != [] ==> ImagesFinal(product)
    ensures SameExcept(WithDefaultImage(product), product, ImagesField)
    ensures ListField(WithDefaultImage(product), ImagesField) != [] && ImagesFinal(WithDefaultImage(product))
  {
    DefaultImageRooted(TextField(product, CategoryField));
  }

  /** What appending does to a record: it gets an id, `count + 1` when it has none; its images
      are normalised, or replaced by its category's picture when none is left, so the list is
      never empty and every entry is rooted with an extension; nothing else changes. */
  lemma FinishedProductShape(product: Record, count: nat)
    ensures var r := FinishedProduct(product, count);
      && IdField in r
      && (IdField !in product ==> r[IdField] == IdValue(IntId(count + 1)))
      && (IdField in product ==> r[IdField] == product[IdField])
      && ListField(r, ImagesField) != [] && ImagesFinal(r)
      && (forall f :: f != IdField && f != ImagesField ==> (f in r <==> f in product) && (f in r ==> r[f] == product[f]))
  {
    var p1 := WithId(product, count);
    var p2 := WithNormalizedImages(p1);
    WithNormalizedImagesShape(p1);
    WithDefaultImageShape(p2);
  }

  lemma DefaultImageRooted(category: string)
    ensures IsRooted(DefaultImage(category)) && '.' in FileNameOf(DefaultImage(category))
  {
    var r := DefaultImage(category);
    var name := r[|CategoryImageDir|..];
    assert r == CategoryImageDir + name;
    assert '/' !in name && '.' in name;
    FileNameOfAppend(CategoryImageDir, name);
  }

  /** The steps after the column loop for a record with a name. */
  method FinishProduct(product: Record, count: nat) returns (finished: Record)
    ensures finished == FinishedProduct(product, count)
  {
    finished := product;
    if IdField !in finished {
      finished := finished[IdField := IdValue(IntId(count + 1))];
    }
    var given := ListField(finished, ImagesField);
    if ImagesField in finished && given != [] {
      var productCode := TextField(finished, CodeField);
      var normalizedImages := NormalizeImages(given, productCode);
      finished := finished[ImagesField := ListValue(normalizedImages)];
    }
    if ListField(finished, ImagesField) == [] {
      var category := TextField(finished, CategoryField);
      finished := finished[ImagesField := ListValue([DefaultImage(category)])];
    }
  }

  /** A record as the converter writes it: named, with an id, with a non-empty list of final
      image paths, every field holding its kind of value. */
  predicate Shaped(product: Record) {
    HasName(product) && IdField in product && ListField(product, ImagesField) != []
    && ImagesFinal(product) && WellTyped(product)
  }

  /** Appending keeps a named, well-typed record named and well-typed and gives it its final
      shape. */
  lemma FinishedProductShaped(product: Record, count: nat)
    requires HasName(product) && WellTyped(product)
    ensures Shaped(FinishedProduct(product, count))
  {
    FinishedProductShape(product, count);
    var r := FinishedProduct(product, count);
    assert TextField(r, NameField) == TextField(product, NameField);
    forall f | f in r ensures Fits(f, r[f]) {
      if f == ImagesField {
        assert ListField(r, ImagesField) != [];
      } else if f != IdField {
        assert r[f] == product[f];
      }
    }
  }

  // ---------------------------------------------------------------------------------------
  // The whole sheet

  /** `any(cell.value for cell in row)`: some cell of the row holds a truthy value. */
  predicate RowHasValue(row: seq<Option<Cell>>) {
    exists i :: 0 <= i < |row| && row[i].Some? && CellTruthy(row[i].value)
  }

  function RowRecord(headers: seq<Option<Cell>>, lower: string -> string): seq<Option<Cell>> -> Record {
    row => RowFields(headers, row, lower)
  }

  /** The records of the non-empty rows that have a name, in sheet order: the products the
      sheet describes. */
  function NamedRecords(headers: seq<Option<Cell>>, rows: seq<seq<Option<Cell>>>, lower: string -> string): seq<Record> {
    Filter(Map(Filter(rows, RowHasValue), RowRecord(headers, lower)), HasName)
  }

  function Finisher(): (Record, nat) -> Record {
    (product: Record, j: nat) => FinishedProduct(product, j)
  }

  /** Each record finished at its own position in the list. */
  function Numbered(records: seq<Record>): (r: seq<Record>)
    ensures |r| == |records|
    ensures forall j :: 0 <= j < |records| ==> r[j] == FinishedProduct(records[j], j)
  {
    MapIndexed(records, Finisher())
  }

  /** The products and the category set the row loop has built. */
  datatype Conversion = Conversion(products: seq<Record>, categories: set<string>)

  /** One pass of the row loop: an empty row is skipped; any other row adds its category ids to
      the set, and is appended, finished, when it has a name. */
  function AddRow(acc: Conversion, headers: seq<Option<Cell>>, row: seq<Option<Cell>>, lower: string -> string): (r: Conversion)
    ensures acc.categories <= r.categories
    ensures |acc.products| <= |r.products| <= |acc.products| + 1 && r.products[..|acc.products|] == acc.products
  {
    if !RowHasValue(row) then acc
    else
      var product := RowFields(headers, row, lower);
      var categories := acc.categories + set c | c in RowCategories(headers, row, lower);
      if HasName(product) then Conversion(acc.products + [FinishedProduct(product, |acc.products|)], categories)
      else Conversion(acc.products, categories)
  }

  /** The state after the row loop has seen `rows`. */
  function Converted(headers: seq<Option<Cell>>, rows: seq<seq<Option<Cell>>>, lower: string -> string): (r: Conversion)
    ensures |r.products| <= |rows|
  {
    if rows == [] then Conversion([], {})
    else AddRow(Converted(headers, rows[..|rows| - 1], lower), headers, rows[|rows| - 1], lower)
  }

  lemma NumberedAppend(records: seq<Record>, x: Record)
    ensures Numbered(records + [x]) == Numbered(records) + [FinishedProduct(x, |records|)]
  {
    MapIndexedAppend(records, x, Finisher());
  }

  /** What one pass adds to the category set. */
  lemma AddRowCategories(acc: Conversion, headers: seq<Option<Cell>>, row: seq<Option<Cell>>, lower: string -> string)
    ensures AddRow(acc, headers, row, lower).categories ==
      acc.categories + (if RowHasValue(row) then set c | c in RowCategories(headers, row, lower) else {})
  {
  }

  /** `c` is the category of some non-empty row. */
  ghost predicate SheetCategory(headers: seq<Option<Cell>>, rows: seq<seq<Option<Cell>>>, lower: string -> string, c: string) {
    exists k :: 0 <= k < |rows| && RowHasValue(rows[k]) && c in RowCategories(headers, rows[k], lower)
  }

  lemma NamedRecordsAppend(headers: seq<Option<Cell>>, rows: seq<seq<Option<Cell>>>, row: seq<Option<Cell>>, lower: string -> string)
    ensures NamedRecords(headers, rows + [row], lower) ==
      NamedRecords(headers, rows, lower) +
      (if RowHasValue(row) && HasName(RowFields(headers, row, lower)) then [RowFields(headers, row, lower)] else [])
  {
    var f := RowRecord(headers, lower);
    var kept := Filter(rows, RowHasValue);
    var last := Filter([row], RowHasValue);
    FilterAppend(rows, [row], RowHasValue);
    MapAppend(kept, last, f);
    FilterAppend(Map(kept, f), Map(last, f), HasName);
    FilterMapOne(row, f, RowHasValue, HasName);
    assert f(row) == RowFields(headers, row, lower);
  }

  /** The products are exactly the named non-empty rows' records, in sheet order, the j-th
      finished as the j-th appended: so an automatic id is the record's position plus one. */
  lemma {:induction false} ConvertedProducts(headers: seq<Option<Cell>>, rows: seq<seq<Option<Cell>>>, lower: string -> string)
    ensures Converted(headers, rows, lower).products == Numbered(NamedRecords(headers, rows, lower))
  {
    if rows != [] {
      var init := rows[..|rows| - 1];
      var row := rows[|rows| - 1];
      assert rows == init + [row];
      ConvertedProducts(headers, init, lower);
      NamedRecordsAppend(headers, init, row, lower);
      if RowHasValue(row) && HasName(RowFields(headers, row, lower)) {
        NumberedAppend(NamedRecords(headers, init, lower), RowFields(headers, row, lower));
      }
    }
  }

  /** Every product the converter writes has its final shape. */
  lemma ConvertedShaped(headers: seq<Option<Cell>>, rows: seq<seq<Option<Cell>>>, lower: string -> string)
    ensures forall p :: p in Converted(headers, rows, lower).products ==> Shaped(p)
  {
    ConvertedProducts(headers, rows, lower);
    var named := NamedRecords(headers, rows, lower);
    forall j | 0 <= j < |named| ensures Shaped(Numbered(named)[j]) {
      assert named[j] in named;
      FinishedProductShaped(named[j], j);
    }
  }

  /** The category set holds the categories of every non-empty row, named or not, and nothing
      else. */
  lemma {:induction false} ConvertedCategories(headers: seq<Option<Cell>>, rows: seq<seq<Option<Cell>>>, lower: string -> string)
    ensures forall c :: c in Converted(headers, rows, lower).categories <==> SheetCategory(headers, rows, lower, c)
  {
    if rows != [] {
      var init := rows[..|rows| - 1];
      var row := rows[|rows| - 1];
      assert rows == init + [row];
      ConvertedCategories(headers, init, lower);
      AddRowCategories(Converted(headers, init, lower), headers, row, lower);
      SheetCategoryAppend(headers, init, row, lower);
    }
  }

  lemma SheetCategoryAppend(headers: seq<Option<Cell>>, rows: seq<seq<Option<Cell>>>, row: seq<Option<Cell>>, lower: string -> string)
    ensures forall c :: SheetCategory(headers, rows + [row], lower, c) <==>
      SheetCategory(headers, rows, lower, c) || (RowHasValue(row) && c in RowCategories(headers, row, lower))
  {
    var all := rows + [row];
    forall c ensures SheetCategory(headers, all, lower, c) <==>
      SheetCategory(headers, rows, lower, c) || (RowHasValue(row) && c in RowCategories(headers, row, lower))
    {
      if SheetCategory(headers, all, lower, c) {
        var k :| 0 <= k < |all| && RowHasValue(all[k]) && c in RowCategories(headers, all[k], lower);
        if k < |rows| {
          assert rows[k] == all[k];
        }
      }
      if SheetCategory(headers, rows, lower, c) {
        var k :| 0 <= k < |rows| && RowHasValue(rows[k]) && c in RowCategories(headers, rows[k], lower);
        assert rows[k] == all[k];
      }
      if RowHasValue(row) && c in RowCategories(headers, row, lower) {
        assert all[|rows|] == row;
      }
    }
  }

  /** The loop over the data rows. */
  method ConvertRows(headers: seq<Option<Cell>>, rows: seq<seq<Option<Cell>>>, lower: string -> string)
    returns (products: seq<Record>, categoriesSet: set<string>)
    ensures Conversion(products, categoriesSet) == Converted(headers, rows, lower)
  {
    products := [];
    categoriesSet := {};
    for rowIdx := 0 to |rows|
      invariant Conversion(products, categoriesSet) == Converted(headers, rows[..rowIdx], lower)
    {
      var row := rows[rowIdx];
      assert rows[..rowIdx + 1][..rowIdx] == rows[..rowIdx];
      if !RowHasValue(row) {
        continue;
      }
      var product, categories := ConvertRow(headers, row, lower);
      categoriesSet := categoriesSet + set c | c in categories;
      if HasName(product) {
        var finished := FinishProduct(product, |products|);
        products := products + [finished];
      }
    }
    assert rows[..|rows|] == rows;
  }

  /** One entry of the categories list. */
  datatype CategoryEntry = CategoryEntry(id: string, name: string)

  /** The display name of a category id: the table's, else `id.capitalize()`. */
  function CategoryName(id: string, capitalize: string -> string): string {
    if id in CategoryNames then CategoryNames[id] else capitalize(id)
  }

  /** The categories list: one entry per id of the set, in increasing code-point order of the
      ids, each with its display name. */
  method BuildCategories(categoriesSet: set<string>, capitalize: string -> string) returns (categories: seq<CategoryEntry>)
    ensures |categories| == |categoriesSet|
    ensures forall i, j :: 0 <= i < j < |categories| ==> LexLess(categories[i].id, categories[j].id)
    ensures forall c :: c in categoriesSet <==> exists i :: 0 <= i < |categories| && categories[i].id == c
    ensures forall i :: 0 <= i < |categories| ==> categories[i].name == CategoryName(categories[i].id, capitalize)
  {
    var ids := SortedStrings(categoriesSet);
    categories := [];
    for i := 0 to |ids|
      invariant |categories| == i
      invariant forall k :: 0 <= k < i ==> categories[k] == CategoryEntry(ids[k], CategoryName(ids[k], capitalize))
    {
      categories := categories + [CategoryEntry(ids[i], CategoryName(ids[i], capitalize))];
    }
    forall c | c in categoriesSet ensures exists i :: 0 <= i < |categories| && categories[i].id == c {
      var i :| 0 <= i < |ids| && ids[i] == c;
      assert categories[i].id == c;
    }
  }

  /** The conversion without its file I/O: the products of the rows and the categories list. */
  method Convert(headers: seq<Option<Cell>>, rows: seq<seq<Option<Cell>>>, lower: string -> string, capitalize: string -> string)
    returns (products: seq<Record>, categories: seq<CategoryEntry>)
    ensures products == Numbered(NamedRecords(headers, rows, lower))
    ensures forall p :: p in products ==> Shaped(p)
    ensures forall c :: (exists i :: 0 <= i < |categories| && categories[i].id == c) <==> SheetCategory(headers, rows, lower, c)
    ensures forall i, j :: 0 <= i < j < |categories| ==> LexLess(categories[i].id, categories[j].id)
    ensures forall i :: 0 <= i < |categories| ==> categories[i].name == CategoryName(categories[i].id, capitalize)
  {
    var categoriesSet;
    products, categoriesSet := ConvertRows(headers, rows, lower);
    ConvertedProducts(headers, rows, lower);
    ConvertedShaped(headers, rows, lower);
    ConvertedCategories(headers, rows, lower);
    categories := BuildCategories(categoriesSet, capitalize);
  }
}
