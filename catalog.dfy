/** The storefront's product records as the script reads them from products.json, the
    completeness rule that hides unfinished products, the category-name lookup, the loose
    comparison of a product id with the `id` query parameter, and the "Key: Value" split of a
    specification row. */
module Catalog {
  import opened Seqs
  import opened Strings

  /** A JSON value as the script sees it. `Null` stands for both null and a missing field;
      numbers are integers; `Obj` is any object, whose contents the core never reads. */
  datatype Value = Null | Bool(b: bool) | Num(n: int) | Str(s: string) | Arr(items: seq<Value>) | Obj

  /** JavaScript truthiness (NaN is not a modelled number). */
  predicate Truthy(v: Value) {
    match v
    case Null => false
    case Bool(b) => b
    case Num(n) => n != 0
    case Str(s) => s != ""
    case Arr(_) => true
    case Obj => true
  }

  /** `String(v)`: an array is its elements joined by commas, with null elements empty. */
  function ToJsString(v: Value): string
    decreases v, 1
  {
    match v
    case Null => "null"
    case Bool(b) => if b then "true" else "false"
    case Num(n) => IntToString(n)
    case Str(s) => s
    case Arr(items) => JoinElements(v, items)
    case Obj => "[object Object]"
  }

  function JoinElements(v: Value, items: seq<Value>): string
    requires forall x :: x in items ==> x < v
    decreases v, 0, |items|
  {
    if items == [] then ""
    else
      assert items[0] in items;
      assert forall x :: x in items[1..] ==> x in items;
      var first := if items[0].Null? then "" else ToJsString(items[0]);
      if |items| == 1 then first else first + "," + JoinElements(v, items[1..])
  }

  ghost predicate HasVisibleChar(s: string) {
    exists i :: 0 <= i < |s| && !IsJsSpace(s[i])
  }

  /** The test `d && String(d).trim() !== ''` applied to each details and features entry. */
  predicate Meaningful(v: Value) {
    Truthy(v) && JsTrim(ToJsString(v)) != ""
  }

  lemma VisibleIffTrimmed(s: string)
    ensures JsTrim(s) != "" <==> HasVisibleChar(s)
  {
  }

  lemma AnyMeaningful(items: seq<Value>)
    ensures Any(items, Meaningful) <==>
      exists i :: 0 <= i < |items| && Truthy(items[i]) && HasVisibleChar(ToJsString(items[i]))
  {
    forall i | 0 <= i < |items| {
      VisibleIffTrimmed(ToJsString(items[i]));
    }
  }

  /** A details or features field that is an array with at least one meaningful entry. */
  ghost predicate HasMeaningfulEntry(v: Value) {
    v.Arr? && exists i :: 0 <= i < |v.items| && Truthy(v.items[i]) && HasVisibleChar(ToJsString(v.items[i]))
  }

  datatype Id = IntId(n: int) | StrId(s: string)

  /** A product record. A missing `code` or `image` is the empty string and a missing
      `images` the empty list, which the script treats alike. */
  datatype Product = Product(
    id: Id,
    name: string,
    category: string,
    code: string,
    description: Value,
    details: Value,
    features: Value,
    images: seq<string>,
    image: string)

  datatype Category = Category(id: string, name: string)

  /** The description test: `!d || typeof d !== 'string' || d.trim() === ''` rejects it. */
  predicate DescriptionComplete(d: Value)
    ensures DescriptionComplete(d) <==> d.Str? && HasVisibleChar(d.s)
  {
    if !Truthy(d) || !d.Str? then false
    else
      VisibleIffTrimmed(d.s);
      JsTrim(d.s) != ""
  }

  /** The details and features test: a non-empty array with at least one meaningful entry. */
  predicate ListComplete(v: Value)
    ensures ListComplete(v) <==> HasMeaningfulEntry(v)
  {
    if !Truthy(v) || !v.Arr? || |v.items| == 0 then false
    else
      AnyMeaningful(v.items);
      Any(v.items, Meaningful)
  }

  /** isProductComplete: the product is shown only when its description is a string with a
      visible character and its details and features each have a meaningful entry. */
  predicate IsProductComplete(p: Product)
    ensures IsProductComplete(p) <==>
      && p.description.Str? && HasVisibleChar(p.description.s)
      && HasMeaningfulEntry(p.details)
      && HasMeaningfulEntry(p.features)
  {
    DescriptionComplete(p.description) && ListComplete(p.details) && ListComplete(p.features)
  }

  /** getCategoryName: the name of the first category with this id, or the id itself. */
  function GetCategoryName(categories: seq<Category>, categoryId: string): (r: string)
    ensures (exists i :: 0 <= i < |categories| && categories[i].id == categoryId) ==>
      exists i :: 0 <= i < |categories| && categories[i].id == categoryId && r == categories[i].name
        && forall j :: 0 <= j < i ==> categories[j].id != categoryId
    ensures (forall i :: 0 <= i < |categories| ==> categories[i].id != categoryId) ==> r == categoryId
  {
    match FindIndex(categories, (c: Category) => c.id == categoryId)
    case Some(i) => categories[i].name
    case None => categoryId
  }

  /** `Number(s)` for the strings the core compares: after trimming, the empty string is 0 and
      an optionally signed run of decimal digits is its value; anything else is None. */
  function ToNumber(s: string): (r: Option<int>)
    ensures var t := JsTrim(s);
      r.Some? <==> t == "" || IsDigits(t) || (t != "" && (t[0] == '-' || t[0] == '+') && IsDigits(t[1..]))
    ensures r.Some? && r.value < 0 ==> JsTrim(s) != "" && JsTrim(s)[0] == '-'
    ensures var t := JsTrim(s); t == "" ==> r == Some(0)
    ensures var t := JsTrim(s); IsDigits(t) ==> r == Some(DigitsValue(t))
    ensures var t := JsTrim(s); t != "" && t[0] == '+' && IsDigits(t[1..]) ==> r == Some(DigitsValue(t[1..]))
    ensures var t := JsTrim(s); t != "" && t[0] == '-' && IsDigits(t[1..]) ==> r == Some(0 - DigitsValue(t[1..]))
  {
    var t := JsTrim(s);
    if t == "" then Some(0)
    else if t[0] == '-' && IsDigits(t[1..]) then Some(0 - DigitsValue(t[1..]))
    else if t[0] == '+' && IsDigits(t[1..]) then Some(DigitsValue(t[1..]))
    else if IsDigits(t) then Some(DigitsValue(t))
    else None
  }

  /** `p.id == param`, JavaScript's loose equality between a product id and the `id` query
      parameter: a string id compares as text, a numeric id with the parameter read as a number. */
  predicate LooseEquals(id: Id, param: string) {
    match id
    case StrId(s) => s == param
    case IntId(n) => ToNumber(param) == Some(n)
  }

  /** `${product.id}`, the text a product card puts into its `?id=` link. */
  function IdText(id: Id): string {
    match id
    case StrId(s) => s
    case IntId(n) => IntToString(n)
  }

  lemma TrimUnchanged(s: string)
    requires s != [] && !IsJsSpace(s[0]) && !IsJsSpace(s[|s| - 1])
    ensures JsTrim(s) == s
  {
  }

  /** The id a product card writes into its link is loosely equal to the product's id. */
  lemma LinkFindsProduct(id: Id)
    ensures LooseEquals(id, IdText(id))
  {
    if id.IntId? {
      if id.n < 0 {
        NegativeNumeral(id.n);
      } else {
        NonNegativeNumeral(id.n);
      }
    }
  }

  lemma NonNegativeNumeral(n: nat)
    ensures ToNumber(IntToString(n)) == Some(n)
  {
    var t := NatToString(n);
    assert IsDigit(t[0]) && IsDigit(t[|t| - 1]);
    TrimUnchanged(t);
    NumberOfDigits(t, t);
    DigitsValueOfNatToString(n);
  }

  lemma NegativeNumeral(n: int)
    requires n < 0
    ensures ToNumber(IntToString(n)) == Some(n)
  {
    var m: nat := -n;
    var d := NatToString(m);
    NegativeNumeralTrimmed(n);
    DigitsValueOfNatToString(m);
    NegatedNumeral(IntToString(n), d, m);
  }

  /** A string that trims to '-' and a numeral of value `m` reads as `-m`. */
  lemma NegatedNumeral(s: string, d: string, m: nat)
    requires JsTrim(s) == "-" + d && IsDigits(d) && DigitsValue(d) == m
    ensures ToNumber(s) == Some(0 - m as int)
  {
    assert ("-" + d)[1..] == d;
  }

  lemma NegativeNumeralTrimmed(n: int)
    requires n < 0
    ensures JsTrim(IntToString(n)) == "-" + NatToString(-n)
  {
    var d := NatToString(-n);
    var t := "-" + d;
    assert t[|t| - 1] == d[|d| - 1] && IsDigit(d[|d| - 1]);
    TrimUnchanged(t);
  }

  /** A string that trims to a numeral reads as its value. */
  lemma NumberOfDigits(s: string, t: string)
    requires JsTrim(s) == t && IsDigits(t)
    ensures ToNumber(s) == Some(DigitsValue(t))
  {
  }

  /** A space on either side is trimmed away. */
  lemma TrimSurroundingSpaces(t: string)
    requires t != [] && !IsJsSpace(t[0]) && !IsJsSpace(t[|t| - 1])
    ensures JsTrim(" " + t + " ") == t
  {
    var s := " " + t + " ";
    assert s[1..] == t + " ";
    assert TrimStart(s, IsJsSpace) == t + " ";
    assert (t + " ")[..|t|] == t;
  }

  /** A numeric id also matches a parameter written with a leading zero and surrounding spaces,
      which a string id holding the same digits does not. */
  lemma LooseEqualsPadded(n: nat)
    ensures LooseEquals(IntId(n), " 0" + NatToString(n) + " ")
    ensures !LooseEquals(StrId(NatToString(n)), " 0" + NatToString(n) + " ")
  {
    var t := "0" + NatToString(n);
    assert " 0" + NatToString(n) + " " == " " + t + " ";
    TrimSurroundingSpaces(t);
    LeadingZeroValue(NatToString(n));
    NumberOfDigits(" " + t + " ", t);
    DigitsValueOfNatToString(n);
  }

  /** One row of the specifications table. */
  datatype SpecRow = KeyValue(key: string, value: string) | Whole(text: string)

  /** The row for a feature string: two cells when splitting on ':' yields exactly two parts,
      each trimmed; otherwise one cell holding the feature as written. */
  function SpecificationRow(feature: string): (r: SpecRow)
    ensures r.KeyValue? <==> Count(feature, ':') == 1
    ensures r.KeyValue? ==>
      var i := FirstIndex(feature, ':');
      i < |feature| && r.key == JsTrim(feature[..i]) && r.value == JsTrim(feature[i + 1..])
    ensures r.Whole? ==> r.text == feature
  {
    var cells := Split(feature, ':');
    SplitCount(feature, ':');
    if |cells| == 2 then
      SplitSingle(feature, ':');
      KeyValue(JsTrim(cells[0]), JsTrim(cells[1]))
    else Whole(feature)
  }

  /** The rows of a features array; an entry that is not a string makes `feature.split` throw. */
  function SpecificationRows(features: seq<Value>): (r: Result<seq<SpecRow>>)
    ensures r.Ok? <==> forall i :: 0 <= i < |features| ==> features[i].Str?
    ensures r.Ok? ==> |r.value| == |features|
    ensures r.Ok? ==> forall i :: 0 <= i < |features| ==> r.value[i] == SpecificationRow(features[i].s)
  {
    if features == [] then Ok([])
    else if !features[0].Str? then Err("TypeError: feature.split is not a function")
    else
      match SpecificationRows(features[1..])
      case Err(e) => Err(e)
      case Ok(rest) =>
        assert forall i :: 1 <= i < |features| ==> features[i] == features[1..][i - 1];
        Ok([SpecificationRow(features[0].s)] + rest)
  }
}
