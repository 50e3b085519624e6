# Dinax storefront catalog logic

This Dafny project models the data-shaping core of the Dinax storefront. That core lives in two places: the browser script `script.js` and the spreadsheet converter `convert_xlsx_to_json.py`.

## What is modelled

**The browser script**
- Which products are complete enough to show.
- How a category id becomes its display name.
- How image paths become their `_main` variant and their legacy numbered variants.
- Which picture a product card shows.
- How the related-products strip is picked.
- The catalog query: category, search, sort, then the completeness filter.
- The "Key: Value" split of a specification row.
- The counter join over the image probes of the product gallery.

**The converter**
- It turns each worksheet row into a product record: header-to-field mapping, category normalisation, list splitting, image-path normalisation, the default category image and the automatic id.
- It builds the sorted category list.

**Modules**
- `Strings`, `Seqs` and `Sorting` are helpers:
  - trimming, splitting, joining and decimal numerals;
  - filtering;
  - a stable insertion sort and the sorted list of a set of strings.
- `Catalog` holds the product record and the completeness rule, plus the category lookup, the loose id comparison and the specification rows.
- `Images` holds the file-name pattern `^(.+?)(\d*)(\.[^.]+)$`, getMainImagePath, getImageVariants and the card image.
- `Query` is filterProducts.
- `Related` is loadRelatedProducts.
- `Gallery` is the probe counter join. Its callback state is the class `GalleryCheck`.
- `Converter` is the spreadsheet converter.

**Imperative parts**
The source's loops and in-place updates stay imperative. Each is a method proved equal to a specification function, and the source's promises are lemmas about that function:
- the variant loop;
- the related-products tiers;
- filterProducts;
- the gallery callback;
- the converter's row, column, image and category loops.

**Parameters instead of library behaviour**
- Unicode case mapping is a function parameter: JavaScript `toLowerCase`, Python `lower()` and `capitalize()`.
- `localeCompare` is an abstract comparison `leq`. The lemmas that need it to be a total preorder say so.

**Where the model follows the code rather than its comments**
- Tier three of the related products can never add a product. `Related.ThirdTierEmpty` proves this.
- A path without a '/' gets a leading '/' from getMainImagePath: `photo1.png` becomes `/photo_main.png`.
- The id test of the header mapping matches any header containing the letters "id", such as "video" or "width".
- The header keywords with accents are written in the source as UTF-8 bytes read as Latin-1, for example `cÃ³digo`. Python's `lower()` turns the `Ã` of a header into `ã`, so these keywords never match a header. `Converter.Keywords` keeps the spellings as written, and only the plain keywords (`code`, `category`, …) classify a header.
- The automatic id is `len(products) + 1` at the time of appending. It can repeat an explicit id from another row.

## Model

| member | source | states |
|---|---|---|
| Catalog.IsProductComplete | script.js:190-215 | a product is complete exactly when its description is a string with a visible character and its details and features each hold a truthy entry whose text has a visible character |
| Catalog.DescriptionComplete | script.js:192-194 | the description test passes exactly for a string with a non-space character |
| Catalog.ListComplete | script.js:197-212 | the details and features test passes exactly for an array with a meaningful entry |
| Catalog.AnyMeaningful | script.js:200 | `some(d => d && String(d).trim() !== '')` holds exactly when some entry is truthy and its string form has a visible character |
| Catalog.GetCategoryName | script.js:218-221 | the name of the first category with that id, and the id itself when no category has it |
| Catalog.LinkFindsProduct | script.js:182 | the id a card writes into its `?id=` link compares loosely equal to the product's id |
| Catalog.ToNumber | script.js:298 | `Number()` of a parameter is defined exactly for a blank string and an optionally signed decimal numeral after trimming; the value is 0 for a blank string and the numeral's value, negated after a '-', otherwise; a negative value needs a leading '-' |
| Catalog.LooseEquals | script.js:298 | `p.id == param`: a string id compares as text, a numeric id with the parameter read as a number |
| Catalog.LooseEqualsPadded | script.js:298 | a numeric id matches a parameter with a leading zero and spaces; a string id with the same digits does not |
| Catalog.NonNegativeNumeral | script.js:298 | the decimal text of a non-negative numeric id reads back as that number |
| Catalog.NegativeNumeral | script.js:298 | the decimal text of a negative numeric id reads back as that number |
| Catalog.SpecificationRow | script.js:405-415 | two trimmed cells, split at the ':', exactly when the feature holds one ':'; otherwise one cell with the feature as written |
| Catalog.SpecificationRows | script.js:403-419 | the rows exist exactly when every feature is a string; then there is one row per feature, in order |
| Images.MatchFileName | script.js:233 | a match carries the groups the lazy pattern reports; no match means no split into base, digits and extension exists |
| Images.RegexGroupsUnique | script.js:233 | the pattern's groups are determined by the name |
| Images.MatchOfParts | script.js:233 | a name built from a base ending in a non-digit, digits and an extension matches with that base and extension |
| Images.MatchedBaseShape | script.js:233 | a reported base is one character or ends in a non-digit |
| Images.PathParts | script.js:228-230 | the last piece of the '/'-split is the file name after the last '/', and the other pieces rejoin to the directory before it |
| Images.GetMainImagePath | script.js:224-242 | an empty path, or a file name the pattern rejects, is returned unchanged; otherwise the result is `dir/base_main.ext` from the pattern's base and extension |
| Images.GetImageVariants | script.js:245-279 | an array keeps exactly its non-`_main` entries in order; an empty path gives nothing; an unmatched name gives itself; otherwise 11 paths, the unnumbered one and then numbers 1 to 10 |
| Images.NumberedVariants | script.js:268-276 | the loop yields the 11 variants in order |
| Images.VariantsShareMainImage | script.js:224-279 | every synthesised variant maps to the same `_main` image as the path it came from |
| Images.VariantParts | script.js:256-276 | a variant stays in the original directory, and the pattern finds in it the original base and extension |
| Images.CardImage | script.js:167 | the first `images` entry containing `_main`, else the first entry, else the `image` field |
| Images.CardImageIsOwn | script.js:340 | a card (grid or related strip) shows one of the product's own pictures |
| Gallery.GalleryAfter | script.js:487-523 | the page after some reports: shown only once the count has reached a non-zero number of candidates, with the main image the first thumbnail; hidden means no main image and no thumbnails |
| Gallery.Loaded | script.js:482-484 | the successful paths, which are exactly the paths of the successful reports, never more than there are reports |
| Gallery.GalleryCandidates | script.js:429-430 | no candidate exactly when there are no images and no image; every candidate is one of the product's pictures |
| Gallery.GalleryCheck.constructor | script.js:441-464 | the check starts with its candidates and no report, so the gallery is hidden, nothing is counted and nothing has loaded |
| Gallery.GalleryCheck.OnChecked | script.js:480-525 | each report is counted, a success is appended in report order, and the gallery is rendered at the report that completes the count |
| Gallery.ResolveGallery | script.js:441-527 | delivering the reports one by one leaves the page as the count-based specification says, and hidden when there is no candidate |
| Gallery.AllReportedShowsAnyLoaded | script.js:487-523 | once every candidate has reported, the gallery is visible exactly when some image loaded, and it shows every success in report order |
| Gallery.HiddenUntilAllReported | script.js:487 | nothing is shown before the count reaches the number of candidates |
| Gallery.LateReportsIgnored | script.js:487 | reports beyond the expected count change nothing |
| Gallery.ThumbnailsAreLoadedCandidates | script.js:479-484 | every thumbnail is a candidate whose probe reported success |
| Query.SearchHit | script.js:555-560 | the four field tests in order, the first hit ending the test; reaching a truthy non-string description throws |
| Query.ApplySort | script.js:564-575 | the sort step keeps the products it is given; any sort value other than 'name' and 'category' keeps their order |
| Query.CatalogQuery | script.js:542-578 | the query is skipped exactly for an empty catalog; it can throw only for a non-blank search; what is rendered is the complete part of the list, in order |
| Query.FilterOrThrow | script.js:555-560 | a filter with a throwing test succeeds exactly when no element throws, keeps the accepted elements in order, and otherwise reports the first throw |
| Query.FilterProducts | script.js:537-578 | the step-by-step query equals the query specification; it skips exactly when there are no products; it renders the complete products of the filtered list in order |
| Query.CandidatesAreHits | script.js:544-561 | without a throw, the category and search steps keep exactly the matching products, in catalog order |
| Query.Candidates | script.js:544-561 | the category and search steps: without a search term they cannot throw, and every product they keep comes from the catalog |
| Query.ThrowsExactly | script.js:553-561 | the query throws exactly when the trimmed term is non-empty and some product of the category reaches a truthy non-string description without an earlier hit |
| Query.SearchThrows | script.js:555-560 | the search step throws exactly when one of its products makes the test throw |
| Query.QueryKeepsCategory | script.js:548-550 | with a selected category, every listed product belongs to the catalog and has that category |
| Query.QueryAllListsCatalog | script.js:544-578 | `'all'`, a blank search and `'newest'` list the catalog as it is and render its complete products |
| Query.QueryNewestKeepsOrder | script.js:572-574 | without a name or category sort, the list is the matching products in catalog order |
| Query.QueryByNameSorted | script.js:566-568 | sorting by name gives a name-ordered permutation of the hits that keeps equal names in catalog order |
| Query.QueryByCategorySorted | script.js:569-571 | sorting by category gives a category-ordered permutation of the hits that keeps each category's products in catalog order |
| Query.ApplySortTwice | script.js:564-575 | sorting a sorted list again leaves it as it is |
| Query.QueryIdempotent | script.js:544-578 | running the same query on its own non-empty result gives the same result |
| Related.LoadRelatedProducts | script.js:287-325 | nothing is shown without products, without an id or without a product of that id; otherwise the related list holds only complete catalog products other than the current one, min(4, candidates) of them, same category first, and no id twice when the catalog has none twice |
| Related.Tiers | script.js:305-316 | the first two tiers never hold more than four products |
| Related.RemainingTier | script.js:320-322 | the third tier holds at most `4 - length` products, none when four are already chosen, each a complete product that is not the current one and whose id is not already chosen |
| Related.PickRelated | script.js:305-325 | the three tiers, reassigned in turn, give the two-tier selection |
| Related.CurrentProductFound | script.js:298-299 | `find` reports no product exactly when no id compares loosely equal, and otherwise the first match |
| Related.CurrentProduct | script.js:298 | a product that `find` reports is in the catalog, and its id compares loosely equal to the parameter |
| Related.TiersProperties | script.js:302-325 | the selection over the complete products keeps every guarantee of the strip |
| Related.TiersMembers | script.js:305-316 | every selected product is a candidate other than the current product |
| Related.ThirdTierEmpty | script.js:319-325 | when the first two tiers leave room, the third tier finds nothing to add |
| Related.TiersCount | script.js:305-316 | the two tiers hold min(4, number of candidates other than the current product) products |
| Related.TiersOrdered | script.js:305-316 | same-category products come before products of other categories |
| Related.TiersUnique | script.js:305-316 | no id is chosen twice when the complete products have distinct ids |
| Sorting.SortBy | script.js:566-571 | the sort keeps the multiset of its input |
| Sorting.SortBySorted | script.js:566-571 | the result is ordered by the key |
| Sorting.SortByStable | script.js:566-571 | elements with equal keys keep their relative order |
| Sorting.SortedStrings | convert_xlsx_to_json.py:208 | `sorted(set)` lists each element of the set once, in strictly increasing order |
| Strings.JoinSplit | script.js:228-230 | joining the '/'-pieces of a path gives the path back |
| Strings.TrimIdempotent | script.js:553 | trimming twice is trimming once |
| Converter.Classify | convert_xlsx_to_json.py:56-106 | a header maps to the first field in the chain whose test it passes, and to none when it passes no test |
| Converter.HeaderKey | convert_xlsx_to_json.py:53 | the header key `str(header).lower().strip()`, with `lower()` a parameter; `HeaderKeyStripped` states that it has no edge space, and `Classify` classifies it |
| Converter.HeaderKeyStripped | convert_xlsx_to_json.py:53 | the key a header is classified by, `str(header).lower().strip()`, has no space at either end |
| Converter.HeadersWithIdInside | convert_xlsx_to_json.py:56 | "video" and "width" fill the id field, since the id test comes first |
| Converter.StripAll | convert_xlsx_to_json.py:94 | each piece is stripped, one for one |
| Converter.SplitEntries | convert_xlsx_to_json.py:94-95 | every entry is stripped, non-empty and free of the separator, and every non-blank piece of the split appears stripped |
| Converter.SemicolonListRoundTrip | convert_xlsx_to_json.py:93-112 | clean entries joined with ';' split back one for one, as details, features or images |
| Converter.CommaListRoundTrip | convert_xlsx_to_json.py:93-112 | clean entries joined with ',' and without ';' split back one for one, as details, features or images |
| Converter.NewlineListRoundTrip | convert_xlsx_to_json.py:93-101 | with neither ';' nor ',' in the cell, details and features fall back to newlines: clean entries written one per line split back one for one |
| Converter.SingleImageCell | convert_xlsx_to_json.py:110-112 | images have no newline fallback: a cell with neither ';' nor ',' is one stripped entry, or none when blank |
| Converter.ListSeparator | convert_xlsx_to_json.py:93-101 | the separator of a details or features cell: ';' when present, else ',', else newline; its effect is stated by the three list round trips |
| Converter.ImageSeparator | convert_xlsx_to_json.py:110 | the separator of an images cell: ';' when present, else ','; its effect is stated by `SemicolonListRoundTrip`, `CommaListRoundTrip` and `SingleImageCell` |
| Converter.SplitList | convert_xlsx_to_json.py:93-103 | a details or features cell split at its separator, stripped and filtered; its entries are stated by `SplitEntries` and the list round trips |
| Converter.SplitImages | convert_xlsx_to_json.py:110-112 | an images cell split at its separator, stripped and filtered; its entries are stated by `SplitEntries`, the round trips and `SingleImageCell` |
| Converter.CategorySlug | convert_xlsx_to_json.py:85 | the fallback slug has no space |
| Converter.NormalizeCategory | convert_xlsx_to_json.py:63-86 | a table spelling maps to its table id, which has a default picture and a display name; any other spelling maps to its slug |
| Converter.LoweredCategorySlug | convert_xlsx_to_json.py:63-85 | for a lower-cased cell outside the table, the slug is the cell with spaces turned into hyphens |
| Converter.DefaultImage | convert_xlsx_to_json.py:173-191 | the category's picture, or the electronics picture for a category without one |
| Converter.DefaultImageRooted | convert_xlsx_to_json.py:176-191 | every default picture is under assets/ and has an extension |
| Converter.CleanImage | convert_xlsx_to_json.py:133 | the cleaned entry has no space at either end and holds only characters of the entry |
| Converter.WithExtension | convert_xlsx_to_json.py:165-166 | the path is extended, never changed, and its file name has a '.'; a path whose file name already has a '.' is kept as it is |
| Converter.CodedImagePath | convert_xlsx_to_json.py:146-162 | every constructed path lies under the product image folder and ends in the name's last character |
| Converter.NormalizeImage | convert_xlsx_to_json.py:133-168 | every normalised entry is rooted and has a '.' in its file name |
| Converter.NormalizeImagePlace | convert_xlsx_to_json.py:136-162 | a rooted entry stays where it is, gaining at most ".png"; any other entry goes under the product image folder |
| Converter.SuffixImage | convert_xlsx_to_json.py:153-154 | a name starting with '_' is appended to the product code |
| Converter.NumberImage | convert_xlsx_to_json.py:155-156 | a numeric name is appended to the product code |
| Converter.CodedImage | convert_xlsx_to_json.py:148-150 | a name starting with the code is used as it is |
| Converter.JoinedImage | convert_xlsx_to_json.py:157-159 | any other name holding the code is joined to the code with '_' |
| Converter.BareImage | convert_xlsx_to_json.py:160-162 | without a code, or a name without the code, '_' or digits only, the name is used as it is |
| Converter.DottedImage | convert_xlsx_to_json.py:160-166 | a name that already has an extension, and is not completed from the code, goes under the product image folder without '.png' |
| Converter.NormalizeImageEnds | convert_xlsx_to_json.py:133-168 | a normalised entry has no space at either end and no trailing ';' |
| Converter.NormalizeImageIdempotent | convert_xlsx_to_json.py:123-170 | normalising a normalised entry changes nothing |
| Converter.FinalImageFixed | convert_xlsx_to_json.py:136-141 | a clean rooted path with an extension is left as it is |
| Converter.CellId | convert_xlsx_to_json.py:57 | a text cell stays a text id; numbers and booleans become integer ids |
| Converter.ColumnValue | convert_xlsx_to_json.py:57-114 | every value a column stores has the kind its field holds |
| Converter.LastAssigning | convert_xlsx_to_json.py:44-114 | the position of the last column assigning a field, with none after it |
| Converter.LastColumnWins | convert_xlsx_to_json.py:44-114 | a field holds the value of the last column that assigns it, and is absent when none does |
| Converter.CategoriesOf | convert_xlsx_to_json.py:87 | the ids added to the category set are exactly the normalised categories the row's columns store |
| Converter.RowFields | convert_xlsx_to_json.py:41-114 | the record a row builds holds in each field a value of that field's kind |
| Converter.ConvertRow | convert_xlsx_to_json.py:41-114 | the column loop builds the specified record and the row's category ids |
| Converter.NormalizedImagesRooted | convert_xlsx_to_json.py:124-170 | one final path per non-empty entry, every one rooted with an extension |
| Converter.NormalizedImages | convert_xlsx_to_json.py:124-170 | the normalised images: empty entries dropped, the rest normalised in order; `NormalizedImagesRooted` states that each is a final path |
| Converter.NormalizeImages | convert_xlsx_to_json.py:124-170 | the image loop builds the specified list |
| Converter.FinishedProductShape | convert_xlsx_to_json.py:117-193 | an appended record gets an id, `count + 1` when it has none; its images are final paths or its category's picture, never empty; nothing else changes |
| Converter.FinishedProduct | convert_xlsx_to_json.py:117-191 | the record appended for a named row: id, normalised images, default image; `FinishedProductShape` and `FinishedProductShaped` state what it guarantees |
| Converter.FinishProduct | convert_xlsx_to_json.py:117-193 | the steps after the column loop give the specified record |
| Converter.FinishedProductShaped | convert_xlsx_to_json.py:117-193 | a named, well-typed record leaves named, with an id, well-typed and with final images |
| Converter.Numbered | convert_xlsx_to_json.py:119-120 | the j-th record is finished with count j |
| Converter.NumberedAppend | convert_xlsx_to_json.py:193 | appending one record finishes it at the position it takes |
| Converter.AddRowCategories | convert_xlsx_to_json.py:37-87 | a pass adds the row's category ids to the set unless the row is empty, named or not |
| Converter.AddRow | convert_xlsx_to_json.py:35-193 | one row of the sheet: the category set only grows, and the product list keeps what it had and gains at most one record at its end |
| Converter.NamedRecordsAppend | convert_xlsx_to_json.py:35-117 | a row adds a record exactly when it is not empty and has a name |
| Converter.Converted | convert_xlsx_to_json.py:35-193 | there are never more products than rows |
| Converter.ConvertedProducts | convert_xlsx_to_json.py:35-193 | the products are the named non-empty rows' records in sheet order, the j-th with automatic id j + 1 |
| Converter.ConvertedShaped | convert_xlsx_to_json.py:35-193 | every product written has its final shape |
| Converter.ConvertedCategories | convert_xlsx_to_json.py:35-87 | the category set holds exactly the categories of the non-empty rows |
| Converter.ConvertRows | convert_xlsx_to_json.py:35-193 | the row loop builds the specified products and category set |
| Converter.BuildCategories | convert_xlsx_to_json.py:196-212 | one entry per id of the set, in strictly increasing order, each with its table name or its capitalised id |
| Converter.Convert | convert_xlsx_to_json.py:11-218 | the products are the finished named rows in sheet order, all in final shape; the category list holds exactly the sheet's categories, sorted, without duplicates and named |

## Left out

- Query.ApplySort: records are taken to carry `name` and `category` as strings. A record without them makes `localeCompare` throw a TypeError when sorting by that key. The converter can write such a record, since it gives no default category. That error path is not modelled.
- The product link is written without URL encoding and read back through `URLSearchParams`. A string id holding `+`, `%`, `&` or `#` comes back changed or cut short, and this is not modelled.
- Two products whose ids compare loosely equal are not modelled as clashing. `find` opens the first of them for either link, for example for `3` next to `"3"`, or for an automatic id that repeats an explicit one.
- The DOM work of the script is not modelled: element lookup, `innerHTML` and card markup, event listeners, tabs, the menu, scrolling, the thumbnail `100/100` to `500/500` swap, alerts and redirects. It is presentation glue. The query's DOM inputs (the active category button, the sort selector, the search box) become parameters.
- `fetch` and the JSON loading of products and categories are network I/O. The catalog and category list are parameters.
- The asynchronous `Image` probes are browser I/O. Their outcomes are a parameter: a sequence of reports in arrival order.
- `localeCompare` and Unicode `toLowerCase`, `lower()` and `capitalize()` are library behaviour. They are parameters. Sorting is proved ordered, a permutation and stable for any total preorder.
- Reading the workbook, `os.path.exists`, writing products.json and printing are file I/O and a foreign library. The workbook is given as its header row and data rows of optional cells.
- watch_excel.py is a filesystem watcher with subprocess and timing plumbing. It holds no catalog logic.
- Floating-point and date cells, and `int()` of a float, need floating point. Cells are text, integers and booleans.
- `Number()` in the loose id comparison is restricted to trimmed, optionally signed decimal integers and the empty string. Hexadecimal, exponents, fractions and NaN are not modelled. Ids are unbounded integers, where JavaScript numbers are doubles: a parameter such as "9007199254740993" reads as 9007199254740992 in JavaScript, and `${1e21}` is "1e+21" where `IdText` gives every digit; the core compares only ids of ordinary size.
- `isdigit()` is limited to the ASCII decimal digits. Other Unicode digits are not modelled. `trim()` and `strip()` use the full JavaScript and Python space sets.
- A product record's fields are a map, so JSON key order is not kept.
- JavaScript values the core never reads (the contents of objects) are one opaque value. NaN is not a modelled number.
- The `img in ['0', …, '5']` alternative of convert_xlsx_to_json.py:155 is not modelled separately. `isdigit()` already implies it.
