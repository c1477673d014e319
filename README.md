# Pinellas County proposal app: parcel, city and paragraph rules

This project models the deterministic core of `app.py`, the Streamlit app
that drafts land-development proposals for parcels in Pinellas County,
Florida. It covers:

- the parcel-ID check the intake form runs;
- the dashed layout of an 18-character parcel number sent to the property
  appraiser's quick search, and the dash-free "strap" that keys the
  property-details page;
- the tax-district code table, its extension with the city names of the
  city-lookup file, `expand_city_name`, and the choice of a zoning-map link;
- the search form, the reading of the search answer, the row cells, the
  square-footage text and its parse, the land-use text with its DOR code
  removed, and the record `scrape_pinellas_property` returns;
- the auto-generated "Project Understanding" paragraph.

Modules:

- `Wrappers`: `Option` and `Result`.
- `Strings`: the Python `str` operations the app relies on: `isspace`,
  `strip`, ASCII `upper`/`lower`/`title`, `split` on one character, `join`,
  `replace(c, "")`, `rstrip(c)`, `str(n)` and `int(s)`.
- `ParcelId`: validation, normalisation and the strap.
- `CityLookup`: city expansion, the `setdefault` extension, the by-name
  index and the map link.
- `CityTable`: the built-in code table.
- `Scrape`: the search form, the search answer, square footage, land use,
  the details page and the property record.
- `Understanding`: the paragraph.

Imperative code keeps its shape. The form-building loop, the `setdefault`
loop, the first-hit loop of the map link, the swap of the strap
derivation and the list appends of the paragraph are methods. Each method
is proved against a function or predicate, and the properties are proved
about that function or predicate.

The outside world is an input. BeautifulSoup's `get_text(strip=True)` is the
function parameter `getText`. The decoded search answer, or the exception
raised while getting it, is a `Result<SearchResponse>`. The details page is
a `DetailsPage` value holding what its two regular-expression scans found.
The loaded city-lookup dictionary is the sequence of its items, in the
dictionary's order, so the names in it are distinct.

## Model

| member | source | states |
|---|---|---|
| `ParcelId.ValidateParcelId` | app.py:331-338 | Accepts exactly the non-empty IDs of at most 30 characters made of ASCII letters, digits, `-`, whitespace and `.`. The empty check comes first, then the length check, then the character check, and the first failure picks its message. An accepted ID gets the empty message. |
| `ParcelId.MatchesIdPattern` | app.py:336 | `re.match` of `^[A-Za-z0-9\-\s\.]+$`. Its partner `MatchesIdPatternExactly` proves it holds exactly for a non-empty run of letters, digits, dashes, whitespace and full stops; the final line feed Python's `$` lets through is whitespace and so adds nothing. |
| `ParcelId.MatchesIdPatternExactly` | app.py:336 | The pattern `^[…]+$` with Python's `$`, which also matches before a final newline, accepts exactly the non-empty runs of class characters. |
| `ParcelId.Normalize` | app.py:371-373 | The result has no whitespace at either end. Deleting its dashes gives the trimmed input with its dashes deleted. |
| `ParcelId.NormalizeEighteen` | app.py:371-373 | A trimmed, dash-free, 18-character ID gives 23 characters that split on `-` into the groups of lengths 2, 2, 2, 5, 3 and 4. Deleting the dashes gives the trimmed input back. |
| `ParcelId.NormalizeOtherwise` | app.py:371-373 | Any other input is only trimmed. |
| `ParcelId.NormalizeIdempotent` | app.py:371-373 | Normalising twice is normalising once. |
| `ParcelId.NormalizeExample` | app.py:371-373 | `193117731660010010` becomes `19-31-17-73166-001-0010`. |
| `ParcelId.StrapSixSegments` | app.py:419-422 | With six segments the strap is segment 2, 1, 0, 3, 4, 5 run together. |
| `ParcelId.StrapRearranges` | app.py:419-424 | The strap holds no dash. It has the same characters, as many times each, as the ID with its dashes deleted. Its length is the ID's length less its dashes. |
| `ParcelId.StrapOfEighteen` | app.py:371-373 | For an 18-character dash-free ID, the strap of its normalised form is characters 4-5, then 2-3, then 0-1, then the last twelve in place. |
| `ParcelId.Strap` | app.py:419-424 | The strap of a normalised ID. `StrapSixSegments` proves it is segments 2, 1, 0, 3, 4, 5 joined when there are six; `StrapRearranges` proves it has no dash and the same non-dash characters as the ID; `StrapOfEighteen` ties it to an 18-character ID. |
| `ParcelId.DeriveStrap` | app.py:419-424 | The split, the swap of the first and third segment and the join compute `Strap`. |
| `CityLookup.ExpandCityName` | app.py:325-329 | The empty code gives "Unincorporated Pinellas". A code whose trimmed, upper-cased key is in the table gives the table's value. Any other code is returned untouched. |
| `CityLookup.ExpandCityNameIdempotent` | app.py:325-329 | Under a stable table, expanding an expanded name changes nothing. |
| `CityTable.ExpandCityNameExamples` | app.py:250-285 | `SP` expands to "St. Petersburg" and the empty code to "Unincorporated Pinellas". |
| `CityLookup.CityKeyIdempotent` | app.py:298 | A trimmed, upper-cased name is its own key. |
| `CityLookup.CityKeyOfTitle` | app.py:303 | The key of the title-cased form of a key is that key. |
| `CityLookup.CityKey` | app.py:328 | `strip().upper()`. `CityKeyIdempotent` proves a key is its own key and `CityKeyOfTitle` that title-casing a key does not change its key. |
| `CityLookup.NameKey` | app.py:308 | `strip().lower()`. `TitledNameKey` proves the name key of a title-cased city key is the name key of the original name. |
| `CityLookup.TitledNameKey` | app.py:302-308 | A name put into the city map as `title()` of its upper-cased key has the same lower-cased key as the lookup item it came from. |
| `CityLookup.CityAppNamesAreKeys` | app.py:297-301 | Every name taken from the lookup file is already a key, and every `city_app` entry contributes its key. |
| `CityLookup.CityAppNames` | app.py:297-301 | The trimmed, upper-cased names of the `city_app` items. `CityAppNamesAreKeys` proves each is its own `CityKey`. |
| `CityLookup.ExtendCityMap` | app.py:302-303 | The `setdefault` loop leaves the old keys plus the new names. Every old entry is kept as it was, and every new name maps to its title-cased form, whatever order the set gives. |
| `CityLookup.ExtendKeepsStable` | app.py:302-303 | Extending a stable table with non-empty keys keeps it stable. |
| `CityLookup.KeptNameStable` | app.py:302-303 | A name stable under the old table stays stable under the extended one. |
| `CityLookup.NewNameStable` | app.py:302-303 | A name added by the extension maps to a stable name. |
| `CityLookup.IndexByKeys` | app.py:295 | The by-name index holds exactly the keys of the file's object entries. |
| `CityLookup.IndexByLastWins` | app.py:295 | Where several entries share a key, the index holds the fields of the last of them. |
| `CityLookup.IndexBy` | app.py:295 | A dictionary comprehension over the object items. `IndexByKeys` proves its keys are exactly the keys of those items and `IndexByLastWins` that the last item with a key gives the value. |
| `CityLookup.NameIndex` | app.py:295 | `CITY_LOOKUP_BY_NAME`, the index by `strip().lower()`. `LookupCityFound` proves which city names it holds. |
| `CityLookup.LookupCityFound` | app.py:295-309 | Every city a `city_app` item adds to the city map is found again in the by-name index by `_get_city_map_url`. |
| `CityLookup.GetCityMapUrl` | app.py:305-323 | The result is nothing exactly when the name is empty, its key is not in the index, or no preferred key holds a non-empty value. Otherwise it is the value of the first preferred key that does. |
| `Scrape.BuildSearchPayload` | app.py:375-391 | The form holds exactly the eight fixed entries and six settings for each of the 11 columns, each with its value: the column number, an empty name, searchable, orderable from column 2 on, and an empty non-regex search. |
| `Scrape.BasePayload` | app.py:375-384 | The eight fixed form entries. `BuildSearchPayload` proves they stay in the final form and `ColumnKeyNotBase` that no column setting overwrites them. |
| `Scrape.ColumnKey` | app.py:385-391 | The key `columns[i][setting]`. `ColumnKeyInjective` proves different columns or settings give different keys and `ColumnKeyNotBase` that no key is a fixed one. |
| `Scrape.ColumnValue` | app.py:386-391 | The value of one column setting. `BuildSearchPayload` proves each of the eleven columns has its six settings with these values. |
| `Scrape.ColumnKeyInjective` | app.py:385-391 | Different columns or settings give different keys, so no write of the loop overwrites another. |
| `Scrape.ColumnKeyNotBase` | app.py:375-391 | No column key is one of the fixed keys. |
| `Scrape.AddColumnStep` | app.py:385-391 | One round of the loop adds the six settings of the next column and keeps everything else. |
| `Scrape.FirstRow` | app.py:398-404 | A zero or missing total means "Parcel not found in PCPAO database". Otherwise an empty or missing row list means "No property data returned". Otherwise the first row is read. |
| `Scrape.RowCell` | app.py:406-411 | Cell `i` of the row when it exists, the empty string otherwise. |
| `Scrape.FormatThousandsDigits` | app.py:452 | Deleting the commas of `f"{n:,}"` gives `str(n)`. |
| `Scrape.ParseSqft` | app.py:436 | The parse succeeds exactly when what is left after deleting commas is a non-empty run of digits. The value read is the number whose decimal form those digits are, after any leading zeros. |
| `Scrape.ParseSqftAfterZeros` | app.py:436 | Leading zeros before the display text of a number still read as that number. |
| `Scrape.ParseSqftExample` | app.py:436 | `10,500` reads as 10500. |
| `Scrape.ParseSqftZerosExample` | app.py:436 | `010,500` reads as 10500. |
| `Scrape.SqftRoundTrip` | app.py:436-452 | Parsing the displayed square footage gives the number back. |
| `Scrape.SqftField` | app.py:452 | The field is empty exactly when the square footage is missing or zero. Otherwise it has the `f"{n:,}"` layout, its digits are `str(n)`, and it parses back to the square footage. |
| `Scrape.FormatThousandsLayout` | app.py:452 | `f"{n:,}"` has a comma at every fourth place counted from the right end and only there, digits elsewhere, and no leading zero except in `0`. |
| `Scrape.FormatThousandsExample` | app.py:452 | 10500 displays as `10,500`. |
| `Scrape.FormatThousands` | app.py:452 | `f"{n:,}"`. `FormatThousandsDigits` proves deleting its commas gives `str(n)`, `FormatThousandsLayout` places its commas, and `SqftRoundTrip` proves parsing it gives `n` back. |
| `Scrape.StripDorCode` | app.py:340-348 | Empty input gives `""`. The result has no whitespace at either end and is a suffix of the trimmed text. It differs from the trimmed text exactly when that starts with a digit and holds a space. |
| `Scrape.StripDorCodeDropsToken` | app.py:340-348 | When the text changes, what is dropped is a leading token with no space that starts with a digit, the space after it, and whitespace. |
| `Scrape.StripDorCodeOfCoded` | app.py:340-348 | A code token starting with a digit, a space and a trimmed name gives the name. |
| `Scrape.StripDorCodeExample` | app.py:340-348 | "1234 Single Family" gives "Single Family". |
| `Scrape.ReadDetails` | app.py:413-443 | The square footage is the parsed land-area group when the page was read and the scan matched. The ZIP code is kept only when the page was read, it matched, and neither the `int` nor the `float` before it raised. |
| `Scrape.ScrapeProperty` | app.py:364-458 | An exception gives "Error querying PCPAO API: " and its text, and an unusable answer gives that answer's message. Otherwise the record holds the HTML-stripped cells 2, 5, 7 and 8 as owner, address, land use without its code, and legal description, and cell 6 as the expanded city. It also holds the dash-free strap of the normalised ID, the square-footage text and the ZIP code or `""`. |
| `Scrape.ScrapedCityStable` | app.py:591 | Under a stable table, the form's second expansion of the scraped city changes nothing. |
| `Understanding.When` | app.py:691-720 | A field contributes its sentence exactly when it is non-empty. |
| `Understanding.Present` | app.py:689-720 | The kept sentences number at most the candidates, and there are none exactly when no candidate is present. |
| `Understanding.PresentAppend` | app.py:689-720 | Filtering keeps the order: the sentences of earlier candidates come first. |
| `Understanding.PresentSeven` | app.py:689-720 | The seven candidates contribute their sentences in turn. |
| `Understanding.LocationBits` | app.py:702-708 | The `loc_bits` appends give the present ones of address, city and "county County", in that order. |
| `Understanding.LocationPresent` | app.py:702-710 | The location sentence exists exactly when the address, the city or the county is filled in. The address comes first and the county last. |
| `Understanding.AppendWhen` | app.py:691-720 | One `if field: parts.append(text)` step appends the text exactly when the field is non-empty. |
| `Understanding.UnderstandingParts` | app.py:689-720 | The appends give the present sentences in the order description, location, parcel, land use, acreage, zoning, future land use. |
| `Understanding.NoSections` | app.py:689-720 | There is no sentence exactly when the description is blank and every field read is empty. |
| `Understanding.DescriptionFirst` | app.py:690-692 | A description that is not blank gives the first sentence: trimmed, and without its trailing full stops. |
| `Understanding.FutureLandUseLast` | app.py:719-720 | A future land use gives the last sentence. |
| `Understanding.Sections` | app.py:689-720 | The seven candidate sentences. `NoSections`, `DescriptionFirst`, `FutureLandUseLast` and `UnderstandingParts` state which are kept and in what order. |
| `Understanding.LocationItems` | app.py:702-710 | The `loc_bits` candidates. `LocationBits` and `LocationPresent` state which are kept and when the location sentence exists. |
| `Understanding.Paragraph` | app.py:722-736 | No parts give the placeholder text. Otherwise the result is the parts joined by `. ` less whitespace at either end, closed by a full stop. |
| `Understanding.UnderstandingParagraph` | app.py:689-736 | With nothing to say the placeholder is shown. Otherwise a trimmed text ending in a full stop is shown. |
| `Understanding.ParagraphStartsWithDescription` | app.py:690-692 | A short description that is more than blanks and full stops opens the paragraph: trimmed, without its trailing full stops. |
| `Understanding.ParagraphStartsWithFirst` | app.py:722 | A first part starting with a non-space opens the paragraph, less whitespace at its end. |
| `Understanding.ParagraphOfTrimmedParts` | app.py:722 | Parts that start and end with a non-space are joined as they are, then closed by a full stop. |
| `Understanding.PlaceholderLookalike` | app.py:722-736 | A description that reads like the placeholder, with no intake fields, shows the placeholder text although there is something to say. |
| `Strings.Strip` | app.py:371 | `str.strip()`: the result has no whitespace at either end and is empty exactly when the input is all whitespace. A text already trimmed is unchanged. |
| `Strings.StripKeepsMiddle` | app.py:343 | `s` is whitespace, then `s.strip()`, then whitespace. |
| `Strings.TrimEndChar` | app.py:692 | `rstrip(".")` leaves a prefix that does not end in `.`, followed by nothing but `.`. |
| `Strings.Split` | app.py:419 | `split("-")` gives at least one piece, no piece holds the separator, and joining the pieces on it gives the text back. |
| `Strings.SplitJoin` | app.py:419 | Splitting what was joined on a separator that no part contains gives the parts back. |
| `Strings.RemoveCharJoin` | app.py:424 | Deleting the separator from a join of separator-free parts gives their concatenation. |
| `Strings.Join` | app.py:422 | `str.join`. `SplitJoin`, `JoinFirst`, `JoinLast` and `RemoveCharJoin` state its split, its ends and its separators. |
| `Strings.RemoveChar` | app.py:424 | `replace(c, "")`: the result has no `c` and is shorter by the number of `c` in the input. `RemoveCharJoin` relates it to `Join`. |
| `Strings.UpperOfTitle` | app.py:303 | Upper-casing a title-cased text is upper-casing the text. |
| `Strings.Upper` | app.py:328 | `str.upper()`. `CaseKeepsSpace` proves it keeps whitespace in place, `UpperIdempotent` that it is idempotent and `UpperOfTitle` that it absorbs title-casing. |
| `Strings.Lower` | app.py:308 | `str.lower()`. `LowerOfCase` proves it absorbs upper- and title-casing. |
| `Strings.Title` | app.py:303 | `str.title()`. `CaseKeepsSpace` proves it keeps whitespace in place; `UpperOfTitle` and `LowerOfCase` relate it to the other cases. |
| `Strings.LowerOfCase` | app.py:308 | Lower-casing an upper-cased or a title-cased text gives the lower-cased text. |
| `Strings.ParseDecimalOfDecimal` | app.py:436 | `int(str(n)) == n`. |
| `Strings.DecimalOfParse` | app.py:436 | `str(int(s)) == s` for digits without a leading zero. |
| `Strings.ParseDecimalZeros` | app.py:436 | Leading zeros do not change the value `int` reads. |
| `Strings.DecimalInjective` | app.py:386 | Different column numbers have different decimal forms. |
| `Strings.Decimal` | app.py:386 | `str(n)`: non-empty digits, with a leading zero only in `"0"`. `ParseDecimalOfDecimal` proves `int` reads `n` back and `DecimalInjective` that it is injective. |
| `Strings.ParseDecimal` | app.py:436 | `int` on digits. `ParseDecimalOfDecimal`, `DecimalOfParse` and `ParseDecimalZeros` relate it to `Decimal` and to leading zeros. |

## Left out

- The Streamlit pages, widgets, session state and CSS are not modelled. They are user-interface code.
- The HTTP session, its retry policy, the POST and GET calls and their timeouts are not modelled. Their results are inputs (`answer`, `page`).
- BeautifulSoup's HTML-to-text step is the function parameter `getText`. Its exceptions are not modelled.
- The two regular-expression scans of the details page are not modelled. What they matched is the input `DetailsPage`.
- The acreage is not modelled: its `float` and its `:.2f` display are floating point. `LandArea` keeps only whether `float` accepts the matched group, because a failure there ends the inner `try` before the ZIP code is read.
- The JSON loading of the city-lookup file is not modelled; it is file I/O. The loaded dictionary is an input sequence of its items, with object values read as string fields. Non-string JSON values inside an object are not represented.
- JSON values of the search answer that are not an integer total and a list of string rows are not modelled.
- `Strings.IsDigit`, `Strings.Upper`, `Strings.Lower` and `Strings.Title` handle ASCII only. Python's `str.isdigit`, `\d`, `int`, `upper`, `lower` and `title` also act on other Unicode characters.
- `CityLookup.ExtendKeepsStable`: stability is proved for extensions by non-empty names only. A lookup-file name made only of whitespace would add the key `""`, which maps to itself but does not expand to itself.
- `CityTable.PinellasCityMap` is not proved stable. `StableTable` is a hypothesis of `ExpandCityNameIdempotent` and `ScrapedCityStable`, not a fact about the built-in table.
- `Scrape.StripDorCode`: the code checks only that the first character is a digit. The text after the first space is dropped even when the leading token is not all digits. The model follows the code.
- `Understanding.DescriptionFirst`: a description made only of full stops becomes an empty first sentence. The code appends it anyway, and so does the model.
- `Understanding.UnderstandingParagraph` does not promise that a paragraph with something to say differs from the placeholder text. The code does not promise it either: `Understanding.PlaceholderLookalike` shows a description that produces the placeholder text.
