/** The deterministic parts of `scrape_pinellas_property` (app.py:364-458):
    the form sent to the property appraiser's quick search, the reading of
    its answer, the derived page key, the square-footage text and the
    land-use text. The network calls, the HTML-to-text step and the regular
    expression scans are inputs here. */
module Scrape {
  import opened Wrappers
  import opened Strings
  import ParcelId
  import CityLookup

  // ---------------------------------------------------------------------------
  // The search form
  // ---------------------------------------------------------------------------

  /** The number of table columns the form describes. */
  const ColumnCount := 11

  /** The six settings sent for every column, as key suffixes. */
  const Fields: seq<string> := ["[data]", "[name]", "[searchable]", "[orderable]", "[search][value]", "[search][regex]"]

  /** `f"columns[{i}]{field}"` */
  function ColumnKey(i: nat, f: nat): string
    requires f < |Fields|
  {
    "columns[" + Decimal(i) + "]" + Fields[f]
  }

  /** The value the loop stores for setting `f` of column `i`: the column's
      number, an empty name, searchable, orderable from column 2 on, and an
      empty, non-regular-expression search. */
  function ColumnValue(i: nat, f: nat): string
    requires f < |Fields|
  {
    if f == 0 then Decimal(i)
    else if f == 2 then "true"
    else if f == 3 then (if i >= 2 then "true" else "false")
    else if f == 5 then "false"
    else ""
  }

  /** The entries of the form written before the loop. */
  function BasePayload(input: string): map<string, string> {
    map[
      "draw" := "1",
      "start" := "0",
      "length" := "10",
      "search[value]" := "",
      "search[regex]" := "false",
      "input" := input,
      "searchsort" := "parcel_number",
      "url" := "https://www.pcpao.gov"
    ]
  }

  /** `k` names a setting of one of the first `n` columns. */
  ghost predicate IsColumnKeyBelow(k: string, n: nat) {
    exists i: nat, f: nat :: i < n && f < |Fields| && k == ColumnKey(i, f)
  }

  /** The form holds the fixed entries and the settings of the first `n`
      columns, each with its own value, and nothing else. */
  ghost predicate HasColumns(input: string, n: nat, payload: map<string, string>) {
    && (forall k :: k in payload <==> k in BasePayload(input) || IsColumnKeyBelow(k, n))
    && (forall k :: k in BasePayload(input) ==> payload[k] == BasePayload(input)[k])
    && (forall i: nat, f: nat :: i < n && f < |Fields| ==> ColumnKey(i, f) in payload && payload[ColumnKey(i, f)] == ColumnValue(i, f))
  }

  /** A column key starts with `c`; no fixed key does. */
  lemma ColumnKeyNotBase(input: string, i: nat, f: nat)
    requires f < |Fields|
    ensures ColumnKey(i, f) !in BasePayload(input)
  {
    assert ColumnKey(i, f)[0] == 'c';
  }

  /** Different columns or different settings give different keys, so no
      write of the loop overwrites another. */
  lemma ColumnKeyInjective(i: nat, f: nat, j: nat, g: nat)
    requires f < |Fields| && g < |Fields|
    requires ColumnKey(i, f) == ColumnKey(j, g)
    ensures i == j && f == g
  {
    var a, b := Decimal(i), Decimal(j);
    assert a + "]" + Fields[f] == b + "]" + Fields[g] by {
      ColumnKeyRest(i, f);
      ColumnKeyRest(j, g);
    }
    assert ']' !in a && ']' !in b by {
      assert forall k :: 0 <= k < |a| ==> IsDigit(a[k]);
      assert forall k :: 0 <= k < |b| ==> IsDigit(b[k]);
    }
    SplitAtFirst(a, Fields[f], b, Fields[g], ']');
    DecimalInjective(i, j);
    FieldsDistinct(f, g);
  }

  /** What follows `columns[` in a column key. */
  lemma ColumnKeyRest(i: nat, f: nat)
    requires f < |Fields|
    ensures ColumnKey(i, f)[|"columns["|..] == Decimal(i) + "]" + Fields[f]
  {
  }

  /** The six setting names differ. */
  lemma FieldsDistinct(f: nat, g: nat)
    requires f < |Fields| && g < |Fields| && Fields[f] == Fields[g]
    ensures f == g
  {
  }

  /** `payload` with the six settings of column `n` written into it. */
  function AddColumn(payload: map<string, string>, n: nat): map<string, string> {
    payload[ColumnKey(n, 0) := ColumnValue(n, 0)][ColumnKey(n, 1) := ColumnValue(n, 1)]
           [ColumnKey(n, 2) := ColumnValue(n, 2)][ColumnKey(n, 3) := ColumnValue(n, 3)]
           [ColumnKey(n, 4) := ColumnValue(n, 4)][ColumnKey(n, 5) := ColumnValue(n, 5)]
  }

  lemma AddColumnKeys(payload: map<string, string>, n: nat)
    ensures forall k :: k in AddColumn(payload, n) <==> k in payload || exists f: nat :: f < |Fields| && k == ColumnKey(n, f)
  {
  }

  lemma AddColumnOthers(payload: map<string, string>, n: nat, k: string)
    requires forall f: nat :: f < |Fields| ==> k != ColumnKey(n, f)
    ensures k in payload ==> AddColumn(payload, n)[k] == payload[k]
  {
  }

  lemma AddColumnNew(payload: map<string, string>, n: nat, f: nat)
    requires f < |Fields|
    ensures AddColumn(payload, n)[ColumnKey(n, f)] == ColumnValue(n, f)
  {
    forall g: nat | f < g < |Fields| ensures ColumnKey(n, f) != ColumnKey(n, g) {
      if ColumnKey(n, f) == ColumnKey(n, g) {
        ColumnKeyInjective(n, f, n, g);
      }
    }
  }

  /** One round of the loop adds the six settings of column `n`. */
  lemma AddColumnStep(input: string, n: nat, payload: map<string, string>)
    requires HasColumns(input, n, payload)
    ensures HasColumns(input, n + 1, AddColumn(payload, n))
  {
    var p := AddColumn(payload, n);
    AddColumnKeys(payload, n);
    forall k | k in p ensures k in BasePayload(input) || IsColumnKeyBelow(k, n + 1) {
      if k !in payload {
        var f: nat :| f < |Fields| && k == ColumnKey(n, f);
        assert IsColumnKeyBelow(k, n + 1);
      } else if k !in BasePayload(input) {
        var i: nat, f: nat :| i < n && f < |Fields| && k == ColumnKey(i, f);
        assert IsColumnKeyBelow(k, n + 1);
      }
    }
    forall k | k in BasePayload(input) || IsColumnKeyBelow(k, n + 1) ensures k in p {
      if k !in BasePayload(input) {
        var i: nat, f: nat :| i < n + 1 && f < |Fields| && k == ColumnKey(i, f);
        if i < n {
          assert IsColumnKeyBelow(k, n);
        }
      }
    }
    forall k | k in BasePayload(input) ensures p[k] == BasePayload(input)[k] {
      forall f: nat | f < |Fields| ensures k != ColumnKey(n, f) {
        ColumnKeyNotBase(input, n, f);
      }
      AddColumnOthers(payload, n, k);
    }
    forall i: nat, f: nat | i < n + 1 && f < |Fields|
      ensures ColumnKey(i, f) in p && p[ColumnKey(i, f)] == ColumnValue(i, f)
    {
      if i == n {
        AddColumnNew(payload, n, f);
      } else {
        forall g: nat | g < |Fields| ensures ColumnKey(i, f) != ColumnKey(n, g) {
          if ColumnKey(i, f) == ColumnKey(n, g) {
            ColumnKeyInjective(i, f, n, g);
          }
        }
        AddColumnOthers(payload, n, ColumnKey(i, f));
      }
    }
  }

  /** The form-building loop of app.py:385-391: the fixed entries, then six
      settings for each of the eleven columns. */
  method BuildSearchPayload(input: string) returns (payload: map<string, string>)
    ensures HasColumns(input, ColumnCount, payload)
  {
    payload := BasePayload(input);
    for i := 0 to ColumnCount
      invariant HasColumns(input, i, payload)
    {
      AddColumnStep(input, i, payload);
      ghost var next := AddColumn(payload, i);
      payload := payload[ColumnKey(i, 0) := Decimal(i)];
      payload := payload[ColumnKey(i, 1) := ""];
      payload := payload[ColumnKey(i, 2) := "true"];
      payload := payload[ColumnKey(i, 3) := if i >= 2 then "true" else "false"];
      payload := payload[ColumnKey(i, 4) := ""];
      payload := payload[ColumnKey(i, 5) := "false"];
      assert payload == next;
    }
  }

  // ---------------------------------------------------------------------------
  // The search answer
  // ---------------------------------------------------------------------------

  const NotFoundMessage := "Parcel not found in PCPAO database"
  const NoDataMessage := "No property data returned"
  const ApiErrorPrefix := "Error querying PCPAO API: "

  /** The decoded JSON answer of the quick search: `recordsTotal` (`None`
      when the key is absent) and `data`, the result rows of HTML cells
      (`None` when absent or null). */
  datatype SearchResponse = SearchResponse(recordsTotal: Option<int>, data: Option<seq<seq<string>>>)

  /** app.py:398-404: a total of zero, or no total at all, means the parcel
      was not found; otherwise an empty or missing row list means there is
      no data; otherwise the first row is the one read. */
  function FirstRow(response: SearchResponse): (r: Result<seq<string>>)
    ensures r.Ok? <==> response.recordsTotal.GetOr(0) != 0 && response.data.GetOr([]) != []
    ensures response.recordsTotal.GetOr(0) == 0 ==> r == Err(NotFoundMessage)
    ensures response.recordsTotal.GetOr(0) != 0 && response.data.GetOr([]) == [] ==> r == Err(NoDataMessage)
    ensures r.Ok? ==> r.value == response.data.value[0]
  {
    if response.recordsTotal.GetOr(0) == 0 then Err(NotFoundMessage)
    else if response.data.None? || response.data.value == [] then Err(NoDataMessage)
    else Ok(response.data.value[0])
  }

  /** `row[i] if len(row) > i else ""` */
  function RowCell(row: seq<string>, i: nat): (cell: string)
    ensures i < |row| ==> cell == row[i]
    ensures |row| <= i ==> cell == ""
  {
    if i < |row| then row[i] else ""
  }

  // ---------------------------------------------------------------------------
  // Square footage
  // ---------------------------------------------------------------------------

  /** Three digits with leading zeros: one group of `f"{n:,}"` after the
      first. */
  function Pad3(d: nat): (s: string)
    requires d < 1000
    ensures |s| == 3 && AllDigits(s)
  {
    [DigitChar(d / 100), DigitChar(d / 10 % 10), DigitChar(d % 10)]
  }

  /** `f"{n:,}"` for a non-negative integer: the decimal digits in groups of
      three from the right, separated by commas. */
  function FormatThousands(n: nat): string {
    if n < 1000 then Decimal(n) else FormatThousands(n / 1000) + "," + Pad3(n % 1000)
  }

  /** The decimal form of `n` is that of `n / 1000` followed by the last
      three digits. */
  lemma DecimalThousands(n: nat)
    requires n >= 1000
    ensures Decimal(n) == Decimal(n / 1000) + Pad3(n % 1000)
  {
    var q, r := n / 1000, n % 1000;
    ThousandsDigits(n);
    calc {
      Decimal(n);
      Decimal(n / 10) + [DigitChar(n % 10)];
      Decimal(n / 100) + [DigitChar(n / 10 % 10)] + [DigitChar(n % 10)];
      Decimal(q) + [DigitChar(r / 100)] + [DigitChar(r / 10 % 10)] + [DigitChar(r % 10)];
      Decimal(q) + Pad3(r);
    }
  }

  /** Where the last three digits of `n` sit in its shorter prefixes. */
  lemma ThousandsDigits(n: nat)
    requires n >= 1000
    ensures n / 10 >= 100 && n / 100 >= 10
    ensures (n / 100) / 10 == n / 1000 && (n / 100) % 10 == n % 1000 / 100
    ensures (n / 10) / 10 == n / 100 && (n / 10) % 10 == n % 1000 / 10 % 10
    ensures n % 10 == n % 1000 % 10
  {
    var q, r := n / 1000, n % 1000;
    assert n == 1000 * q + r;
    assert n / 10 == 100 * q + r / 10;
    assert n / 100 == 10 * q + r / 100;
  }

  /** Deleting the commas of `f"{n:,}"` gives `str(n)`. */
  lemma {:induction false} FormatThousandsDigits(n: nat)
    ensures RemoveChar(FormatThousands(n), ',') == Decimal(n)
  {
    if n < 1000 {
      RemoveCharAbsent(Decimal(n), ',');
    } else {
      FormatThousandsDigits(n / 1000);
      CommaGroup(FormatThousands(n / 1000), Pad3(n % 1000));
      DecimalThousands(n);
    }
  }

  /** Deleting commas across a comma and a group of digits. */
  lemma CommaGroup(head: string, group: string)
    requires AllDigits(group)
    ensures RemoveChar(head + "," + group, ',') == RemoveChar(head, ',') + group
  {
    assert ',' !in group by {
      assert forall i :: 0 <= i < |group| ==> group[i] != ',';
    }
    RemoveCharBefore(head, group, ',');
  }

  /** `int(text.replace(",", ""))` on the square-footage group of the
      details page: `None` where `int` would raise, and otherwise the number
      whose decimal form the digits are, after any leading zeros. */
  function ParseSqft(text: string): (n: Option<nat>)
    ensures n.Some? <==> RemoveChar(text, ',') != [] && AllDigits(RemoveChar(text, ','))
    ensures n.Some? ==>
      (exists k :: 0 <= k < |RemoveChar(text, ',')|
        && AllZeros(RemoveChar(text, ',')[..k]) && RemoveChar(text, ',')[k..] == Decimal(n.value))
  {
    var digits := RemoveChar(text, ',');
    if digits != [] && AllDigits(digits) then
      DigitsValue(digits);
      Some(ParseDecimal(digits))
    else None
  }

  lemma ParseSqftExample()
    ensures ParseSqft("10,500") == Some(10500)
  {
    FormatThousandsExample();
    SqftRoundTrip(10500);
  }

  lemma ParseSqftZerosExample()
    ensures ParseSqft("010,500") == Some(10500)
  {
    FormatThousandsExample();
    assert AllZeros("0");
    ParseSqftAfterZeros("0", 10500);
  }

  /** Leading zeros before the display text of a number still read as the
      number. */
  lemma ParseSqftAfterZeros(zeros: string, n: nat)
    requires AllZeros(zeros)
    ensures ParseSqft(zeros + FormatThousands(n)) == Some(n)
  {
    var text := FormatThousands(n);
    assert RemoveChar(zeros + text, ',') == zeros + Decimal(n) by {
      RemoveCharAppend(zeros, text, ',');
      RemoveCharAbsent(zeros, ',');
      FormatThousandsDigits(n);
    }
    ParseDecimalZeros(zeros, Decimal(n));
    ParseDecimalOfDecimal(n);
  }

  /** The square footage read back from its own display text is the number
      displayed. */
  lemma SqftRoundTrip(n: nat)
    ensures ParseSqft(FormatThousands(n)) == Some(n)
  {
    FormatThousandsDigits(n);
    ParseDecimalOfDecimal(n);
  }

  /** `f"{sqft:,}" if sqft else ""` (app.py:452). */
  function SqftField(sqft: Option<nat>): (text: string)
    ensures text == [] <==> sqft.GetOr(0) == 0
    ensures sqft.GetOr(0) != 0 ==> ThousandsLayout(text) && RemoveChar(text, ',') == Decimal(sqft.value)
    ensures sqft.GetOr(0) != 0 ==> ParseSqft(text) == sqft
  {
    match sqft
    case None => ""
    case Some(n) =>
      if n == 0 then ""
      else
        SqftRoundTrip(n);
        FormatThousandsLayout(n);
        FormatThousandsDigits(n);
        FormatThousands(n)
  }

  /** The layout of `f"{n:,}"`: a comma at every fourth place counted from
      the right end (so never first), a digit everywhere else, and no leading
      zero except in `"0"`. */
  predicate ThousandsLayout(s: string) {
    && |s| % 4 != 0
    && (forall i :: 0 <= i < |s| ==> (s[i] == ',' <==> (|s| - i) % 4 == 0))
    && (forall i :: 0 <= i < |s| && s[i] != ',' ==> IsDigit(s[i]))
    && (s[0] == '0' ==> s == "0")
  }

  lemma {:induction false} FormatThousandsLayout(n: nat)
    ensures ThousandsLayout(FormatThousands(n))
    ensures FormatThousands(n)[0] == '0' <==> n == 0
  {
    if n < 1000 {
      DecimalShort(n);
      ShortLayout(Decimal(n));
    } else {
      FormatThousandsLayout(n / 1000);
      LayoutStep(FormatThousands(n / 1000), Pad3(n % 1000));
    }
  }

  /** One to three digits without a leading zero are laid out already. */
  lemma ShortLayout(s: string)
    requires 0 < |s| <= 3 && AllDigits(s) && (s[0] == '0' ==> s == "0")
    ensures ThousandsLayout(s)
  {
    forall i | 0 <= i < |s|
      ensures s[i] != ',' && (|s| - i) % 4 != 0
    {
    }
  }

  /** A comma and a further group of three digits keep the layout. */
  lemma LayoutStep(head: string, tail: string)
    requires ThousandsLayout(head) && head[0] != '0' && |tail| == 3 && AllDigits(tail)
    ensures ThousandsLayout(head + "," + tail) && (head + "," + tail)[0] == head[0]
  {
    var s := head + "," + tail;
    assert |s| == |head| + 4;
    forall i | 0 <= i < |s|
      ensures (s[i] == ',' <==> (|s| - i) % 4 == 0)
      ensures s[i] != ',' ==> IsDigit(s[i])
    {
      if i < |head| {
        assert s[i] == head[i];
      } else if i > |head| {
        assert s[i] == tail[i - |head| - 1];
      }
    }
    assert s[0] == head[0];
  }

  /** A number below 1000 has at most three digits. */
  lemma DecimalShort(n: nat)
    requires n < 1000
    ensures |Decimal(n)| <= 3
  {
    if n >= 10 {
      assert |Decimal(n / 10)| <= 2 by {
        if n / 10 >= 10 {
          assert |Decimal(n / 10 / 10)| == 1;
        }
      }
    }
  }

  lemma FormatThousandsExample()
    ensures FormatThousands(10500) == "10,500"
  {
    assert Pad3(500) == "500";
    assert Decimal(10) == "10";
  }

  // ---------------------------------------------------------------------------
  // Land use
  // ---------------------------------------------------------------------------

  /** `strip_dor_code` (app.py:340-348): the trimmed text, less its first
      space-separated token when it starts with a digit. */
  function StripDorCode(text: string): (r: string)
    ensures Stripped(r)
    ensures text == [] ==> r == []
    ensures |r| <= |Strip(text)| && r == Strip(text)[|Strip(text)| - |r|..]
    ensures text != [] ==>
      var t := Strip(text);
      (r != t <==> t != [] && IsDigit(t[0]) && ' ' in t)
  {
    if text == [] then []
    else
      var t := Strip(text);
      if t != [] && IsDigit(t[0]) && ' ' in t then
        var rest := t[IndexOf(t, ' ') + 1..];
        StripIsSuffix(rest);
        Strip(rest)
      else t
  }

  /** `t` is `r` behind a leading token of no spaces that starts with a
      digit, one space and a run of whitespace. */
  ghost predicate TokenBefore(t: string, r: string) {
    exists token, gap :: token != [] && IsDigit(token[0]) && ' ' !in token && AllSpace(gap)
      && t == token + " " + gap + r
  }

  lemma TokenBeforeAt(t: string, i: nat, lead: nat, r: string)
    requires 0 < i < |t| && t[i] == ' ' && ' ' !in t[..i] && IsDigit(t[0])
    requires lead <= |t| - (i + 1) && AllSpace(t[i + 1..][..lead]) && t[i + 1..][lead..] == r
    ensures TokenBefore(t, r)
  {
    var token, gap := t[..i], t[i + 1..][..lead];
    assert t == token + " " + gap + r by {
      assert t[i + 1..] == gap + r;
      assert t == t[..i] + [t[i]] + t[i + 1..];
    }
  }

  /** A trimmed text that starts with a digit is its first token, a space,
      whitespace, and the trimmed rest. */
  lemma TokenBeforeRest(t: string)
    requires t != [] && Stripped(t) && IsDigit(t[0]) && ' ' in t
    ensures TokenBefore(t, Strip(t[IndexOf(t, ' ') + 1..]))
  {
    var i := IndexOf(t, ' ');
    assert i < |t| - 1 by {
      assert IsSpace(t[i]) && !IsSpace(t[|t| - 1]);
    }
    var rest := t[i + 1..];
    var r := Strip(rest);
    var lead := StripKeepsMiddle(rest);
    assert lead + |r| == |rest| by {
      assert !IsSpace(rest[|rest| - 1]);
      assert AllSpace(rest[lead + |r|..]);
    }
    assert rest[lead..] == r;
    TokenBeforeAt(t, i, lead, r);
  }

  /** When the text is changed, what is dropped is a leading token of no
      spaces that starts with a digit, the space after it, and any
      whitespace that follows. */
  lemma StripDorCodeDropsToken(text: string)
    requires StripDorCode(text) != Strip(text)
    ensures TokenBefore(Strip(text), StripDorCode(text))
  {
    TokenBeforeRest(Strip(text));
  }

  /** The converse: a leading token that starts with a digit is dropped,
      with the space after it, from a trimmed text. */
  lemma StripDorCodeOfCoded(token: string, name: string)
    requires token != [] && IsDigit(token[0]) && ' ' !in token
    requires name != [] && Stripped(name)
    ensures StripDorCode(token + " " + name) == name
  {
    var t := token + " " + name;
    assert Stripped(t) by {
      assert t[0] == token[0] && t[|t| - 1] == name[|name| - 1];
    }
    assert t[..|token|] == token;
    IndexOfUnique(t, ' ', |token|);
    assert t[|token| + 1..] == name;
  }

  lemma StripDorCodeExample()
    ensures StripDorCode("1234 Single Family") == "Single Family"
  {
    assert "1234 Single Family" == "1234" + " " + "Single Family";
    assert Stripped("Single Family");
    StripDorCodeOfCoded("1234", "Single Family");
  }

  // ---------------------------------------------------------------------------
  // The details page and the record
  // ---------------------------------------------------------------------------

  /** What the land-area scan of the details page found: the square-footage
      group and whether `float` accepts the acreage group. */
  datatype LandArea = LandArea(sqftText: string, acresParses: bool)

  /** The details page as far as the model reads it: unreachable (the GET
      raised), or the results of its land-area scan and its ZIP-code scan. */
  datatype DetailsPage = Unreachable | Page(landArea: Option<LandArea>, zip: Option<string>)

  /** The square footage and the ZIP code the record gets. */
  datatype Details = Details(sqft: Option<nat>, zip: Option<string>)

  /** The inner `try` of app.py:418-443: the first statement that raises
      ends it, and whatever was assigned before stays. The strap is computed
      first (app.py:419-424) and cannot raise, so it always stays. The square
      footage is the parsed group when the page was read and the scan
      matched, and the ZIP code is read only when nothing before it raised. */
  function ReadDetails(page: DetailsPage): (d: Details)
    ensures d.sqft == (if page.Page? && page.landArea.Some? then ParseSqft(page.landArea.value.sqftText) else None)
    ensures d.zip.Some? <==>
      && page.Page? && page.zip.Some?
      && (page.landArea.Some? ==> d.sqft.Some? && page.landArea.value.acresParses)
    ensures d.zip.Some? ==> d.zip == page.zip
  {
    match page
    case Unreachable => Details(None, None)
    case Page(area, zip) =>
      match area
      case None => Details(None, zip)
      case Some(LandArea(text, acresParses)) =>
        match ParseSqft(text)
        case None => Details(None, None)
        case Some(n) => Details(Some(n), if acresParses then zip else None)
  }

  /** The success dictionary of `scrape_pinellas_property`, less the acreage. */
  datatype PropertyRecord = PropertyRecord(
    address: string,
    city: string,
    zip: string,
    owner: string,
    landUse: string,
    siteAreaSqft: string,
    legalDescription: string,
    strap: string)

  /** `scrape_pinellas_property` (app.py:364-458) with the outside world as
      inputs: `getText` is BeautifulSoup's `get_text(strip=True)`, `answer`
      is the decoded search answer or the text of the exception raised on the
      way to it, and `page` is what the details page yielded. */
  function ScrapeProperty(
    parcelId: string,
    table: map<string, string>,
    getText: string -> string,
    answer: Result<SearchResponse>,
    page: DetailsPage): (r: Result<PropertyRecord>)
    ensures answer.Err? ==> r == Err(ApiErrorPrefix + answer.error)
    ensures answer.Ok? && FirstRow(answer.value).Err? ==> r == Err(FirstRow(answer.value).error)
    ensures r.Ok? <==> answer.Ok? && FirstRow(answer.value).Ok?
    ensures r.Ok? ==>
      var row := FirstRow(answer.value).value;
      && r.value.owner == getText(RowCell(row, 2))
      && r.value.address == getText(RowCell(row, 5))
      && r.value.city == CityLookup.ExpandCityName(table, getText(RowCell(row, 6)))
      && r.value.landUse == StripDorCode(getText(RowCell(row, 7)))
      && r.value.legalDescription == getText(RowCell(row, 8))
    ensures r.Ok? ==> r.value.strap == ParcelId.Strap(ParcelId.Normalize(parcelId)) && '-' !in r.value.strap
    ensures r.Ok? ==> r.value.siteAreaSqft == SqftField(ReadDetails(page).sqft)
    ensures r.Ok? ==> r.value.zip == ReadDetails(page).zip.GetOr("")
  {
    match answer
    case Err(e) => Err(ApiErrorPrefix + e)
    case Ok(response) =>
      match FirstRow(response)
      case Err(e) => Err(e)
      case Ok(row) =>
        var normalized := ParcelId.Normalize(parcelId);
        var details := ReadDetails(page);
        ParcelId.StrapRearranges(normalized);
        Ok(PropertyRecord(
          getText(RowCell(row, 5)),
          CityLookup.ExpandCityName(table, getText(RowCell(row, 6))),
          details.zip.GetOr(""),
          getText(RowCell(row, 2)),
          StripDorCode(getText(RowCell(row, 7))),
          SqftField(details.sqft),
          getText(RowCell(row, 8)),
          ParcelId.Strap(normalized)))
  }

  /** The form re-expands the scraped city (app.py:591); with a stable table
      that changes nothing. */
  lemma ScrapedCityStable(
    parcelId: string,
    table: map<string, string>,
    getText: string -> string,
    answer: Result<SearchResponse>,
    page: DetailsPage)
    requires CityLookup.StableTable(table)
    requires ScrapeProperty(parcelId, table, getText, answer, page).Ok?
    ensures var city := ScrapeProperty(parcelId, table, getText, answer, page).value.city;
      CityLookup.ExpandCityName(table, city) == city
  {
    var row := FirstRow(answer.value).value;
    CityLookup.ExpandCityNameIdempotent(table, getText(RowCell(row, 6)));
  }
}
