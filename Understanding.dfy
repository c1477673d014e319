/** The auto-generated "Project Understanding" paragraph of the proposal's
    second tab (app.py:689-736): one sentence per filled-in field, in a fixed
    order, joined into one paragraph. */
module Understanding {
  import opened Wrappers
  import opened Strings

  /** The intake fields the paragraph reads; a missing field reads as "". */
  datatype Intake = Intake(
    parcelId: string,
    address: string,
    city: string,
    county: string,
    landUse: string,
    acres: string,
    zoning: string,
    futureLandUse: string)

  const LocatedAt := "The site is located at "
  const ParcelIdLead := "Parcel ID "
  const LandUseLead := "Current land use is "
  const AreaLead := "Site area is "
  const AcresTail := " acres"
  const ZoningLead := "Zoning: "
  const FutureLandUseLead := "Future Land Use: "
  const CountyTail := " County"
  const LocationSeparator := ", "
  const Placeholder := "Enter project details " + "in Tab 1 and the short description above " + "to generate this paragraph."

  /** `text`, kept only when `field` is filled in (Python's truthiness of a
      string or a list). */
  function When<T>(field: seq<T>, text: string): (item: Option<string>)
    ensures item.Some? <==> field != []
    ensures item.Some? ==> item.value == text
  {
    if field != [] then Some(text) else None
  }

  /** The texts of the items that are there, in order. */
  function Present(items: seq<Option<string>>): (r: seq<string>)
    ensures |r| <= |items|
    ensures r == [] <==> forall i :: 0 <= i < |items| ==> items[i].None?
  {
    if items == [] then []
    else
      var init := items[..|items| - 1];
      var last := items[|items| - 1];
      assert forall i :: 0 <= i < |init| ==> init[i] == items[i];
      Present(init) + (if last.Some? then [last.value] else [])
  }

  /** The text of an item, as a list of zero or one string. */
  function Text(item: Option<string>): seq<string> {
    if item.Some? then [item.value] else []
  }

  /** One more item adds its text, if it is there, at the end. */
  lemma PresentSnoc(items: seq<Option<string>>, x: Option<string>)
    ensures Present(items + [x]) == Present(items) + Text(x)
  {
    assert (items + [x])[..|items|] == items;
  }

  /** The texts of the first `k + 1` items are those of the first `k`, then
      the text of item `k` if it is there. */
  lemma PresentPrefix(items: seq<Option<string>>, k: nat)
    requires k < |items|
    ensures Present(items[..k + 1]) == Present(items[..k]) + Text(items[k])
  {
    assert items[..k + 1] == items[..k] + [items[k]];
    PresentSnoc(items[..k], items[k]);
  }

  /** Filtering keeps the order: the items of a prefix come first. */
  lemma {:induction false} PresentAppend(a: seq<Option<string>>, b: seq<Option<string>>)
    ensures Present(a + b) == Present(a) + Present(b)
  {
    if b == [] {
      assert a + b == a;
    } else {
      var init, last := b[..|b| - 1], b[|b| - 1];
      PresentAppend(a, init);
      PresentAppendStep(a, init, last);
      assert b == init + [last];
    }
  }

  /** One more item at the end of the second list. */
  lemma PresentAppendStep(a: seq<Option<string>>, init: seq<Option<string>>, last: Option<string>)
    requires Present(a + init) == Present(a) + Present(init)
    ensures Present(a + (init + [last])) == Present(a) + Present(init + [last])
  {
    calc {
      Present(a + (init + [last]));
    == { assert a + (init + [last]) == (a + init) + [last]; }
      Present((a + init) + [last]);
    == { PresentSnoc(a + init, last); }
      (Present(a) + Present(init)) + Text(last);
    == { ListAssoc(Present(a), Present(init), Text(last)); }
      Present(a) + (Present(init) + Text(last));
    == { PresentSnoc(init, last); }
      Present(a) + Present(init + [last]);
    }
  }

  lemma ListAssoc(x: seq<string>, y: seq<string>, z: seq<string>)
    ensures (x + y) + z == x + (y + z)
  {
  }

  /** The location bits of app.py:702-708. */
  function LocationItems(intake: Intake): seq<Option<string>> {
    [When(intake.address, intake.address), When(intake.city, intake.city), When(intake.county, intake.county + CountyTail)]
  }

  /** The seven candidate sentences, in the order the paragraph uses: the
      trimmed short description less its trailing full stops, the location,
      the parcel, the land use, the acreage, the zoning and the future land
      use. */
  function Sections(description: string, intake: Intake): (s: seq<Option<string>>)
    ensures |s| == 7
  {
    var desc := Strip(description);
    var loc := Present(LocationItems(intake));
    [ When(desc, TrimEndChar(desc, '.')),
      When(loc, LocatedAt + Join(loc, LocationSeparator)),
      When(intake.parcelId, ParcelIdLead + intake.parcelId),
      When(intake.landUse, LandUseLead + intake.landUse),
      When(intake.acres, AreaLead + intake.acres + AcresTail),
      When(intake.zoning, ZoningLead + intake.zoning),
      When(intake.futureLandUse, FutureLandUseLead + intake.futureLandUse) ]
  }

  /** The texts of seven items are those of each in turn. */
  lemma PresentSeven(s: seq<Option<string>>)
    requires |s| == 7
    ensures Present(s) == Text(s[0]) + Text(s[1]) + Text(s[2]) + Text(s[3]) + Text(s[4]) + Text(s[5]) + Text(s[6])
  {
    assert Present(s[..1]) == Text(s[0]) by {
      assert s[..0] == [];
      PresentPrefix(s, 0);
    }
    assert Present(s[..2]) == Text(s[0]) + Text(s[1]) by { PresentPrefix(s, 1); }
    assert Present(s[..3]) == Text(s[0]) + Text(s[1]) + Text(s[2]) by { PresentPrefix(s, 2); }
    assert Present(s[..4]) == Text(s[0]) + Text(s[1]) + Text(s[2]) + Text(s[3]) by { PresentPrefix(s, 3); }
    assert Present(s[..5]) == Text(s[0]) + Text(s[1]) + Text(s[2]) + Text(s[3]) + Text(s[4]) by { PresentPrefix(s, 4); }
    assert Present(s[..6]) == Text(s[0]) + Text(s[1]) + Text(s[2]) + Text(s[3]) + Text(s[4]) + Text(s[5]) by { PresentPrefix(s, 5); }
    assert Present(s[..7]) == Text(s[0]) + Text(s[1]) + Text(s[2]) + Text(s[3]) + Text(s[4]) + Text(s[5]) + Text(s[6]) by { PresentPrefix(s, 6); }
    assert s[..7] == s;
  }

  /** One `if field: parts.append(text)` step. */
  method AppendWhen<T>(parts: seq<string>, field: seq<T>, text: string) returns (r: seq<string>)
    ensures r == parts + Text(When(field, text))
  {
    r := parts;
    if field != [] {
      r := r + [text];
    }
  }

  /** The appends of app.py:689-720, one `if` per field. */
  method UnderstandingParts(description: string, intake: Intake) returns (parts: seq<string>)
    ensures parts == Present(Sections(description, intake))
  {
    ghost var s := Sections(description, intake);
    var desc := Strip(description);
    parts := AppendWhen([], desc, TrimEndChar(desc, '.'));
    var locBits := LocationBits(intake);
    parts := AppendWhen(parts, locBits, LocatedAt + Join(locBits, LocationSeparator));
    parts := AppendWhen(parts, intake.parcelId, ParcelIdLead + intake.parcelId);
    parts := AppendWhen(parts, intake.landUse, LandUseLead + intake.landUse);
    parts := AppendWhen(parts, intake.acres, AreaLead + intake.acres + AcresTail);
    parts := AppendWhen(parts, intake.zoning, ZoningLead + intake.zoning);
    parts := AppendWhen(parts, intake.futureLandUse, FutureLandUseLead + intake.futureLandUse);
    PresentSeven(s);
    assert [] + Text(s[0]) == Text(s[0]);
  }

  /** The `loc_bits` appends of app.py:702-708. */
  method LocationBits(intake: Intake) returns (locBits: seq<string>)
    ensures locBits == Present(LocationItems(intake))
  {
    ghost var items: seq<Option<string>> := [];
    locBits := [];
    PresentSnoc(items, When(intake.address, intake.address));
    items := items + [When(intake.address, intake.address)];
    if intake.address != [] {
      locBits := locBits + [intake.address];
    }
    PresentSnoc(items, When(intake.city, intake.city));
    items := items + [When(intake.city, intake.city)];
    if intake.city != [] {
      locBits := locBits + [intake.city];
    }
    PresentSnoc(items, When(intake.county, intake.county + CountyTail));
    items := items + [When(intake.county, intake.county + CountyTail)];
    if intake.county != [] {
      locBits := locBits + [intake.county + CountyTail];
    }
    assert items == LocationItems(intake);
  }

  /** The location sentence is there exactly when the address, the city or
      the county is filled in, and it lists them in that order. */
  lemma LocationPresent(intake: Intake)
    ensures var loc := Present(LocationItems(intake));
      && (loc == [] <==> intake.address == [] && intake.city == [] && intake.county == [])
      && |loc| <= 3
      && (intake.address != [] ==> loc[0] == intake.address)
      && (intake.county != [] ==> loc[|loc| - 1] == intake.county + CountyTail)
  {
    var items := LocationItems(intake);
    assert Present(items) == Text(items[0]) + Text(items[1]) + Text(items[2]) by {
      assert items == [items[0]] + [items[1]] + [items[2]];
      PresentSnoc([items[0]] + [items[1]], items[2]);
      PresentSnoc([items[0]], items[1]);
      PresentSnoc([], items[0]);
    }
  }

  /** A blank short description and every intake field the paragraph reads
      empty. */
  predicate NothingToSay(description: string, intake: Intake) {
    && AllSpace(description)
    && intake.address == [] && intake.city == [] && intake.county == []
    && intake.parcelId == [] && intake.landUse == [] && intake.acres == []
    && intake.zoning == [] && intake.futureLandUse == []
  }

  /** No sentence at all exactly when the short description is blank and
      every intake field the paragraph reads is empty. */
  lemma NoSections(description: string, intake: Intake)
    ensures Present(Sections(description, intake)) == [] <==> NothingToSay(description, intake)
  {
    LocationPresent(intake);
    PresentSeven(Sections(description, intake));
  }

  /** A description that is not blank gives the first sentence: trimmed, and
      without its trailing full stops. */
  lemma DescriptionFirst(description: string, intake: Intake)
    requires !AllSpace(description)
    ensures var parts := Present(Sections(description, intake));
      parts != [] && parts[0] == TrimEndChar(Strip(description), '.')
  {
    PresentSeven(Sections(description, intake));
  }

  /** A future land use gives the last sentence. */
  lemma FutureLandUseLast(description: string, intake: Intake)
    requires intake.futureLandUse != []
    ensures var parts := Present(Sections(description, intake));
      parts != [] && parts[|parts| - 1] == FutureLandUseLead + intake.futureLandUse
  {
    PresentSeven(Sections(description, intake));
  }

  /** The paragraph shown: the placeholder when there is nothing to say,
      otherwise a trimmed text closed by a full stop. */
  lemma UnderstandingParagraph(description: string, intake: Intake)
    ensures var p := Paragraph(Present(Sections(description, intake)));
      && (NothingToSay(description, intake) ==> p == Placeholder)
      && (!NothingToSay(description, intake) ==> p != [] && p[|p| - 1] == '.' && Stripped(p[..|p| - 1]))
  {
    NoSections(description, intake);
  }

  /** A short description that is more than blanks and full stops opens the
      paragraph, trimmed and without its trailing full stops. */
  lemma ParagraphStartsWithDescription(description: string, intake: Intake)
    requires TrimEndChar(Strip(description), '.') != []
    ensures var p, d := Paragraph(Present(Sections(description, intake))), Strip(TrimEndChar(Strip(description), '.'));
      d != [] && |d| < |p| && p[..|d|] == d
  {
    var first := TrimEndChar(Strip(description), '.');
    assert !AllSpace(description);
    DescriptionFirst(description, intake);
    assert first[0] == Strip(description)[0];
    ParagraphStartsWithFirst(Present(Sections(description, intake)));
  }

  /** A first part that starts with a non-space opens the paragraph, less
      any whitespace at its end. */
  lemma ParagraphStartsWithFirst(parts: seq<string>)
    requires parts != [] && parts[0] != [] && !IsSpace(parts[0][0])
    ensures var p, d := Paragraph(parts), Strip(parts[0]);
      d != [] && |d| < |p| && p[..|d|] == d
  {
    var first, j := parts[0], Join(parts, ". ");
    var body, d := Strip(j), Strip(first);
    assert |d| <= |body| && body[..|d|] == d by {
      JoinFirst(parts, ". ");
      PrefixThenRest(j, first);
      StripOfPrefix(first, j[|first|..]);
    }
    assert d != [];
    assert Paragraph(parts) == body + ".";
    PrefixOfConcat(body, ".", |d|);
  }

  /** Parts that start and end with a non-space are joined as they are, with
      a closing full stop. */
  lemma ParagraphOfTrimmedParts(parts: seq<string>)
    requires parts != [] && parts[0] != [] && !IsSpace(parts[0][0])
    requires var last := parts[|parts| - 1]; last != [] && !IsSpace(last[|last| - 1])
    ensures Paragraph(parts) == Join(parts, ". ") + "."
  {
    var j := Join(parts, ". ");
    assert Stripped(j) by {
      var last := parts[|parts| - 1];
      JoinFirst(parts, ". ");
      JoinLast(parts, ". ");
      assert j[0] == j[..|parts[0]|][0] == parts[0][0];
      assert j[|j| - 1] == j[|j| - |last|..][|last| - 1] == last[|last| - 1];
    }
  }

  /** A short description that reads like the placeholder, with every intake
      field empty, yields the placeholder text although there is something to
      say: the paragraph alone does not tell the two apart. */
  lemma PlaceholderLookalike()
    ensures var intake := Intake("", "", "", "", "", "", "", "");
      && !NothingToSay(Placeholder, intake)
      && Paragraph(Present(Sections(Placeholder, intake))) == Placeholder
  {
    var intake := Intake("", "", "", "", "", "", "", "");
    var first := PlaceholderShape();
    LoneDescription(Placeholder);
    ParagraphOfTrimmedParts([first]);
  }

  /** The placeholder is a trimmed sentence with one closing full stop. */
  lemma PlaceholderShape() returns (first: string)
    ensures first != [] && !IsSpace(first[0]) && !IsSpace(first[|first| - 1])
    ensures !AllSpace(Placeholder) && TrimEndChar(Strip(Placeholder), '.') == first
    ensures Join([first], ". ") + "." == Placeholder
  {
    var n := |Placeholder|;
    first := Placeholder[..n - 1];
    assert Placeholder[0] == 'E' && Placeholder[n - 2] == 'h' && Placeholder[n - 1] == '.';
    assert first[0] == 'E' && first[n - 2] == 'h';
    assert Placeholder == first + "." by {
      assert Placeholder == Placeholder[..n - 1] + Placeholder[n - 1..];
    }
    assert Strip(Placeholder) == Placeholder by {
      assert Stripped(Placeholder);
    }
    assert TrimEndChar(Placeholder, '.') == first by {
      var r := TrimEndChar(Placeholder, '.');
      assert |r| == n - 1;
    }
  }

  /** With every intake field empty, a short description that is not blank
      is the only sentence. */
  lemma LoneDescription(description: string)
    requires !AllSpace(description)
    ensures Present(Sections(description, Intake("", "", "", "", "", "", "", "")))
      == [TrimEndChar(Strip(description), '.')]
  {
    var intake := Intake("", "", "", "", "", "", "", "");
    var s := Sections(description, intake);
    assert Present(s[1..]) == [] by {
      LocationPresent(intake);
    }
    assert Present([s[0]]) == [TrimEndChar(Strip(description), '.')] by {
      PresentSnoc([], s[0]);
    }
    assert s == [s[0]] + s[1..];
    PresentAppend([s[0]], s[1..]);
  }

  /** app.py:722-736: the parts joined by ". ", trimmed, with a closing full
      stop; the placeholder when there are none. */
  function Paragraph(parts: seq<string>): (p: string)
    ensures parts == [] ==> p == Placeholder
    ensures parts != [] ==> p != [] && p[|p| - 1] == '.' && Stripped(p[..|p| - 1])
    ensures parts != [] ==>
      (exists a, b :: AllSpace(a) && AllSpace(b) && Join(parts, ". ") == a + p[..|p| - 1] + b)
  {
    if parts != [] then
      var body := Strip(Join(parts, ". "));
      assert (body + ".")[..|body|] == body;
      StripDecomposes(Join(parts, ". "));
      body + "."
    else Placeholder
  }
}
