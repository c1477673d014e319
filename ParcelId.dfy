/** Pinellas County parcel identifiers: the check made on what the user typed
    (`validate_parcel_id`, app.py:331-338), the dashed layout the quick-search
    endpoint expects (app.py:371-373) and the dash-free "strap" that keys the
    property-details page (app.py:419-424). */
module ParcelId {
  import opened Strings

  const MaxLength := 30

  const EmptyMessage := "Parcel ID cannot be empty"
  const LengthMessage := "Parcel ID must be 30 characters or less"
  const CharsMessage := "Invalid characters in parcel ID"

  /** The `(is_valid, error_msg)` pair `validate_parcel_id` returns. */
  datatype Validation = Validation(ok: bool, message: string)

  // ---------------------------------------------------------------------------
  // Validation
  // ---------------------------------------------------------------------------

  /** One character of the class `[A-Za-z0-9\-\s\.]`. */
  predicate IdChar(c: char) {
    IsLetter(c) || IsDigit(c) || c == '-' || IsSpace(c) || c == '.'
  }

  /** A non-empty run of `IdChar`s. */
  predicate IdCharRun(s: string) {
    s != [] && forall i :: 0 <= i < |s| ==> IdChar(s[i])
  }

  /** `re.match(r'^[A-Za-z0-9\-\s\.]+$', s)`: a non-empty run of class
      characters that reaches the end of `s`, or stops just before a final
      newline, since Python's `$` also matches there. */
  predicate MatchesIdPattern(s: string) {
    || IdCharRun(s)
    || (|s| >= 2 && s[|s| - 1] == '\n' && IdCharRun(s[..|s| - 1]))
  }

  /** `$` before a final newline adds nothing: the newline is whitespace and
      so is in the class itself. */
  lemma MatchesIdPatternExactly(s: string)
    ensures MatchesIdPattern(s) <==> IdCharRun(s)
  {
    if |s| >= 2 && s[|s| - 1] == '\n' && IdCharRun(s[..|s| - 1]) {
      forall i | 0 <= i < |s| ensures IdChar(s[i]) {
        if i < |s| - 1 {
          assert s[i] == s[..|s| - 1][i];
        }
      }
    }
  }

  /** `validate_parcel_id`: the three checks run in order (empty, length,
      characters) and the first that fails picks the message. */
  function ValidateParcelId(id: string): (v: Validation)
    ensures v.ok <==> id != [] && |id| <= MaxLength && forall i :: 0 <= i < |id| ==> IdChar(id[i])
    ensures v.ok ==> v.message == ""
    ensures id == [] ==> v.message == EmptyMessage
    ensures id != [] && |id| > MaxLength ==> v.message == LengthMessage
    ensures id != [] && |id| <= MaxLength && !v.ok ==> v.message == CharsMessage
  {
    MatchesIdPatternExactly(id);
    if id == [] then Validation(false, EmptyMessage)
    else if |id| > MaxLength then Validation(false, LengthMessage)
    else if !MatchesIdPattern(id) then Validation(false, CharsMessage)
    else Validation(true, "")
  }

  // ---------------------------------------------------------------------------
  // Normalisation
  // ---------------------------------------------------------------------------

  /** The six groups of an 18-character parcel number, of lengths 2, 2, 2, 5,
      3 and 4. */
  function Groups(t: string): (g: seq<string>)
    requires |t| == 18
    ensures |g| == 6 && Join(g, []) == t
    ensures |g[0]| == 2 && |g[1]| == 2 && |g[2]| == 2 && |g[3]| == 5 && |g[4]| == 3 && |g[5]| == 4
  {
    var g := [t[0..2], t[2..4], t[4..6], t[6..11], t[11..14], t[14..18]];
    Join6(g[0], g[1], g[2], g[3], g[4], g[5], []);
    assert t == g[0] + g[1] + g[2] + g[3] + g[4] + g[5];
    g
  }

  /** The parcel number sent to the quick search: the trimmed input, with
      dashes put between the six groups when it is 18 characters long and
      has none. */
  function Normalize(id: string): (n: string)
    ensures Stripped(n)
    ensures RemoveChar(n, '-') == RemoveChar(Strip(id), '-')
  {
    var t := Strip(id);
    if '-' !in t && |t| == 18 then
      var g := Groups(t);
      assert Stripped(Join(g, "-")) by {
        Join6(g[0], g[1], g[2], g[3], g[4], g[5], "-");
        assert Join(g, "-")[0] == t[0] && Join(g, "-")[22] == t[17];
      }
      assert RemoveChar(Join(g, "-"), '-') == RemoveChar(t, '-') by {
        assert forall i :: 0 <= i < |g| ==> '-' !in g[i] by {
          assert g == [t[0..2], t[2..4], t[4..6], t[6..11], t[11..14], t[14..18]];
          NoneInSlice(t, '-', 0, 2);
          NoneInSlice(t, '-', 2, 4);
          NoneInSlice(t, '-', 4, 6);
          NoneInSlice(t, '-', 6, 11);
          NoneInSlice(t, '-', 11, 14);
          NoneInSlice(t, '-', 14, 18);
        }
        RemoveCharJoin(g, '-');
        RemoveCharAbsent(t, '-');
      }
      Join(g, "-")
    else t
  }

  /** An 18-character dash-free ID becomes six dash-separated groups of
      lengths 2, 2, 2, 5, 3 and 4, 23 characters in all, and deleting the
      dashes gives the trimmed input back. */
  lemma NormalizeEighteen(id: string)
    requires '-' !in Strip(id) && |Strip(id)| == 18
    ensures var n := Normalize(id);
      && |n| == 23
      && Split(n, '-') == Groups(Strip(id))
      && RemoveChar(n, '-') == Strip(id)
  {
    var t := Strip(id);
    var g := Groups(t);
    Join6(g[0], g[1], g[2], g[3], g[4], g[5], "-");
    SplitJoin(g, '-');
    RemoveCharAbsent(t, '-');
  }

  /** Any other input is only trimmed. */
  lemma NormalizeOtherwise(id: string)
    requires '-' in Strip(id) || |Strip(id)| != 18
    ensures Normalize(id) == Strip(id)
  {
  }

  /** Normalising twice is normalising once. */
  lemma NormalizeIdempotent(id: string)
    ensures Normalize(Normalize(id)) == Normalize(id)
  {
    var t := Strip(id);
    var n := Normalize(id);
    if '-' !in t && |t| == 18 {
      NormalizeEighteen(id);
      assert n[2] == '-';
    }
  }

  /** The parcel of the quick-search example gets its dashes. */
  lemma NormalizeExample()
    ensures Normalize("193117731660010010") == "19-31-17-73166-001-0010"
  {
    var t := "193117731660010010";
    assert Stripped(t) && '-' !in t;
    NormalizeGroups(t);
    GroupsExample();
    DashedExample();
  }

  /** An 18-character dash-free ID with no space around it becomes its six
      groups joined by dashes. */
  lemma NormalizeGroups(t: string)
    requires Stripped(t) && '-' !in t && |t| == 18
    ensures Normalize(t) == Join(Groups(t), "-")
  {
  }

  lemma GroupsExample()
    ensures Groups("193117731660010010") == ["19", "31", "17", "73166", "001", "0010"]
  {
    var t := "193117731660010010";
    assert t[0..2] == "19" && t[2..4] == "31" && t[4..6] == "17";
    assert t[6..11] == "73166" && t[11..14] == "001" && t[14..18] == "0010";
  }

  lemma DashedExample()
    ensures Join(["19", "31", "17", "73166", "001", "0010"], "-") == "19-31-17-73166-001-0010"
  {
    assert "19-31-17-73166-001-0010" == "19" + "-" + "31" + "-" + "17" + "-" + "73166" + "-" + "001" + "-" + "0010";
    Join6("19", "31", "17", "73166", "001", "0010", "-");
  }

  // ---------------------------------------------------------------------------
  // Strap
  // ---------------------------------------------------------------------------

  /** The key of the property-details page: with exactly six dash-separated
      segments, the first and third swapped and all six run together;
      otherwise the ID with its dashes deleted. */
  function Strap(n: string): string {
    var parts := Split(n, '-');
    if |parts| == 6 then Join([parts[2], parts[1], parts[0], parts[3], parts[4], parts[5]], [])
    else RemoveChar(n, '-')
  }

  /** With six segments the strap is `seg2 + seg1 + seg0 + seg3 + seg4 + seg5`. */
  lemma StrapSixSegments(n: string)
    requires |Split(n, '-')| == 6
    ensures var p := Split(n, '-');
      Strap(n) == p[2] + p[1] + p[0] + p[3] + p[4] + p[5]
  {
    var p := Split(n, '-');
    Concat6(p[2], p[1], p[0], p[3], p[4], p[5]);
  }

  /** Either way the strap holds no dash and is the ID's non-dash characters
      rearranged: the same characters, as many times each, so its length is
      the ID's length less its dashes. */
  lemma StrapRearranges(n: string)
    ensures '-' !in Strap(n)
    ensures multiset(Strap(n)) == multiset(RemoveChar(n, '-'))
    ensures |Strap(n)| == |n| - Count(n, '-')
  {
    var p := Split(n, '-');
    if |p| == 6 {
      assert p == [p[0], p[1], p[2], p[3], p[4], p[5]];
      Concat6(p[0], p[1], p[2], p[3], p[4], p[5]);
      StrapSixSegments(n);
      RemoveCharJoin(p, '-');
      calc {
        multiset(Strap(n));
        multiset(p[2] + p[1] + p[0] + p[3] + p[4] + p[5]);
        multiset(p[0] + p[1] + p[2] + p[3] + p[4] + p[5]);
        multiset(RemoveChar(n, '-'));
      }
      assert |Strap(n)| == |multiset(Strap(n))|;
      assert |RemoveChar(n, '-')| == |multiset(RemoveChar(n, '-'))|;
    }
  }

  /** What the strap of an 18-digit ID comes to once it has been normalised:
      the third group, the second, the first, then the last twelve
      characters in place. */
  lemma StrapOfEighteen(id: string)
    requires '-' !in Strip(id) && |Strip(id)| == 18
    ensures var t := Strip(id);
      Strap(Normalize(id)) == t[4..6] + t[2..4] + t[0..2] + t[6..18]
  {
    StrapOfGroups(Strip(id));
  }

  /** The strap of six dash-joined groups of a dash-free 18-character ID. */
  lemma StrapOfGroups(t: string)
    requires '-' !in t && |t| == 18
    ensures Strap(Join(Groups(t), "-")) == t[4..6] + t[2..4] + t[0..2] + t[6..18]
  {
    var g := Groups(t);
    var n := Join(g, "-");
    assert Split(n, '-') == g by {
      assert g == [t[0..2], t[2..4], t[4..6], t[6..11], t[11..14], t[14..18]];
      NoneInSlice(t, '-', 0, 2);
      NoneInSlice(t, '-', 2, 4);
      NoneInSlice(t, '-', 4, 6);
      NoneInSlice(t, '-', 6, 11);
      NoneInSlice(t, '-', 11, 14);
      NoneInSlice(t, '-', 14, 18);
      SplitJoin(g, '-');
    }
    assert t[6..18] == g[3] + g[4] + g[5] by {
      assert g[3] == t[6..11] && g[4] == t[11..14] && g[5] == t[14..18];
      SliceConcat(t, 6, 11, 14);
      SliceConcat(t, 6, 14, 18);
    }
    var x := g[2] + g[1] + g[0];
    assert Strap(n) == x + g[3] + g[4] + g[5] by {
      StrapSixSegments(n);
    }
    ConcatAssoc(x, g[3], g[4], g[5]);
  }

  /** The strap derivation as the source writes it: split on dashes, swap
      the first and third segment in the list, and join. */
  method DeriveStrap(n: string) returns (strap: string)
    ensures strap == Strap(n)
  {
    var parts := Split(n, '-');
    if |parts| == 6 {
      parts := parts[0 := parts[2]][2 := parts[0]];
      assert parts == [parts[0], parts[1], parts[2], parts[3], parts[4], parts[5]];
      strap := Join(parts, []);
    } else {
      strap := RemoveChar(n, '-');
    }
  }
}
