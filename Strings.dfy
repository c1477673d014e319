/** The few Python `str` operations the parcel lookup relies on, stated over
    `seq<char>`: whitespace as `str.isspace()` and `str.strip()` see it,
    ASCII case mapping, `split` on one character, `join`, removal of one
    character (`replace(c, "")`), and decimal conversion both ways. */
module Strings {

  /** The characters Python treats as whitespace: those for which
      `str.isspace()` holds, which are also the ones `\s` matches in a
      `str` regular expression and the ones `str.strip()` removes. */
  predicate IsSpace(c: char) {
    || ('\t' <= c <= '\r')
    || ('\U{1C}' <= c <= '\U{1F}')
    || c == ' '
    || c == '\U{85}'
    || c == '\U{A0}'
    || c == '\U{1680}'
    || ('\U{2000}' <= c <= '\U{200A}')
    || c == '\U{2028}'
    || c == '\U{2029}'
    || c == '\U{202F}'
    || c == '\U{205F}'
    || c == '\U{3000}'
  }

  predicate IsDigit(c: char) { '0' <= c <= '9' }

  predicate IsUpperLetter(c: char) { 'A' <= c <= 'Z' }

  predicate IsLowerLetter(c: char) { 'a' <= c <= 'z' }

  /** An ASCII letter: the characters `[A-Za-z]` matches, and the ones the
      ASCII model of `str.title()` treats as cased. */
  predicate IsLetter(c: char) { IsUpperLetter(c) || IsLowerLetter(c) }

  predicate AllSpace(s: string) { forall i :: 0 <= i < |s| ==> IsSpace(s[i]) }

  predicate AllDigits(s: string) { forall i :: 0 <= i < |s| ==> IsDigit(s[i]) }

  /** No whitespace at either end: the shape of every `str.strip()` result. */
  predicate Stripped(s: string) {
    s == [] || (!IsSpace(s[0]) && !IsSpace(s[|s| - 1]))
  }

  // ---------------------------------------------------------------------------
  // str.strip()
  // ---------------------------------------------------------------------------

  /** Length of the whitespace run at the front of `s`. */
  function LeadingSpace(s: string): (n: nat)
    ensures n <= |s| && AllSpace(s[..n])
    ensures n < |s| ==> !IsSpace(s[n])
  {
    if s != [] && IsSpace(s[0]) then
      var m := LeadingSpace(s[1..]);
      assert s[..1 + m] == [s[0]] + s[1..][..m];
      1 + m
    else 0
  }

  /** Length of the whitespace run at the back of `s`. */
  function TrailingSpace(s: string): (n: nat)
    ensures n <= |s| && AllSpace(s[|s| - n..])
    ensures n < |s| ==> !IsSpace(s[|s| - 1 - n])
  {
    if s != [] && IsSpace(s[|s| - 1]) then
      var init := s[..|s| - 1];
      var m := TrailingSpace(init);
      assert AllSpace(s[|s| - (1 + m)..]) by {
        forall i | |s| - (1 + m) <= i < |s| - 1
          ensures IsSpace(s[i])
        {
          assert s[i] == init[|init| - m..][i - (|init| - m)];
        }
      }
      1 + m
    else 0
  }

  /** Python's `s.strip()` with no argument. */
  function Strip(s: string): (r: string)
    ensures Stripped(r) && |r| <= |s|
    ensures r == [] <==> AllSpace(s)
    ensures Stripped(s) ==> r == s
  {
    var lead := LeadingSpace(s);
    var t := s[lead..];
    var trail := TrailingSpace(t);
    assert AllSpace(s) ==> lead == |s|;
    assert t[..|t| - trail] == [] ==> s == s[..lead] + t[|t| - trail..];
    t[..|t| - trail]
  }

  /** Stripping only removes whitespace: `s` is a run of whitespace, then
      `s.strip()`, then another run of whitespace. */
  lemma StripKeepsMiddle(s: string) returns (lead: nat)
    ensures lead + |Strip(s)| <= |s| && s[lead..lead + |Strip(s)|] == Strip(s)
    ensures AllSpace(s[..lead]) && AllSpace(s[lead + |Strip(s)|..])
  {
    lead := LeadingSpace(s);
    var t := s[lead..];
    var trail := TrailingSpace(t);
    if AllSpace(s) {
      lead := 0;
      assert s[..0] == [];
    } else {
      assert s[lead + |Strip(s)|..] == t[|t| - trail..];
    }
  }

  /** Stripping only removes whitespace, so what it keeps sits at the same
      place: when `s` ends in a non-space, `s.strip()` is a suffix of `s`. */
  lemma StripIsSuffix(s: string)
    requires s != [] && !IsSpace(s[|s| - 1])
    ensures Strip(s) == s[|s| - |Strip(s)|..]
  {
    var lead := LeadingSpace(s);
    assert TrailingSpace(s[lead..]) == 0;
  }

  /** `s` is `s.strip()` with whitespace on either side. */
  lemma StripDecomposes(s: string)
    ensures exists a, b :: AllSpace(a) && AllSpace(b) && s == a + Strip(s) + b
  {
    var lead := StripKeepsMiddle(s);
    var a, b := s[..lead], s[lead + |Strip(s)|..];
    assert s == a + Strip(s) + b;
  }

  /** A prefix of `s` and the rest of `s` make up `s`. */
  lemma PrefixThenRest(s: string, p: string)
    requires |p| <= |s| && s[..|p|] == p
    ensures s == p + s[|p|..]
  {
    assert s == s[..|p|] + s[|p|..];
  }

  /** A prefix within `a` of `a + b` is a prefix of `a`. */
  lemma PrefixOfConcat(a: string, b: string, k: nat)
    requires k <= |a|
    ensures (a + b)[..k] == a[..k]
  {
  }

  /** When `x` starts with a non-space, whatever follows it, the strip of
      `x + y` begins with the strip of `x`. */
  lemma StripOfPrefix(x: string, y: string)
    requires x != [] && !IsSpace(x[0])
    ensures |Strip(x)| <= |Strip(x + y)| && Strip(x + y)[..|Strip(x)|] == Strip(x)
  {
    var s := x + y;
    var ls := StripKeepsMiddle(s);
    var lx := StripKeepsMiddle(x);
    var m := |Strip(x)| - 1;
    assert s[m] == x[m] == Strip(x)[m];
    assert Strip(s)[..|Strip(x)|] == s[..|Strip(x)|] == x[..|Strip(x)|];
  }

  /** Python's `s.rstrip(c)` for a single character `c`. */
  function TrimEndChar(s: string, c: char): (r: string)
    ensures |r| <= |s| && r == s[..|r|]
    ensures r == [] || r[|r| - 1] != c
    ensures forall i :: |r| <= i < |s| ==> s[i] == c
  {
    if s != [] && s[|s| - 1] == c then TrimEndChar(s[..|s| - 1], c) else s
  }

  // ---------------------------------------------------------------------------
  // ASCII case mapping
  // ---------------------------------------------------------------------------

  function UpperChar(c: char): char {
    if IsLowerLetter(c) then (c as int - 32) as char else c
  }

  function LowerChar(c: char): char {
    if IsUpperLetter(c) then (c as int + 32) as char else c
  }

  /** `s.upper()` */
  function Upper(s: string): string {
    seq(|s|, i requires 0 <= i < |s| => UpperChar(s[i]))
  }

  /** `s.lower()` */
  function Lower(s: string): string {
    seq(|s|, i requires 0 <= i < |s| => LowerChar(s[i]))
  }

  /** `s.title()`: a letter that follows a cased letter is lower-cased, any
      other letter upper-cased. */
  function Title(s: string): string {
    seq(|s|, i requires 0 <= i < |s| =>
      if i > 0 && IsLetter(s[i - 1]) then LowerChar(s[i]) else UpperChar(s[i]))
  }

  /** Lower-casing forgets any earlier upper- or title-casing. */
  lemma LowerOfCase(s: string)
    ensures Lower(Upper(s)) == Lower(s) && Lower(Title(s)) == Lower(s)
  {
    assert forall c :: LowerChar(UpperChar(c)) == LowerChar(c) && LowerChar(LowerChar(c)) == LowerChar(c);
  }

  /** Case mapping changes letters only, so whitespace stays where it was. */
  lemma CaseKeepsSpace(s: string)
    ensures |Upper(s)| == |s| && |Title(s)| == |s|
    ensures forall i :: 0 <= i < |s| ==> (IsSpace(Upper(s)[i]) <==> IsSpace(s[i]))
    ensures forall i :: 0 <= i < |s| ==> (IsSpace(Title(s)[i]) <==> IsSpace(s[i]))
  {
  }

  /** Upper-casing is idempotent. */
  lemma UpperIdempotent(s: string)
    ensures Upper(Upper(s)) == Upper(s)
  {
  }

  /** Upper-casing forgets what `title()` did. */
  lemma UpperOfTitle(s: string)
    ensures Upper(Title(s)) == Upper(s)
  {
    forall i | 0 <= i < |s| ensures Upper(Title(s))[i] == Upper(s)[i] {
      if IsUpperLetter(s[i]) {
        assert LowerChar(s[i]) as int == s[i] as int + 32;
      }
    }
  }

  // ---------------------------------------------------------------------------
  // split, join, replace
  // ---------------------------------------------------------------------------

  /** Position of the first `c` in `s`. */
  function IndexOf(s: string, c: char): (i: nat)
    requires c in s
    ensures i < |s| && s[i] == c && c !in s[..i]
  {
    if s[0] == c then 0 else 1 + IndexOf(s[1..], c)
  }

  /** The first occurrence is the only one with none before it. */
  lemma IndexOfUnique(s: string, c: char, j: nat)
    requires j < |s| && s[j] == c && c !in s[..j]
    ensures IndexOf(s, c) == j
  {
    var i := IndexOf(s, c);
    assert forall k :: 0 <= k < j ==> s[..j][k] == s[k];
    assert forall k :: 0 <= k < i ==> s[..i][k] == s[k];
  }

  /** `sep.join(parts)` */
  function Join(parts: seq<string>, sep: string): string {
    if parts == [] then []
    else if |parts| == 1 then parts[0]
    else parts[0] + sep + Join(parts[1..], sep)
  }

  /** The joined text begins with the first part. */
  lemma JoinFirst(parts: seq<string>, sep: string)
    requires parts != []
    ensures |parts[0]| <= |Join(parts, sep)| && Join(parts, sep)[..|parts[0]|] == parts[0]
  {
    if |parts| > 1 {
      assert Join(parts, sep) == parts[0] + (sep + Join(parts[1..], sep));
    }
  }

  /** The joined text ends with the last part. */
  lemma {:induction false} JoinLast(parts: seq<string>, sep: string)
    requires parts != []
    ensures var j, last := Join(parts, sep), parts[|parts| - 1];
      |last| <= |j| && j[|j| - |last|..] == last
  {
    if |parts| > 1 {
      JoinLast(parts[1..], sep);
      var rest := Join(parts[1..], sep);
      assert Join(parts, sep) == (parts[0] + sep) + rest;
    }
  }

  /** `s.split(sep)` for a one-character separator: the pieces between
      separators, empty ones included, so there is always at least one. */
  function Split(s: string, sep: char): (parts: seq<string>)
    ensures |parts| >= 1
    ensures forall i :: 0 <= i < |parts| ==> sep !in parts[i]
    ensures Join(parts, [sep]) == s
    decreases |s|
  {
    if sep !in s then [s]
    else
      var i := IndexOf(s, sep);
      var rest := Split(s[i + 1..], sep);
      assert s == s[..i] + [sep] + s[i + 1..];
      assert ([s[..i]] + rest)[1..] == rest;
      [s[..i]] + rest
  }

  /** `Join` of six parts, written out. */
  lemma Join6(a: string, b: string, c: string, d: string, e: string, f: string, sep: string)
    ensures Join([a, b, c, d, e, f], sep) == a + sep + b + sep + c + sep + d + sep + e + sep + f
  {
    var parts := [a, b, c, d, e, f];
    calc {
      Join(parts, sep);
      a + sep + Join([b, c, d, e, f], sep);
      { assert [b, c, d, e, f][1..] == [c, d, e, f]; }
      a + sep + (b + sep + Join([c, d, e, f], sep));
      { assert [c, d, e, f][1..] == [d, e, f]; }
      a + sep + (b + sep + (c + sep + Join([d, e, f], sep)));
      { assert [d, e, f][1..] == [e, f]; }
      a + sep + (b + sep + (c + sep + (d + sep + Join([e, f], sep))));
      { assert [e, f][1..] == [f]; }
      a + sep + (b + sep + (c + sep + (d + sep + (e + sep + f))));
      a + sep + b + sep + c + sep + d + sep + e + sep + f;
    }
  }

  /** `"".join` of six parts is their concatenation. */
  lemma Concat6(a: string, b: string, c: string, d: string, e: string, f: string)
    ensures Join([a, b, c, d, e, f], []) == a + b + c + d + e + f
  {
    Join6(a, b, c, d, e, f, []);
    assert a + [] == a;
    assert a + b + [] == a + b;
    assert a + b + c + [] == a + b + c;
    assert a + b + c + d + [] == a + b + c + d;
    assert a + b + c + d + e + [] == a + b + c + d + e;
  }

  /** Splitting what was joined on a separator that no part contains gives
      the parts back. */
  lemma {:induction false} SplitJoin(parts: seq<string>, sep: char)
    requires |parts| >= 1
    requires forall i :: 0 <= i < |parts| ==> sep !in parts[i]
    ensures Split(Join(parts, [sep]), sep) == parts
  {
    if |parts| > 1 {
      var s := Join(parts, [sep]);
      var rest := parts[1..];
      assert s == parts[0] + [sep] + Join(rest, [sep]);
      assert s[|parts[0]|] == sep;
      assert s[..|parts[0]|] == parts[0];
      assert IndexOf(s, sep) == |parts[0]|;
      assert s[|parts[0]| + 1..] == Join(rest, [sep]);
      SplitJoin(rest, sep);
    }
  }

  /** A separator that occurs in neither head splits a string in one way
      only. */
  lemma SplitAtFirst(a: string, x: string, b: string, y: string, c: char)
    requires c !in a && c !in b
    requires a + [c] + x == b + [c] + y
    ensures a == b && x == y
  {
    var s := a + [c] + x;
    assert s[|a|] == c && forall k :: 0 <= k < |a| ==> s[k] == a[k];
    assert s[|b|] == c && forall k :: 0 <= k < |b| ==> s[k] == b[k];
    assert a == s[..|a|] && b == s[..|b|];
    assert x == s[|a| + 1..] && y == s[|b| + 1..];
  }

  /** Number of occurrences of `c` in `s` (`s.count(c)`). */
  function Count(s: string, c: char): nat {
    if s == [] then 0 else (if s[0] == c then 1 else 0) + Count(s[1..], c)
  }

  lemma ConcatAssoc(x: string, a: string, b: string, c: string)
    ensures x + a + b + c == x + (a + b + c)
  {
  }

  /** Two adjacent slices make up the slice that spans them. */
  lemma SliceConcat(s: string, i: nat, j: nat, k: nat)
    requires i <= j <= k <= |s|
    ensures s[i..j] + s[j..k] == s[i..k]
  {
  }

  /** A character missing from `s` is missing from every slice of it. */
  lemma NoneInSlice(s: string, c: char, lo: nat, hi: nat)
    requires lo <= hi <= |s| && c !in s
    ensures c !in s[lo..hi]
  {
  }

  /** `s.replace(c, "")` */
  function RemoveChar(s: string, c: char): (r: string)
    ensures c !in r
    ensures |r| == |s| - Count(s, c)
  {
    if s == [] then []
    else (if s[0] == c then [] else [s[0]]) + RemoveChar(s[1..], c)
  }

  lemma {:induction false} RemoveCharAbsent(s: string, c: char)
    requires c !in s
    ensures RemoveChar(s, c) == s
  {
    if s != [] {
      RemoveCharAbsent(s[1..], c);
    }
  }

  lemma {:induction false} RemoveCharAppend(a: string, b: string, c: char)
    ensures RemoveChar(a + b, c) == RemoveChar(a, c) + RemoveChar(b, c)
  {
    if a == [] {
      assert a + b == b;
    } else {
      assert (a + b)[1..] == a[1..] + b;
      RemoveCharAppend(a[1..], b, c);
    }
  }

  /** Removing every separator from `c.join(parts)` leaves the plain
      concatenation of the parts, when no part contains the separator. */
  lemma {:induction false} RemoveCharJoin(parts: seq<string>, c: char)
    requires forall i :: 0 <= i < |parts| ==> c !in parts[i]
    ensures RemoveChar(Join(parts, [c]), c) == Join(parts, [])
  {
    if |parts| == 1 {
      RemoveCharAbsent(parts[0], c);
    } else if |parts| > 1 {
      var rest := parts[1..];
      assert forall i :: 0 <= i < |rest| ==> c !in rest[i] by {
        forall i | 0 <= i < |rest| ensures c !in rest[i] {
          assert rest[i] == parts[i + 1];
        }
      }
      RemoveCharJoin(rest, c);
      RemoveCharAfter(parts[0], Join(rest, [c]), c);
    }
  }

  /** Removing `c` from a `c`-free head, `c`, then a tail keeps the head
      and cleans the tail. */
  lemma RemoveCharAfter(head: string, tail: string, c: char)
    requires c !in head
    ensures RemoveChar(head + [c] + tail, c) == head + RemoveChar(tail, c)
  {
    assert RemoveChar(head + [c], c) == head by {
      RemoveCharAppend(head, [c], c);
      RemoveCharAbsent(head, c);
      assert RemoveChar([c], c) == [] by {
        assert [c][1..] == [];
      }
      assert head + [] == head;
    }
    RemoveCharAppend(head + [c], tail, c);
  }

  /** Removing `c` from a head, `c`, then a `c`-free tail cleans the head
      and keeps the tail. */
  lemma RemoveCharBefore(head: string, tail: string, c: char)
    requires c !in tail
    ensures RemoveChar(head + [c] + tail, c) == RemoveChar(head, c) + tail
  {
    assert RemoveChar(head + [c], c) == RemoveChar(head, c) by {
      RemoveCharAppend(head, [c], c);
      assert RemoveChar([c], c) == [] by {
        assert [c][1..] == [];
      }
      assert RemoveChar(head, c) + [] == RemoveChar(head, c);
    }
    RemoveCharAppend(head + [c], tail, c);
    RemoveCharAbsent(tail, c);
  }

  // ---------------------------------------------------------------------------
  // str(n) and int(s) on non-negative decimal numbers
  // ---------------------------------------------------------------------------

  function DigitChar(d: nat): (c: char)
    requires d < 10
    ensures IsDigit(c)
  {
    ('0' as int + d) as char
  }

  function DigitValue(c: char): (d: nat)
    requires IsDigit(c)
    ensures d < 10 && DigitChar(d) == c
  {
    c as int - '0' as int
  }

  /** `str(n)` for a non-negative integer: no leading zero, except for 0
      itself. */
  function Decimal(n: nat): (s: string)
    ensures s != [] && AllDigits(s)
    ensures s[0] == '0' <==> n == 0
    ensures n == 0 ==> s == "0"
  {
    if n < 10 then [DigitChar(n)] else Decimal(n / 10) + [DigitChar(n % 10)]
  }

  /** `int(s)` for a string of ASCII digits (the empty string reads as 0;
      callers rule it out where Python would raise). */
  function ParseDecimal(s: string): nat
    requires AllDigits(s)
  {
    if s == [] then 0 else 10 * ParseDecimal(s[..|s| - 1]) + DigitValue(s[|s| - 1])
  }

  /** `int(str(n)) == n` */
  lemma {:induction false} ParseDecimalOfDecimal(n: nat)
    ensures ParseDecimal(Decimal(n)) == n
  {
    var s := Decimal(n);
    if n >= 10 {
      assert s[..|s| - 1] == Decimal(n / 10);
      ParseDecimalOfDecimal(n / 10);
    }
  }

  /** A string of `'0'`s. */
  predicate AllZeros(s: string) { forall i :: 0 <= i < |s| ==> s[i] == '0' }

  /** `str(int(s)) == s` for digits without a leading zero. */
  lemma {:induction false} DecimalOfParse(s: string)
    requires s != [] && AllDigits(s) && (s[0] != '0' || |s| == 1)
    ensures Decimal(ParseDecimal(s)) == s
  {
    var init := s[..|s| - 1];
    if |s| == 1 {
      assert init == [];
    } else {
      DecimalOfParse(init);
      assert ParseDecimal(init) != 0 by {
        assert init[0] == s[0];
      }
      assert s == init + [s[|s| - 1]];
    }
  }

  /** Leading zeros do not change the value `int` reads. */
  lemma {:induction false} ParseDecimalZeros(z: string, t: string)
    requires AllZeros(z) && AllDigits(t)
    ensures AllDigits(z + t) && ParseDecimal(z + t) == ParseDecimal(t)
  {
    if t == [] {
      assert z + t == z;
      ParseDecimalOfZeros(z);
    } else {
      var init := t[..|t| - 1];
      assert (z + t)[..|z + t| - 1] == z + init;
      ParseDecimalZeros(z, init);
    }
  }

  lemma {:induction false} ParseDecimalOfZeros(z: string)
    requires AllZeros(z)
    ensures AllDigits(z) && ParseDecimal(z) == 0
  {
    if z != [] {
      ParseDecimalOfZeros(z[..|z| - 1]);
    }
  }

  /** The digits `int` accepts are leading zeros, then `str` of the value it
      reads. */
  lemma DigitsValue(s: string)
    requires s != [] && AllDigits(s)
    ensures exists k :: 0 <= k < |s| && AllZeros(s[..k]) && s[k..] == Decimal(ParseDecimal(s))
  {
    var k := LeadingZeros(s);
  }

  lemma LeadingZeros(s: string) returns (k: nat)
    requires s != [] && AllDigits(s)
    ensures k < |s| && AllZeros(s[..k]) && s[k..] == Decimal(ParseDecimal(s))
  {
    k := 0;
    while k < |s| - 1 && s[k] == '0'
      invariant k <= |s| - 1 && AllZeros(s[..k])
    {
      assert s[..k + 1] == s[..k] + [s[k]];
      k := k + 1;
    }
    assert s == s[..k] + s[k..];
    ParseDecimalZeros(s[..k], s[k..]);
    DecimalOfParse(s[k..]);
  }

  /** Different numbers print differently. */
  lemma DecimalInjective(m: nat, n: nat)
    requires Decimal(m) == Decimal(n)
    ensures m == n
  {
    ParseDecimalOfDecimal(m);
    ParseDecimalOfDecimal(n);
  }
}
