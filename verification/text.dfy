/** The handful of Python `str` operations the route handlers rely on:
    `lower`, `capitalize`, `strip`, `split`, the substring test `in`, and the
    decimal rendering of an `int` inside an f-string. */
module Text {

  import opened Options

  // ---------------------------------------------------------------- characters

  /** Python `str.isspace`: the characters `strip()` removes. */
  predicate IsSpace(c: char) {
    || c == ' ' || c == '\t' || c == '\n' || c == '\r'
    || c == '\U{000B}' || c == '\U{000C}'
    || ('\U{001C}' <= c <= '\U{001F}')
    || c == '\U{0085}' || c == '\U{00A0}' || c == '\U{1680}'
    || ('\U{2000}' <= c <= '\U{200A}')
    || c == '\U{2028}' || c == '\U{2029}' || c == '\U{202F}'
    || c == '\U{205F}' || c == '\U{3000}'
  }

  predicate IsDigit(c: char) {
    '0' <= c <= '9'
  }

  predicate IsUpper(c: char) {
    'A' <= c <= 'Z'
  }

  predicate IsLower(c: char) {
    'a' <= c <= 'z'
  }

  function Lower(c: char): (d: char)
    ensures !IsUpper(d)
    ensures IsUpper(c) ==> d as int == c as int + 32
    ensures !IsUpper(c) ==> d == c
  {
    if IsUpper(c) then (c as int + 32) as char else c
  }

  function Upper(c: char): (d: char)
    ensures !IsLower(d)
    ensures IsLower(c) ==> d as int == c as int - 32
    ensures !IsLower(c) ==> d == c
  {
    if IsLower(c) then (c as int - 32) as char else c
  }

  // ---------------------------------------------------------------- case mapping

  /** Python `str.lower` on the ASCII letters. */
  function ToLower(s: string): (r: string)
    ensures |r| == |s|
    ensures forall i :: 0 <= i < |s| ==> r[i] == Lower(s[i])
  {
    seq(|s|, i requires 0 <= i < |s| => Lower(s[i]))
  }

  /** A string with no upper-case ASCII letter. */
  predicate IsLowered(s: string) {
    forall i :: 0 <= i < |s| ==> !IsUpper(s[i])
  }

  /** Lower-casing leaves nothing to lower, so a second pass changes nothing. */
  lemma ToLowerIdempotent(s: string)
    ensures IsLowered(ToLower(s))
    ensures ToLower(ToLower(s)) == ToLower(s)
  {
  }

  lemma ToLowerConcat(a: string, b: string)
    ensures ToLower(a + b) == ToLower(a) + ToLower(b)
  {
  }

  /** Python `str.capitalize`: first character upper-case, the rest lower-case. */
  function Capitalize(s: string): (r: string)
    ensures |r| == |s|
    ensures |s| > 0 ==> r[0] == Upper(s[0]) && !IsLower(r[0])
    ensures forall i :: 1 <= i < |s| ==> r[i] == Lower(s[i]) && !IsUpper(r[i])
  {
    if s == [] then [] else [Upper(s[0])] + ToLower(s[1..])
  }

  /** A capitalised name is a fixed point of `Capitalize`. */
  lemma CapitalizeIdempotent(s: string)
    ensures Capitalize(Capitalize(s)) == Capitalize(s)
  {
    var c := Capitalize(s);
    var cc := Capitalize(c);
    assert |cc| == |c|;
    forall i | 0 <= i < |c|
      ensures cc[i] == c[i]
    {
      if i == 0 {
        assert Upper(c[0]) == c[0];
      } else {
        assert Lower(c[i]) == c[i];
      }
    }
  }

  // ---------------------------------------------------------------- substring test

  /** `needle` occurs in `hay` starting at index `i`. */
  ghost predicate OccursAt(hay: string, needle: string, i: int) {
    0 <= i && i + |needle| <= |hay| && hay[i..i + |needle|] == needle
  }

  /** Python `needle in hay`: a left-to-right scan for an occurrence. */
  function Contains(hay: string, needle: string): (b: bool)
    ensures b ==> |needle| <= |hay|
    ensures needle == [] ==> b
    decreases |hay|
  {
    if |needle| > |hay| then false
    else if hay[..|needle|] == needle then true
    else Contains(hay[1..], needle)
  }

  /** The scan finds an occurrence exactly when one exists. */
  lemma {:induction false} ContainsIffOccurs(hay: string, needle: string)
    ensures Contains(hay, needle) <==> exists i :: OccursAt(hay, needle, i)
    decreases |hay|
  {
    if |needle| > |hay| {
      assert forall i :: !OccursAt(hay, needle, i);
    } else if hay[..|needle|] == needle {
      assert OccursAt(hay, needle, 0);
    } else {
      ContainsIffOccurs(hay[1..], needle);
      if Contains(hay[1..], needle) {
        var i :| OccursAt(hay[1..], needle, i);
        assert hay[1..][i..i + |needle|] == hay[i + 1..i + 1 + |needle|];
        assert OccursAt(hay, needle, i + 1);
      } else {
        forall i | OccursAt(hay, needle, i)
          ensures false
        {
          assert i != 0;
          assert hay[1..][i - 1..i - 1 + |needle|] == hay[i..i + |needle|];
          assert OccursAt(hay[1..], needle, i - 1);
        }
      }
    }
  }

  /** The empty string is in every string, as in Python. */
  lemma ContainsEmpty(hay: string)
    ensures Contains(hay, "")
  {
    ContainsIffOccurs(hay, "");
    assert OccursAt(hay, "", 0);
  }

  /** A string contains itself, and whatever it contains survives being embedded
      in a larger string. */
  lemma ContainsInContext(a: string, b: string, c: string, needle: string)
    requires Contains(b, needle)
    ensures Contains(a + b + c, needle)
  {
    ContainsIffOccurs(b, needle);
    var i :| OccursAt(b, needle, i);
    var h := a + b + c;
    assert h[|a| + i..|a| + i + |needle|] == b[i..i + |needle|];
    assert OccursAt(h, needle, |a| + i);
    ContainsIffOccurs(h, needle);
  }

  lemma ContainsSelf(s: string)
    ensures Contains(s, s)
  {
    assert s[..|s|] == s;
  }

  lemma OccurrenceCovers(hay: string, needle: string, i: int, p: int)
    requires OccursAt(hay, needle, i)
    requires i <= p < i + |needle|
    ensures needle[p - i] == hay[p]
  {
    assert hay[i..i + |needle|][p - i] == hay[p];
  }

  /** An occurrence in `a + [sep] + b` of a needle without `sep` is an
      occurrence in `a` or one in `b`. */
  lemma OccurrenceAvoidsSeparator(a: string, sep: char, b: string, needle: string, i: int)
    requires sep !in needle
    requires OccursAt(a + [sep] + b, needle, i)
    ensures OccursAt(a, needle, i) || OccursAt(b, needle, i - |a| - 1)
  {
    var h := a + [sep] + b;
    if i + |needle| <= |a| {
      assert h[i..i + |needle|] == a[i..i + |needle|];
    } else if i >= |a| + 1 {
      assert h[i..i + |needle|] == b[i - |a| - 1..i - |a| - 1 + |needle|];
    } else {
      OccurrenceCovers(h, needle, i, |a|);
      assert false;
    }
  }

  /** When the needle has no `sep`, an occurrence in `a + [sep] + b` lies wholly
      in `a` or wholly in `b`: the separator cannot be part of a match. */
  lemma ContainsAcrossSeparator(a: string, sep: char, b: string, needle: string)
    requires sep !in needle
    ensures Contains(a + [sep] + b, needle) <==> Contains(a, needle) || Contains(b, needle)
  {
    var h := a + [sep] + b;
    if Contains(h, needle) {
      ContainsIffOccurs(h, needle);
      var i :| OccursAt(h, needle, i);
      OccurrenceAvoidsSeparator(a, sep, b, needle, i);
      ContainsIffOccurs(a, needle);
      ContainsIffOccurs(b, needle);
    }
    if Contains(a, needle) {
      ContainsInContext([], a, [sep] + b, needle);
      assert [] + a + ([sep] + b) == h;
    }
    if Contains(b, needle) {
      ContainsInContext(a + [sep], b, [], needle);
      assert a + [sep] + b + [] == h;
    }
  }

  /** Lower-casing the haystack can only create occurrences of a needle that
      has no upper-case letters: every occurrence in `s` is one in `lower(s)`. */
  lemma ContainsLowered(s: string, needle: string)
    requires IsLowered(needle)
    requires Contains(s, needle)
    ensures Contains(ToLower(s), needle)
  {
    ContainsIffOccurs(s, needle);
    var i :| OccursAt(s, needle, i);
    var l := ToLower(s);
    assert l[i..i + |needle|] == needle by {
      forall k | 0 <= k < |needle|
        ensures l[i + k] == needle[k]
      {
        assert s[i + k] == needle[k];
      }
    }
    assert OccursAt(l, needle, i);
    ContainsIffOccurs(l, needle);
  }

  // ---------------------------------------------------------------- split and join

  /** Python `s.split(sep)` for a one-character separator: the fields between
      separators, always at least one (`"".split(",") == [""]`). */
  function Split(s: string, sep: char): (r: seq<string>)
    ensures |r| >= 1
    ensures forall k :: 0 <= k < |r| ==> sep !in r[k]
    ensures |r[0]| <= |s| && r[0] == s[..|r[0]|]
    ensures |r[0]| == |s| || s[|r[0]|] == sep
    decreases |s|
  {
    if s == [] then [[]]
    else
      var rest := Split(s[1..], sep);
      if s[0] == sep then [[]] + rest
      else [[s[0]] + rest[0]] + rest[1..]
  }

  /** Python `sep.join(fields)`. */
  function Join(fields: seq<string>, sep: char): string
    requires |fields| >= 1
    decreases |fields|
  {
    if |fields| == 1 then fields[0] else fields[0] + [sep] + Join(fields[1..], sep)
  }

  /** Joining the fields with the separator gives back the original string. */
  lemma {:induction false} SplitJoin(s: string, sep: char)
    ensures Join(Split(s, sep), sep) == s
    decreases |s|
  {
    if s != [] {
      var rest := Split(s[1..], sep);
      SplitJoin(s[1..], sep);
      if s[0] != sep && |rest| > 1 {
        assert rest[1..][1..] == rest[2..];
        assert Join(rest, sep) == rest[0] + [sep] + Join(rest[1..], sep);
      }
    }
  }

  /** The first field of a string whose first separator follows `a`. */
  lemma {:induction false} SplitFirstField(a: string, sep: char, b: string)
    requires sep !in a
    ensures Split(a + [sep] + b, sep)[0] == a
    decreases |a|
  {
    var s := a + [sep] + b;
    if a != [] {
      assert s[1..] == a[1..] + [sep] + b;
      SplitFirstField(a[1..], sep, b);
      assert [a[0]] + a[1..] == a;
    }
  }

  /** A leading field without the separator is split off whole, and the rest
      is split on its own. */
  lemma {:induction false} SplitAfterField(a: string, sep: char, b: string)
    requires sep !in a
    ensures Split(a + [sep] + b, sep) == [a] + Split(b, sep)
    decreases |a|
  {
    var s := a + [sep] + b;
    if a == [] {
      assert s[1..] == b;
    } else {
      assert s[1..] == a[1..] + [sep] + b;
      SplitAfterField(a[1..], sep, b);
      assert [a[0]] + a[1..] == a;
    }
  }

  /** A string without the separator is a single field. */
  lemma {:induction false} SplitWhole(s: string, sep: char)
    requires sep !in s
    ensures Split(s, sep) == [s]
    decreases |s|
  {
    if s != [] {
      SplitWhole(s[1..], sep);
      assert [s[0]] + s[1..] == s;
    }
  }

  lemma SplitNoSeparator(s: string, sep: char)
    requires sep !in s
    ensures Split(s, sep)[0] == s
  {
  }

  // ---------------------------------------------------------------- strip

  ghost predicate AllSpace(s: string) {
    forall i :: 0 <= i < |s| ==> IsSpace(s[i])
  }

  /** Neither end of `s` is whitespace. */
  predicate Trimmed(s: string) {
    s == [] || (!IsSpace(s[0]) && !IsSpace(s[|s| - 1]))
  }

  /** Python `str.lstrip()`. */
  function LStrip(s: string): (r: string)
    ensures |r| <= |s| && r == s[|s| - |r|..]
    ensures AllSpace(s[..|s| - |r|])
    ensures r == [] || !IsSpace(r[0])
    decreases |s|
  {
    if s != [] && IsSpace(s[0]) then LStrip(s[1..]) else s
  }

  /** Python `str.rstrip()`. */
  function RStrip(s: string): (r: string)
    ensures |r| <= |s| && r == s[..|r|]
    ensures AllSpace(s[|r|..])
    ensures r == [] || !IsSpace(r[|r| - 1])
    decreases |s|
  {
    if s != [] && IsSpace(s[|s| - 1]) then RStrip(s[..|s| - 1]) else s
  }

  /** Python `str.strip()`: the slice of `s` left after removing whitespace
      from both ends. */
  function Strip(s: string): (r: string)
    ensures Trimmed(r)
  {
    RStrip(LStrip(s))
  }

  /** What `strip` removes is whitespace at the two ends, and what it keeps
      is the stretch of `s` between them. */
  lemma StripSlice(s: string)
    ensures exists i, j :: 0 <= i <= j <= |s| && Strip(s) == s[i..j] && AllSpace(s[..i]) && AllSpace(s[j..])
  {
    var l := LStrip(s);
    var r := RStrip(l);
    var i := |s| - |l|;
    assert s[i..i + |r|] == r;
    assert s[i + |r|..] == l[|r|..];
  }

  /** Stripping removes characters and adds none. */
  lemma StripWithin(s: string)
    ensures forall c :: c in Strip(s) ==> c in s
  {
    StripSlice(s);
  }

  /** Stripping a string with no whitespace at either end changes nothing. */
  lemma StripTrimmed(s: string)
    requires Trimmed(s)
    ensures Strip(s) == s
  {
  }

  /** Leading whitespace is not part of the stripped value. */
  lemma StripLeadingSpace(c: char, s: string)
    requires IsSpace(c)
    ensures Strip([c] + s) == Strip(s)
  {
    assert ([c] + s)[1..] == s;
  }

  /** A string made only of whitespace strips to empty. */
  lemma StripAllSpace(s: string)
    requires AllSpace(s)
    ensures Strip(s) == ""
    decreases |s|
  {
    if s != [] {
      assert IsSpace(s[0]);
      StripAllSpace(s[1..]);
    }
  }

  // ---------------------------------------------------------------- decimals

  predicate AllDigits(s: string) {
    forall i :: 0 <= i < |s| ==> IsDigit(s[i])
  }

  /** The decimal form Python prints for a non-negative `int`: digits only, and
      no leading zero except for `0` itself. */
  predicate Canonical(s: string) {
    |s| >= 1 && AllDigits(s) && (|s| == 1 || s[0] != '0')
  }

  function DigitChar(d: nat): (c: char)
    requires d < 10
    ensures IsDigit(c) && c as int - '0' as int == d
  {
    ('0' as int + d) as char
  }

  /** `str(n)` for a non-negative `int`. */
  function NatToString(n: nat): (s: string)
    ensures Canonical(s)
    ensures n == 0 <==> s == "0"
    decreases n
  {
    if n < 10 then [DigitChar(n)] else NatToString(n / 10) + [DigitChar(n % 10)]
  }

  /** The number a string of decimal digits denotes. */
  function DigitsValue(s: string): nat
    requires AllDigits(s)
    decreases |s|
  {
    if s == [] then 0 else DigitsValue(s[..|s| - 1]) * 10 + (s[|s| - 1] as int - '0' as int)
  }

  /** Reading back the decimal form gives the number. */
  lemma {:induction false} ReadNatToString(n: nat)
    ensures DigitsValue(NatToString(n)) == n
    decreases n
  {
    if n >= 10 {
      var s := NatToString(n);
      assert s[..|s| - 1] == NatToString(n / 10);
      ReadNatToString(n / 10);
    }
  }

  lemma {:induction false} CanonicalPositive(s: string)
    requires Canonical(s) && s[0] != '0'
    ensures DigitsValue(s) > 0
    decreases |s|
  {
    if |s| > 1 {
      var p := s[..|s| - 1];
      assert p[0] == s[0];
      CanonicalPositive(p);
    }
  }

  /** Every canonical decimal string is `str(n)` of the number it denotes. */
  lemma {:induction false} NatToStringOfDigits(s: string)
    requires Canonical(s)
    ensures NatToString(DigitsValue(s)) == s
    decreases |s|
  {
    if |s| > 1 {
      var p := s[..|s| - 1];
      assert p[0] == s[0];
      CanonicalPositive(p);
      NatToStringOfDigits(p);
      var d := s[|s| - 1] as int - '0' as int;
      var n := DigitsValue(s);
      assert n == DigitsValue(p) * 10 + d;
      assert n / 10 == DigitsValue(p) && n % 10 == d;
      assert s == p + [s[|s| - 1]];
    }
  }

  /** Decimal rendering is injective. */
  lemma NatToStringInjective(m: nat, n: nat)
    requires NatToString(m) == NatToString(n)
    ensures m == n
  {
    ReadNatToString(m);
    ReadNatToString(n);
  }

  /** The length of the run of decimal digits at the start of `s`. */
  function DigitRun(s: string): (k: nat)
    ensures k <= |s| && AllDigits(s[..k])
    ensures k == |s| || !IsDigit(s[k])
    decreases |s|
  {
    if s != [] && IsDigit(s[0]) then 1 + DigitRun(s[1..]) else 0
  }

  /** The digit run of `digits + rest` ends where `rest` begins, when `rest`
      does not start with a digit. */
  lemma {:induction false} DigitRunOfPrefix(digits: string, rest: string)
    requires AllDigits(digits)
    requires rest == [] || !IsDigit(rest[0])
    ensures DigitRun(digits + rest) == |digits|
    decreases |digits|
  {
    if digits != [] {
      assert (digits + rest)[1..] == digits[1..] + rest;
      DigitRunOfPrefix(digits[1..], rest);
    }
  }

  // ---------------------------------------------------------------- templates

  /** An f-string `f"{pre}{n}{post}"`. */
  function Interpolate(pre: string, n: nat, post: string): string {
    pre + NatToString(n) + post
  }

  /** Reads the number back out of a string of the form `pre + digits + post`;
      `None` when the string has another shape. */
  function ReadInterpolated(pre: string, s: string, post: string): (r: Option<nat>)
    ensures r.Some? ==> Interpolate(pre, r.value, post) == s
  {
    if |s| >= |pre| + |post| && s[..|pre|] == pre && s[|s| - |post|..] == post
       && Canonical(s[|pre|..|s| - |post|]) then
      var mid := s[|pre|..|s| - |post|];
      NatToStringOfDigits(mid);
      assert s == pre + mid + post;
      Some(DigitsValue(mid))
    else None
  }

  /** The interpolated number can always be read back. */
  lemma ReadInterpolate(pre: string, n: nat, post: string)
    ensures ReadInterpolated(pre, Interpolate(pre, n, post), post) == Some(n)
  {
    var s := Interpolate(pre, n, post);
    var d := NatToString(n);
    assert s[..|pre|] == pre;
    assert s[|s| - |post|..] == post;
    assert s[|pre|..|s| - |post|] == d;
    ReadNatToString(n);
  }
}
