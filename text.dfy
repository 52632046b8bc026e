/**
 * Decimal numerals and comma lists, shared by the four samples: how an integer
 * is printed (`%ld`, `operator<<`, `Integer.toString`, JSON numbers all print the
 * same way), the two grammars their parsers accept (a C-library prefix and a
 * whole string), and splitting and joining on a separator.
 */
module Text {
  import opened Wrappers

  predicate IsDigit(c: char)
  {
    '0' <= c <= '9'
  }

  predicate AllDigits(s: string)
  {
    forall i :: 0 <= i < |s| ==> IsDigit(s[i])
  }

  function DigitValue(c: char): (d: nat)
    requires IsDigit(c)
    ensures d < 10
  {
    c as int - '0' as int
  }

  function DigitChar(d: nat): (c: char)
    requires d < 10
    ensures IsDigit(c) && DigitValue(c) == d
  {
    ('0' as int + d) as char
  }

  /** The value of a string of decimal digits, most significant first ("" is 0). */
  function DigitsValue(s: string): nat
    requires AllDigits(s)
  {
    if s == [] then 0 else 10 * DigitsValue(s[..|s| - 1]) + DigitValue(s[|s| - 1])
  }

  /** The decimal digits of `n`, without leading zeros. */
  function Natural(n: nat): (r: string)
    ensures |r| >= 1 && AllDigits(r)
  {
    if n < 10 then [DigitChar(n)] else Natural(n / 10) + [DigitChar(n % 10)]
  }

  /** How every sample prints an integer: digits, with '-' in front of a negative value. */
  function Decimal(x: int): string
  {
    if x < 0 then "-" + Natural(-x) else Natural(x)
  }

  /** A printed number is a digit string, maybe after '-': no separator, bracket or space in it. */
  lemma DecimalShape(x: int)
    ensures var r := Decimal(x);
      |r| >= 1 && IsDigit(r[|r| - 1]) &&
      (IsDigit(r[0]) || (r[0] == '-' && |r| >= 2 && AllDigits(r[1..]))) &&
      ',' !in r && ' ' !in r && '[' !in r && ']' !in r
  {
    var r := Decimal(x);
    var n := Natural(if x < 0 then -x else x);
    assert forall i :: 0 <= i < |n| ==> IsDigit(n[i]);
    if x < 0 {
      assert r == "-" + n && r[1..] == n;
      assert forall i :: 1 <= i < |r| ==> r[i] == n[i - 1];
    } else {
      assert r == n;
    }
  }

  lemma {:induction false} NaturalValue(n: nat)
    ensures DigitsValue(Natural(n)) == n
  {
    if n >= 10 {
      var r := Natural(n);
      assert r[..|r| - 1] == Natural(n / 10);
      NaturalValue(n / 10);
    }
  }

  /** The whole-string grammar `[+-]?[0-9]+` of `Integer.parseInt` and `strconv.Atoi`, before their range checks. */
  function ParseSigned(s: string): (r: Option<int>)
    ensures r.Some? ==> 1 <= |s|
  {
    if |s| > 0 && (s[0] == '+' || s[0] == '-') then
      var ds := s[1..];
      if |ds| > 0 && AllDigits(ds) then
        var v: int := DigitsValue(ds);
        Some(if s[0] == '-' then -v else v)
      else
        None
    else if |s| > 0 && AllDigits(s) then
      Some(DigitsValue(s))
    else
      None
  }

  /** Reading back what `Decimal` printed gives the number. */
  lemma DecimalRoundTrip(x: int)
    ensures ParseSigned(Decimal(x)) == Some(x)
  {
    var d := Decimal(x);
    if x < 0 {
      var n := Natural(-x);
      assert d == "-" + n && d[0] == '-';
      assert d[1..] == n;
      NaturalValue(-x);
    } else {
      var n := Natural(x);
      assert d == n && IsDigit(d[0]);
      NaturalValue(x);
    }
  }

  predicate AllZeros(s: string)
  {
    forall i :: 0 <= i < |s| ==> s[i] == '0'
  }

  /** A digit string without its leading zeros, keeping the last digit. */
  function StripZeros(ds: string): string
  {
    if |ds| > 1 && ds[0] == '0' then StripZeros(ds[1..]) else ds
  }

  /**
   * The canonical spelling of a numeral accepted by `ParseSigned`: no '+',
   * no leading zeros, and no '-' in front of zero.
   */
  function Canonical(s: string): string
  {
    if |s| > 0 && (s[0] == '+' || s[0] == '-') then
      var m := StripZeros(s[1..]);
      if s[0] == '-' && m != "0" then "-" + m else m
    else
      StripZeros(s)
  }

  lemma {:induction false} ZeroValue(ds: string)
    requires AllDigits(ds)
    ensures DigitsValue(ds) == 0 <==> AllZeros(ds)
  {
    if ds != [] {
      var front := ds[..|ds| - 1];
      assert AllDigits(front) by {
        forall i | 0 <= i < |front| ensures IsDigit(front[i]) { assert front[i] == ds[i]; }
      }
      ZeroValue(front);
      if AllZeros(ds) {
        assert forall i :: 0 <= i < |front| ==> front[i] == ds[i];
      }
      if AllZeros(front) && ds[|ds| - 1] == '0' {
        assert forall i :: 0 <= i < |ds| - 1 ==> ds[i] == front[i];
      }
    }
  }

  lemma {:induction false} StripZerosOfZeros(front: string, c: char)
    requires AllZeros(front)
    ensures StripZeros(front + [c]) == [c]
    decreases |front|
  {
    if front != [] {
      var rest := front[1..];
      assert AllZeros(rest) by {
        forall i | 0 <= i < |rest| ensures rest[i] == '0' { assert rest[i] == front[i + 1]; }
      }
      assert (front + [c])[1..] == rest + [c];
      StripZerosOfZeros(rest, c);
    }
  }

  lemma {:induction false} StripZerosSnoc(front: string, c: char)
    requires !AllZeros(front)
    ensures StripZeros(front + [c]) == StripZeros(front) + [c]
    decreases |front|
  {
    if front[0] == '0' {
      var rest := front[1..];
      var i :| 0 <= i < |front| && front[i] != '0';
      assert rest[i - 1] == front[i];
      assert (front + [c])[1..] == rest + [c];
      StripZerosSnoc(rest, c);
    }
  }

  /** `Natural` of a digit string's value spells those digits without leading zeros. */
  lemma {:induction false} NaturalOfDigits(ds: string)
    requires |ds| >= 1 && AllDigits(ds)
    ensures Natural(DigitsValue(ds)) == StripZeros(ds)
  {
    var front := ds[..|ds| - 1];
    var c := ds[|ds| - 1];
    assert ds == front + [c];
    assert AllDigits(front) by {
      forall i | 0 <= i < |front| ensures IsDigit(front[i]) { assert front[i] == ds[i]; }
    }
    var v := DigitsValue(front);
    var n := DigitsValue(ds);
    assert n == 10 * v + DigitValue(c);
    assert DigitChar(DigitValue(c)) == c;
    ZeroValue(front);
    if AllZeros(front) {
      StripZerosOfZeros(front, c);
    } else {
      assert n / 10 == v && n % 10 == DigitValue(c);
      NaturalOfDigits(front);
      StripZerosSnoc(front, c);
    }
  }

  /** Whatever `ParseSigned` accepts is the decimal of its value, up to sign and leading zeros. */
  lemma ParsedIsCanonical(s: string)
    requires ParseSigned(s).Some?
    ensures Decimal(ParseSigned(s).value) == Canonical(s)
  {
    var signed := s[0] == '+' || s[0] == '-';
    var ds := if signed then s[1..] else s;
    var n := DigitsValue(ds);
    NaturalOfDigits(ds);
    if signed && s[0] == '-' && n != 0 {
      NaturalValue(n);
      assert DigitsValue("0") == 0;
    }
  }

  /** The characters C's `isspace` accepts in the "C" locale. */
  predicate IsSpace(c: char)
  {
    c == ' ' || 9 <= c as int <= 13
  }

  function SkipSpaces(s: string): (r: string)
    ensures |r| <= |s|
    ensures |r| > 0 ==> !IsSpace(r[0])
  {
    if |s| > 0 && IsSpace(s[0]) then SkipSpaces(s[1..]) else s
  }

  /** The longest prefix of `s` made of digits. */
  function LeadingDigits(s: string): (r: string)
    ensures AllDigits(r) && |r| <= |s|
    ensures |r| < |s| ==> !IsDigit(s[|r|])
  {
    if |s| > 0 && IsDigit(s[0]) then [s[0]] + LeadingDigits(s[1..]) else []
  }

  /**
   * The value `strtol(s, NULL, 10)` and `atoi(s)` compute before any range
   * handling: leading white space, an optional sign, then as many digits as
   * follow (none gives 0); the rest of `s` is ignored.
   */
  function LeadingInteger(s: string): int
  {
    SignedPrefix(SkipSpaces(s))
  }

  /** An optional sign and the digits right after it. */
  function SignedPrefix(t: string): int
  {
    if |t| > 0 && (t[0] == '+' || t[0] == '-') then
      var v: int := DigitsValue(LeadingDigits(t[1..]));
      if t[0] == '-' then -v else v
    else
      DigitsValue(LeadingDigits(t))
  }

  lemma LeadingDigitsOfDigits(ds: string, rest: string)
    requires AllDigits(ds)
    requires rest == [] || !IsDigit(rest[0])
    ensures LeadingDigits(ds + rest) == ds
  {
    if ds != [] {
      assert (ds + rest)[1..] == ds[1..] + rest;
      LeadingDigitsOfDigits(ds[1..], rest);
    }
  }

  /** The C-library reading of a printed number, with white space before it and anything but a digit after it. */
  lemma LeadingIntegerOfDecimal(spaces: string, x: int, rest: string)
    requires forall i :: 0 <= i < |spaces| ==> IsSpace(spaces[i])
    requires rest == [] || !IsDigit(rest[0])
    ensures LeadingInteger(spaces + Decimal(x) + rest) == x
  {
    var t := Decimal(x) + rest;
    DecimalHeadNotSpace(x, rest);
    SkipSpacesPrefix(spaces, t);
    SignedPrefixOfDecimal(x, rest);
    assert spaces + Decimal(x) + rest == spaces + t;
  }

  lemma DecimalHeadNotSpace(x: int, rest: string)
    ensures |Decimal(x) + rest| > 0 && !IsSpace((Decimal(x) + rest)[0])
  {
    DecimalShape(x);
    assert (Decimal(x) + rest)[0] == Decimal(x)[0];
  }

  lemma SignedPrefixOfDecimal(x: int, rest: string)
    requires rest == [] || !IsDigit(rest[0])
    ensures SignedPrefix(Decimal(x) + rest) == x
  {
    if x < 0 {
      SignedPrefixOfNegative(-x, rest);
    } else {
      SignedPrefixOfNatural(x, rest);
    }
  }

  lemma SignedPrefixOfNatural(n: nat, rest: string)
    requires rest == [] || !IsDigit(rest[0])
    ensures SignedPrefix(Natural(n) + rest) == n
  {
    var ds := Natural(n);
    var t := ds + rest;
    assert t[0] == ds[0] && IsDigit(t[0]);
    LeadingDigitsOfDigits(ds, rest);
    NaturalValue(n);
  }

  lemma SignedPrefixOfNegative(n: nat, rest: string)
    requires rest == [] || !IsDigit(rest[0])
    ensures SignedPrefix("-" + Natural(n) + rest) == -(n as int)
  {
    var ds := Natural(n);
    var t := "-" + ds + rest;
    assert t[0] == '-' && t[1..] == ds + rest;
    LeadingDigitsOfDigits(ds, rest);
    NaturalValue(n);
  }

  lemma {:induction false} SkipSpacesPrefix(spaces: string, s: string)
    requires forall i :: 0 <= i < |spaces| ==> IsSpace(spaces[i])
    requires s == [] || !IsSpace(s[0])
    ensures SkipSpaces(spaces + s) == s
  {
    if spaces == [] {
      assert spaces + s == s;
    } else {
      var t := spaces + s;
      assert t[0] == spaces[0] && IsSpace(t[0]);
      assert t[1..] == spaces[1..] + s;
      SkipSpacesPrefix(spaces[1..], s);
    }
  }

  /** The decimal renderings of `xs`, in order. */
  function Decimals(xs: seq<int>): (r: seq<string>)
    ensures |r| == |xs| && forall k :: 0 <= k < |xs| ==> r[k] == Decimal(xs[k])
  {
    seq(|xs|, k requires 0 <= k < |xs| => Decimal(xs[k]))
  }

  /** The parts with `sep` between each two neighbours. */
  function Join(parts: seq<string>, sep: string): string
  {
    if |parts| == 0 then ""
    else if |parts| == 1 then parts[0]
    else parts[0] + sep + Join(parts[1..], sep)
  }

  lemma ConcatAssoc<T>(a: seq<T>, b: seq<T>, c: seq<T>)
    ensures a + (b + c) == a + b + c
  {
  }

  /** What starts `b` still starts `b + c`. */
  lemma PrefixOfConcat<T>(a: seq<T>, b: seq<T>, c: seq<T>)
    requires |a| <= |b| && b[..|a|] == a
    ensures |a| <= |b + c| && (b + c)[..|a|] == a
  {
    assert (b + c)[..|a|] == b[..|a|];
  }

  /** The rest of a joined list from part `i` on: part `i`, the separator, and the rest from `i + 1` on. */
  lemma JoinFrom(d: seq<string>, i: nat, sep: string, end: string)
    requires i + 1 < |d|
    ensures Join(d[i..], sep) + end == d[i] + sep + (Join(d[i + 1..], sep) + end)
  {
    assert d[i..][1..] == d[i + 1..];
  }

  /** What is left to print from element `i` on: the rest of the list joined by `sep`, then `end`. */
  ghost function PrintedFrom(d: seq<string>, i: nat, sep: string, end: string): string
  {
    if i < |d| then Join(d[i..], sep) + end else ""
  }

  /** Printing element `i`: the element, then `end` after the last one and `sep` after the others. */
  lemma PrintedFromStep(out: string, d: seq<string>, i: nat, sep: string, end: string)
    requires i < |d|
    ensures out + PrintedFrom(d, i, sep, end) ==
      out + d[i] + (if i == |d| - 1 then end else sep) + PrintedFrom(d, i + 1, sep, end)
  {
    if i == |d| - 1 {
      assert d[i..] == [d[i]];
    } else {
      JoinFrom(d, i, sep, end);
    }
  }

  lemma JoinPair(a: string, b: string, sep: string)
    ensures Join([a, b], sep) == a + sep + b
  {
    assert [a, b][1..] == [b];
  }

  /** One more part at the end of a joined list comes after one more separator. */
  lemma {:induction false} JoinSnoc(parts: seq<string>, p: string, sep: string)
    requires |parts| >= 1
    ensures Join(parts + [p], sep) == Join(parts, sep) + sep + p
  {
    if |parts| == 1 {
      assert parts + [p] == [parts[0], p];
      JoinPair(parts[0], p, sep);
    } else {
      assert (parts + [p])[1..] == parts[1..] + [p];
      JoinSnoc(parts[1..], p, sep);
    }
  }

  /** The first `k` parts joined: the first `k - 1` joined, the separator, part `k - 1`. */
  lemma JoinTake(front: string, d: seq<string>, k: nat, sep: string)
    requires 2 <= k <= |d| && front == Join(d[..k - 1], sep)
    ensures front + (sep + d[k - 1]) == Join(d[..k], sep)
  {
    assert d[..k] == d[..k - 1] + [d[k - 1]];
    JoinSnoc(d[..k - 1], d[k - 1], sep);
  }

  lemma JoinFirst(d: seq<string>, sep: string)
    requires |d| >= 1
    ensures Join(d[..1], sep) == d[0]
  {
    assert d[..1] == [d[0]];
  }

  /** A joined list starts with its first part. */
  lemma JoinHead(parts: seq<string>, sep: string)
    requires |parts| >= 1
    ensures |parts[0]| <= |Join(parts, sep)| && Join(parts, sep)[..|parts[0]|] == parts[0]
  {
    if |parts| >= 2 {
      PrefixOfConcat(parts[0], parts[0], sep + Join(parts[1..], sep));
      assert parts[0][..|parts[0]|] == parts[0];
      ConcatAssoc(parts[0], sep, Join(parts[1..], sep));
    }
  }

  /** A joined list of non-empty parts starts with the first character of its first part and ends with the last of its last. */
  lemma {:induction false} JoinEnds(parts: seq<string>, sep: string)
    requires |parts| >= 1 && forall k :: 0 <= k < |parts| ==> parts[k] != []
    ensures var j := Join(parts, sep); var z := parts[|parts| - 1];
      |j| > 0 && j[0] == parts[0][0] && j[|j| - 1] == z[|z| - 1]
  {
    if |parts| >= 2 {
      var tail := Join(parts[1..], sep);
      JoinEnds(parts[1..], sep);
      assert Join(parts, sep) == (parts[0] + sep) + tail;
    }
  }

  /** The pieces of `s` between occurrences of `c`, empty pieces included. */
  function SplitOn(s: string, c: char): (r: seq<string>)
    ensures |r| >= 1
  {
    if s == [] then
      [[]]
    else
      var rest := SplitOn(s[1..], c);
      if s[0] == c then [[]] + rest else [[s[0]] + rest[0]] + rest[1..]
  }

  /** One more piece than there are separators. */
  lemma {:induction false} SplitOnCount(s: string, c: char)
    ensures |SplitOn(s, c)| == multiset(s)[c] + 1
  {
    if s != [] {
      assert s == [s[0]] + s[1..];
      SplitOnCount(s[1..], c);
    }
  }

  /** A separator at the end adds an empty last piece. */
  lemma {:induction false} SplitOnSnoc(s: string, c: char)
    ensures SplitOn(s + [c], c) == SplitOn(s, c) + [[]]
  {
    var t := s + [c];
    if s == [] {
      assert t == [c] && t[1..] == [];
    } else {
      assert t[0] == s[0] && t[1..] == s[1..] + [c];
      SplitOnSnoc(s[1..], c);
    }
  }

  /** Without the separator the whole string is the one piece. */
  lemma SplitOnNone(s: string, c: char)
    requires c !in s
    ensures SplitOn(s, c) == [s]
  {
    SplitOnCount(s, c);
    JoinSplitOn(s, c);
  }

  /** Joining the pieces back with `c` gives `s`. */
  lemma {:induction false} JoinSplitOn(s: string, c: char)
    ensures Join(SplitOn(s, c), [c]) == s
  {
    if s != [] {
      var rest := SplitOn(s[1..], c);
      JoinSplitOn(s[1..], c);
      if s[0] != c {
        var r := SplitOn(s, c);
        assert r[1..] == rest[1..];
        if |rest| > 1 {
          assert rest == [rest[0]] + rest[1..];
        }
      } else {
        assert SplitOn(s, c)[1..] == rest;
      }
    }
  }

  /** Splitting a word without `c` in front of anything adds the word to the first piece. */
  lemma {:induction false} SplitOnWord(w: string, s: string, c: char)
    requires c !in w
    ensures SplitOn(w + s, c) == [w + SplitOn(s, c)[0]] + SplitOn(s, c)[1..]
  {
    var r := SplitOn(s, c);
    if w == [] {
      assert w + s == s && w + r[0] == r[0];
      assert r == [r[0]] + r[1..];
    } else {
      var t := w + s;
      assert t[0] == w[0] && t[0] != c;
      assert t[1..] == w[1..] + s;
      SplitOnWord(w[1..], s, c);
      var inner := SplitOn(t[1..], c);
      assert inner == [w[1..] + r[0]] + r[1..];
      assert SplitOn(t, c) == [[t[0]] + inner[0]] + inner[1..];
      assert [t[0]] + inner[0] == w + r[0];
    }
  }

  /** Splitting on `c` recovers the parts that were joined with `c`. */
  lemma {:induction false} SplitOnJoin(parts: seq<string>, c: char)
    requires |parts| >= 1
    requires forall k :: 0 <= k < |parts| ==> c !in parts[k]
    ensures SplitOn(Join(parts, [c]), c) == parts
  {
    if |parts| == 1 {
      SplitOnWord(parts[0], [], c);
      assert parts[0] + [] == parts[0];
      assert SplitOn([], c) == [[]];
      assert parts == [parts[0]];
    } else {
      var tail := Join(parts[1..], [c]);
      SplitOnJoin(parts[1..], c);
      assert Join(parts, [c]) == parts[0] + ([c] + tail);
      SplitOnWord(parts[0], [c] + tail, c);
      assert ([c] + tail)[1..] == tail;
      var pieces := SplitOn([c] + tail, c);
      assert pieces == [[]] + parts[1..];
      assert pieces[0] == [] && pieces[1..] == parts[1..];
      assert parts[0] + pieces[0] == parts[0];
      assert parts == [parts[0]] + parts[1..];
    }
  }

  /** A joined list of printed numbers, seen one part and one separator at a time. */
  lemma JoinDecimalsCons(xs: seq<int>, sep: string)
    requires |xs| >= 2
    ensures Join(Decimals(xs), sep) == Decimal(xs[0]) + sep + Join(Decimals(xs[1..]), sep)
  {
    assert Decimals(xs)[1..] == Decimals(xs[1..]);
  }

  /** Each part with `b` in front. */
  function Prefixed(parts: seq<string>, b: string): (r: seq<string>)
    ensures |r| == |parts| && forall k :: 0 <= k < |parts| ==> r[k] == b + parts[k]
  {
    seq(|parts|, k requires 0 <= k < |parts| => b + parts[k])
  }

  lemma {:induction false} PrefixJoin(parts: seq<string>, a: string, b: string)
    requires |parts| >= 1
    ensures b + Join(parts, a + b) == Join(Prefixed(parts, b), a)
  {
    if |parts| >= 2 {
      var tail := Join(parts[1..], a + b);
      PrefixJoin(parts[1..], a, b);
      assert Prefixed(parts, b)[1..] == Prefixed(parts[1..], b);
      assert b + Join(parts, a + b) == (b + parts[0]) + a + (b + tail);
    }
  }

  /**
   * A list joined with `a + b` is the same text as the list joined with `a`, every
   * part but the first led by `b`: how ", " looks to a split on ','.
   */
  lemma JoinTwoPartSeparator(parts: seq<string>, a: string, b: string)
    requires |parts| >= 2
    ensures Join(parts, a + b) == Join([parts[0]] + Prefixed(parts[1..], b), a)
  {
    var tail := Join(parts[1..], a + b);
    PrefixJoin(parts[1..], a, b);
    var q := [parts[0]] + Prefixed(parts[1..], b);
    assert q[0] == parts[0] && q[1..] == Prefixed(parts[1..], b);
    assert Join(parts, a + b) == parts[0] + a + (b + tail);
  }

  /** The pieces between the commas of a printed list: the first number, then each further number led by its space. */
  function PrintedPieces(xs: seq<int>): (r: seq<string>)
    ensures |r| == |xs|
    ensures forall k :: 0 <= k < |xs| ==> r[k] == (if k == 0 then "" else " ") + Decimal(xs[k])
  {
    seq(|xs|, k requires 0 <= k < |xs| => (if k == 0 then "" else " ") + Decimal(xs[k]))
  }

  /** Splitting a printed list at its commas gives back its pieces, none of them empty. */
  lemma SplitPrinted(xs: seq<int>)
    requires |xs| >= 2
    ensures SplitOn(Join(Decimals(xs), ", "), ',') == PrintedPieces(xs)
    ensures forall k :: 0 <= k < |xs| ==> PrintedPieces(xs)[k] != [] && ',' !in PrintedPieces(xs)[k]
  {
    var ds := Decimals(xs);
    var parts := PrintedPieces(xs);
    JoinTwoPartSeparator(ds, ",", " ");
    assert "," + " " == ", ";
    var alt := [ds[0]] + Prefixed(ds[1..], " ");
    assert alt[0] == "" + ds[0];
    assert forall k :: 0 <= k < |xs| ==> parts[k] == alt[k];
    assert parts == alt;
    forall k | 0 <= k < |parts|
      ensures ',' !in parts[k] && parts[k] != []
    {
      DecimalShape(xs[k]);
    }
    SplitOnJoin(parts, ',');
  }
}
