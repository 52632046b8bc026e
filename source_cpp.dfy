/**
 * The C++ sample (source.cpp): `main` accepts one argument only if it is laid
 * out as one character, ", ", one character, ", ", …, then calls `atoi` at every
 * character that is neither ',' nor ' '; `bubbleSort` shrinks its inner bound
 * after every pass and stops early after a pass without a swap.
 *
 * An argument is a C string: the model holds its characters without the
 * terminating NUL, so `strlen` is its length and reading one past the end gives
 * '\0'. Every outcome, the usage line included, exits with status 0.
 */
module CppSample {
  import opened Sorting
  import opened Text
  import opened Cli

  method Swap(v: array<int>, x: nat, y: nat)
    requires x < v.Length && y < v.Length
    modifies v
    ensures v[x] == old(v[y]) && v[y] == old(v[x])
    ensures forall k :: 0 <= k < v.Length && k != x && k != y ==> v[k] == old(v[k])
    ensures v[..] == Swapped(old(v[..]), x, y)
  {
    var temp := v[x];
    v[x] := v[y];
    v[y] := temp;
  }

  /**
   * The inner loop of `bubbleSort`, over the front `v[0..m)`: it carries a largest
   * element of the front to slot `m - 1`, and reports whether it exchanged anything.
   */
  method Pass(v: array<int>, n: nat, m: nat, ghost s0: seq<int>) returns (swapped: bool)
    requires 1 <= m <= n <= v.Length
    requires Bubbled(v[..n], s0, m)
    modifies v
    ensures v[n..] == old(v[n..])
    ensures Bubbled(v[..n], s0, m) && MaxAt(v[..n], m - 1)
    ensures !swapped ==> v[..n] == old(v[..n]) && AdjacentUpTo(v[..n], m - 1)
  {
    swapped := false;
    var j := 0;
    while j < m - 1
      invariant 0 <= j <= m - 1
      invariant v[n..] == old(v[n..])
      invariant Bubbled(v[..n], s0, m) && MaxAt(v[..n], j)
      invariant !swapped ==> v[..n] == old(v[..n]) && AdjacentUpTo(v[..n], j)
    {
      ghost var before := v[..n];
      StepKeeps(before, s0, m, j);
      if v[j] > v[j + 1] {
        Swap(v, j, j + 1);
        swapped := true;
      }
      assert v[..n] == Step(before, j);
      j := j + 1;
    }
  }

  /**
   * After `i` passes `v[n-i..n)` holds the `i` largest elements in order; the
   * sort stops after `n - 1` passes, or after a pass that swaps nothing, which
   * finds `v[0..n)` already sorted.
   */
  method BubbleSort(v: array<int>, n: nat)
    requires n <= v.Length
    modifies v
    ensures Sorted(v[..n])
    ensures multiset(v[..n]) == multiset(old(v[..n]))
    ensures v[n..] == old(v[n..])
    ensures v[..n] == Sort(old(v[..n]))
  {
    var i := 0;
    while i < n - 1
      invariant 0 <= i <= n
      invariant v[n..] == old(v[n..])
      invariant Bubbled(v[..n], old(v[..n]), n - i)
    {
      var swapped := Pass(v, n, n - i, old(v[..n]));
      if !swapped {
        Finish(v[..n], n - i);
        break;
      }
      PassEnd(v[..n], old(v[..n]), n - i);
      i := i + 1;
    }
    if i >= n - 1 {
      Finish(v[..n], n - i);
    }
    SortedPermutationIsSort(v[..n], old(v[..n]));
  }

  /** What `print` writes: nothing for an empty prefix, else the elements joined by ", " and a newline. */
  method Print(v: seq<int>, size: nat) returns (out: string)
    requires size <= |v|
    ensures size == 0 ==> out == ""
    ensures size > 0 ==> out == Join(Decimals(v[..size]), ", ") + "\n"
  {
    ghost var d := Decimals(v[..size]);
    out := "";
    var i := 0;
    assert d[0..] == d;
    while i < size
      invariant 0 <= i <= size
      invariant out + PrintedFrom(d, i, ", ", "\n") == PrintedFrom(d, 0, ", ", "\n")
    {
      PrintedFromStep(out, d, i, ", ", "\n");
      if i == size - 1 {
        out := out + Decimal(v[i]) + "\n";
      } else {
        out := out + Decimal(v[i]) + ", ";
      }
      i := i + 1;
    }
    assert out + "" == out;
  }

  /** `characters[k]` for `k` up to `strlen`: the terminator reads as '\0'. */
  function CharAt(s: string, k: nat): char
    requires k <= |s|
  {
    if k < |s| then s[k] else '\0'
  }

  /** Every index 1, 4, 7, … below the length holds ',' with a ' ' right after it. */
  predicate Layout(s: string)
  {
    forall k :: 0 <= k < |s| && k % 3 == 1 ==> s[k] == ',' && CharAt(s, k + 1) == ' '
  }

  /** The flag `commaSeparated` ends up set: the layout holds and was checked at least once. */
  predicate FormatOk(s: string)
  {
    |s| >= 2 && Layout(s)
  }

  /** The `while (index < strlen(characters))` loop of `main`. */
  method FormatCheck(characters: string) returns (commaSeparated: bool)
    ensures commaSeparated == FormatOk(characters)
  {
    commaSeparated := false;
    var index := 1;
    while index < |characters|
      invariant index >= 1 && index % 3 == 1
      invariant index <= |characters| + 2
      invariant commaSeparated <==> index > 1
      invariant forall k :: 0 <= k < index && k < |characters| && k % 3 == 1 ==>
        characters[k] == ',' && CharAt(characters, k + 1) == ' '
    {
      if characters[index] == ',' && CharAt(characters, index + 1) == ' ' {
        commaSeparated := true;
      } else {
        commaSeparated := false;
        return;
      }
      index := index + 3;
    }
  }

  /** What the `push_back` loop collects: `atoi` of the rest of the string at every character that is not ',' or ' '. */
  function Extract(s: string): seq<int>
  {
    if s == [] then []
    else (if s[0] != ',' && s[0] != ' ' then [LeadingInteger(s)] else []) + Extract(s[1..])
  }

  /** What the `push_back` loop adds at index `i`. */
  function ExtractHead(s: string, i: nat): seq<int>
    requires i < |s|
  {
    if s[i] != ',' && s[i] != ' ' then [LeadingInteger(s[i..])] else []
  }

  /** What the loop has collected once it has looked at `s[..i]`. */
  function ExtractUpTo(s: string, i: nat): seq<int>
    requires i <= |s|
  {
    if i == 0 then [] else ExtractUpTo(s, i - 1) + ExtractHead(s, i - 1)
  }

  /** Collecting up to `i` and then from `i` on is collecting the whole string. */
  lemma {:induction false} ExtractSplit(s: string, i: nat)
    requires i <= |s|
    ensures ExtractUpTo(s, i) + Extract(s[i..]) == Extract(s)
    decreases i
  {
    if i == 0 {
      assert s[0..] == s;
    } else {
      ExtractSplit(s, i - 1);
      assert s[i - 1..][1..] == s[i..];
      assert Extract(s[i - 1..]) == ExtractHead(s, i - 1) + Extract(s[i..]);
      ConcatAssoc(ExtractUpTo(s, i - 1), ExtractHead(s, i - 1), Extract(s[i..]));
    }
  }

  method ExtractNumbers(characters: string) returns (numbers: seq<int>)
    ensures numbers == Extract(characters)
  {
    numbers := [];
    var i := 0;
    while i < |characters|
      invariant 0 <= i <= |characters|
      invariant numbers == ExtractUpTo(characters, i)
    {
      if characters[i] != ',' && characters[i] != ' ' {
        numbers := numbers + [LeadingInteger(characters[i..])];
      }
      i := i + 1;
    }
    ExtractSplit(characters, i);
    assert characters[i..] == [];
    assert numbers + [] == numbers;
  }

  /** The numbers `main` collects from its arguments (`argv` includes the program name). */
  function Numbers(argv: seq<string>): seq<int>
  {
    if |argv| == 2 && FormatOk(argv[1]) then Extract(argv[1]) else []
  }

  /** `main`: fewer than two numbers gives the usage line, otherwise the sorted list; always status 0. */
  function Behaviour(argv: seq<string>): (r: Exit)
    ensures r.status == 0
    ensures r.outcome == Usage <==> |Numbers(argv)| < 2
  {
    var numbers := Numbers(argv);
    if |numbers| < 2 then Exit(Usage, 0)
    else Exit(Output(Join(Decimals(Sort(numbers)), ", ") + "\n"), 0)
  }

  method Run(argv: seq<string>) returns (e: Exit)
    ensures e == Behaviour(argv)
  {
    var numbers: seq<int> := [];
    if |argv| == 2 {
      var commaSeparated := FormatCheck(argv[1]);
      if commaSeparated {
        numbers := ExtractNumbers(argv[1]);
      }
    }
    assert numbers == Numbers(argv);
    var size := |numbers|;
    if size < 2 {
      return Exit(Usage, 0);
    }
    var v := new int[size](k requires 0 <= k < size => numbers[k]);
    assert v[..size] == numbers;
    BubbleSort(v, size);
    assert v[..size] == Sort(numbers);
    var text := Print(v[..], size);
    assert v[..][..size] == v[..size];
    e := Exit(Output(text), 0);
  }

  /** `atoi` at a character followed by ',' or by the end reads at most that one character: a value in 0..9. */
  lemma OneCharacterValue(t: string)
    requires |t| >= 1 && (|t| == 1 || t[1] == ',')
    ensures 0 <= LeadingInteger(t) <= 9
  {
    var rest := t[1..];
    assert rest == [] || rest[0] == ',';
    assert LeadingDigits(rest) == [];
    if IsSpace(t[0]) {
      assert SkipSpaces(rest) == rest;
      assert SkipSpaces(t) == rest;
    } else {
      assert SkipSpaces(t) == t;
      if IsDigit(t[0]) {
        assert LeadingDigits(t) == [t[0]] + LeadingDigits(rest);
        assert DigitsValue([t[0]]) == DigitValue(t[0]) by {
          assert [t[0]][..0] == [];
        }
      }
    }
  }

  /** Past the first character the layout needs ", ", so it never holds of exactly two characters. */
  lemma LayoutTail(s: string)
    requires Layout(s) && |s| >= 2
    ensures |s| >= 3 && s[1] == ',' && s[2] == ' ' && Layout(s[3..])
  {
    assert s[1] == ',' && CharAt(s, 2) == ' ';
    var t := s[3..];
    forall k | 0 <= k < |t| && k % 3 == 1
      ensures t[k] == ',' && CharAt(t, k + 1) == ' '
    {
      assert (k + 3) % 3 == 1 && s[k + 3] == ',' && CharAt(s, k + 4) == ' ';
    }
  }

  lemma ExtractSkipsSeparator(c: char, s: string)
    requires c == ',' || c == ' '
    ensures Extract([c] + s) == Extract(s)
  {
    assert ([c] + s)[1..] == s;
  }

  /** Under the layout every collected number is one character's worth: 0..9, so `atoi` never overflows. */
  lemma {:induction false} LayoutDigits(s: string)
    requires Layout(s)
    ensures forall k :: 0 <= k < |Extract(s)| ==> 0 <= Extract(s)[k] <= 9
    decreases |s|
  {
    if |s| == 1 {
      OneCharacterValue(s);
      assert Extract(s) == (if s[0] != ',' && s[0] != ' ' then [LeadingInteger(s)] else []) + Extract([]);
    } else if |s| >= 2 {
      LayoutTail(s);
      var head: seq<int> := if s[0] != ',' && s[0] != ' ' then [LeadingInteger(s)] else [];
      OneCharacterValue(s);
      assert s[1..] == [','] + s[2..] && s[2..] == [' '] + s[3..];
      ExtractSkipsSeparator(',', s[2..]);
      ExtractSkipsSeparator(' ', s[3..]);
      assert Extract(s) == head + Extract(s[3..]);
      LayoutDigits(s[3..]);
    }
  }

  /** An accepted argument holds no two digits in a row: every number of two or more digits is refused. */
  lemma NoAdjacentDigits(s: string, i: nat)
    requires FormatOk(s) && i + 1 < |s|
    ensures !(IsDigit(s[i]) && IsDigit(s[i + 1]))
  {
    if i % 3 == 0 {
      assert (i + 1) % 3 == 1 && s[i + 1] == ',';
    } else if i % 3 == 1 {
      assert s[i] == ',';
    } else {
      assert (i - 1) % 3 == 1 && CharAt(s, i) == ' ';
    }
  }

  /** Every element is one of 0..9. */
  predicate SingleDigits(xs: seq<int>)
  {
    forall k :: 0 <= k < |xs| ==> 0 <= xs[k] <= 9
  }

  /** A list of single digits as `print` writes it (without the newline), built one digit at a time. */
  function DigitsLine(xs: seq<int>): string
    requires |xs| >= 1 && SingleDigits(xs)
  {
    if |xs| == 1 then [DigitChar(xs[0])] else [DigitChar(xs[0])] + (", " + DigitsLine(xs[1..]))
  }

  lemma {:induction false} DigitsLineIsJoin(xs: seq<int>)
    requires |xs| >= 1 && SingleDigits(xs)
    ensures DigitsLine(xs) == Join(Decimals(xs), ", ")
  {
    assert Decimal(xs[0]) == [DigitChar(xs[0])];
    if |xs| >= 2 {
      DigitsLineIsJoin(xs[1..]);
      JoinDecimalsCons(xs, ", ");
      ConcatAssoc([DigitChar(xs[0])], ", ", Join(Decimals(xs[1..]), ", "));
    }
  }

  /** The characters of a printed list of single digits: digit, ',', ' ', digit, … */
  lemma {:induction false} DigitListLayout(xs: seq<int>)
    requires |xs| >= 1 && SingleDigits(xs)
    ensures Layout(DigitsLine(xs)) && |DigitsLine(xs)| == 3 * |xs| - 2
  {
    if |xs| >= 2 {
      var t := DigitsLine(xs[1..]);
      DigitListLayout(xs[1..]);
      var s := DigitsLine(xs);
      assert s == [DigitChar(xs[0])] + (", " + t);
      forall k | 0 <= k < |s| && k % 3 == 1
        ensures s[k] == ',' && CharAt(s, k + 1) == ' '
      {
        if k >= 4 {
          assert s[k] == t[k - 3] && CharAt(s, k + 1) == CharAt(t, k - 2);
          assert (k - 3) % 3 == 1;
        }
      }
    }
  }

  lemma ExtractOneDigit(x: int)
    requires 0 <= x <= 9
    ensures Extract([DigitChar(x)]) == [x]
  {
    var s := [DigitChar(x)];
    OneDigitValue(x, []);
    assert s + [] == s;
    assert Extract(s) == [LeadingInteger(s)] + Extract([]);
  }

  lemma ExtractDigitHead(x: int, t: string)
    requires 0 <= x <= 9
    ensures Extract([DigitChar(x)] + (", " + t)) == [x] + Extract(t)
  {
    var s := [DigitChar(x)] + (", " + t);
    OneDigitValue(x, ", " + t);
    assert s[1..] == [','] + ([' '] + t);
    ExtractSkipsSeparator(',', [' '] + t);
    ExtractSkipsSeparator(' ', t);
  }

  /** The `push_back` loop reads a printed list of single digits back as that list. */
  lemma {:induction false} DigitListExtract(xs: seq<int>)
    requires |xs| >= 1 && SingleDigits(xs)
    ensures Extract(DigitsLine(xs)) == xs
  {
    if |xs| == 1 {
      ExtractOneDigit(xs[0]);
    } else {
      var rest := xs[1..];
      assert SingleDigits(rest) by {
        forall k | 0 <= k < |rest| ensures 0 <= rest[k] <= 9 {
          assert rest[k] == xs[k + 1];
        }
      }
      var t := DigitsLine(rest);
      assert DigitsLine(xs) == [DigitChar(xs[0])] + (", " + t);
      DigitListExtract(rest);
      ExtractDigitHead(xs[0], t);
      assert xs == [xs[0]] + rest;
    }
  }

  lemma OneDigitValue(x: int, rest: string)
    requires 0 <= x <= 9 && (rest == [] || !IsDigit(rest[0]))
    ensures LeadingInteger([DigitChar(x)] + rest) == x
  {
    assert Decimal(x) == [DigitChar(x)];
    LeadingIntegerOfDecimal([], x, rest);
    assert [] + Decimal(x) + rest == [DigitChar(x)] + rest;
  }

  /** A printed list of at least two single digits is accepted and read back as that list. */
  lemma DigitListRoundTrip(prog: string, xs: seq<int>)
    requires |xs| >= 2 && SingleDigits(xs)
    ensures Numbers([prog, Join(Decimals(xs), ", ")]) == xs
  {
    DigitsLineIsJoin(xs);
    DigitListLayout(xs);
    DigitListExtract(xs);
  }

  /**
   * Whatever the program prints for an accepted argument, given back as its
   * argument (without the newline), makes it print the same line again.
   */
  lemma OutputIsFixedPoint(prog: string, s: string)
    requires |Numbers([prog, s])| >= 2
    ensures var line := Join(Decimals(Sort(Numbers([prog, s]))), ", ");
      Behaviour([prog, s]) == Exit(Output(line + "\n"), 0) &&
      Behaviour([prog, line]) == Exit(Output(line + "\n"), 0)
  {
    var xs := Numbers([prog, s]);
    assert xs == Extract(s);
    LayoutDigits(s);
    SortWithinBounds(xs, 0, 9);
    DigitListRoundTrip(prog, Sort(xs));
    SortIdempotent(xs);
  }

  /** Any argument count other than one, or an argument with the wrong layout, gives the usage line. */
  lemma RefusedArguments(argv: seq<string>)
    requires |argv| != 2 || !FormatOk(argv[1])
    ensures Behaviour(argv) == Exit(Usage, 0)
  {
  }
}
