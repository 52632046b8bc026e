/**
 * The Go sample (source.go): `main` wants exactly one argument, splits it with
 * the regular expression ", ?", reads every piece with `strconv.Atoi`, sorts the
 * slice in place with repeated full passes until one makes no swap, and prints
 * it through `json.Marshal`, every "," widened to ", " and the brackets trimmed.
 * A refusal prints the usage line and exits with status 1.
 *
 * `argv` holds the program name first. Go `int` is taken to be 64 bits wide.
 */
module GoSample {
  import opened Wrappers
  import opened Sorting
  import opened Text
  import opened Cli

  const IntMin: int := -0x8000_0000_0000_0000
  const IntMax: int := 0x7FFF_FFFF_FFFF_FFFF

  /**
   * One full pass of `bubbleSort`: every adjacent pair, exchanged when out of
   * order. It reports a swap exactly when the slice was not yet in order.
   */
  method Pass(list: array<int>) returns (swapped: bool)
    modifies list
    ensures multiset(list[..]) == multiset(old(list[..]))
    ensures swapped <==> !AdjacentSorted(old(list[..]))
    ensures swapped ==> Inversions(list[..]) < Inversions(old(list[..]))
    ensures !swapped ==> list[..] == old(list[..])
  {
    swapped := false;
    var i := 0;
    while i < list.Length - 1
      invariant 0 <= i <= list.Length
      invariant list.Length > 0 ==> i <= list.Length - 1
      invariant multiset(list[..]) == multiset(old(list[..]))
      invariant !swapped ==> list[..] == old(list[..]) && AdjacentUpTo(list[..], i)
      invariant swapped ==> !AdjacentSorted(old(list[..]))
      invariant swapped ==> Inversions(list[..]) < Inversions(old(list[..]))
    {
      if list[i] > list[i + 1] {
        ghost var before := list[..];
        var n := list[i];
        list[i] := list[i + 1];
        list[i + 1] := n;
        assert list[..] == Swapped(before, i, i + 1);
        SwappedPermutes(before, i, i + 1);
        SwapRemovesInversion(before, i);
        swapped := true;
      }
      i := i + 1;
    }
  }

  /**
   * `bubbleSort`: passes until one makes no swap, on the slice itself, which it
   * returns. Each swapping pass removes an inversion, so the loop ends; an
   * input already in order takes a single pass and comes back as it was.
   */
  method BubbleSort(list: array<int>) returns (r: array<int>, ghost passes: nat)
    modifies list
    ensures r == list
    ensures Sorted(list[..])
    ensures multiset(list[..]) == multiset(old(list[..]))
    ensures list[..] == Sort(old(list[..]))
    ensures Sorted(old(list[..])) ==> passes == 1 && list[..] == old(list[..])
  {
    var swapped := true;
    passes := 0;
    while swapped
      invariant multiset(list[..]) == multiset(old(list[..]))
      invariant !swapped ==> AdjacentSorted(list[..])
      invariant Sorted(old(list[..])) ==> list[..] == old(list[..]) && passes == (if swapped then 0 else 1)
      decreases Inversions(list[..]) + (if swapped then 1 else 0)
    {
      swapped := Pass(list);
      passes := passes + 1;
    }
    AdjacentSortedIsSorted(list[..]);
    SortedPermutationIsSort(list[..], old(list[..]));
    return list, passes;
  }

  /**
   * `regexp.MustCompile(", ?").Split(s, -1)`: the pieces between the matches,
   * where a match is a comma together with one space right after it, if there is
   * one. The empty string splits into one empty piece.
   */
  function GoSplit(s: string): (r: seq<string>)
    ensures |r| >= 1
  {
    if s == [] then
      [[]]
    else if s[0] == ',' then
      if |s| >= 2 && s[1] == ' ' then [[]] + GoSplit(s[2..]) else [[]] + GoSplit(s[1..])
    else
      var rest := GoSplit(s[1..]);
      [[s[0]] + rest[0]] + rest[1..]
  }

  /** `strconv.Atoi`: `[+-]?[0-9]+` within the 64-bit range, else an error. */
  function Atoi(s: string): (r: Option<int>)
    ensures r.Some? <==> ParseSigned(s).Some? && IntMin <= ParseSigned(s).value <= IntMax
    ensures r.Some? ==> r == ParseSigned(s)
  {
    match ParseSigned(s)
    case None => None
    case Some(v) => if IntMin <= v <= IntMax then Some(v) else None
  }

  /** Every piece read with `Atoi`, or `None` as soon as one is refused. */
  function AtoiAll(pieces: seq<string>): (r: Option<seq<int>>)
    ensures r.Some? ==> |r.value| == |pieces| && forall k :: 0 <= k < |pieces| ==> Atoi(pieces[k]) == Some(r.value[k])
  {
    if pieces == [] then Some([])
    else
      match Atoi(pieces[0])
      case None => None
      case Some(v) =>
        match AtoiAll(pieces[1..])
        case None => None
        case Some(rest) => Some([v] + rest)
  }

  /** What `strToSliceInt` returns, `None` where it calls `exitWithError`. */
  function ParseList(strList: string): Option<seq<int>>
  {
    var list := GoSplit(strList);
    if |list| < 2 then None else AtoiAll(list)
  }

  /** `strToSliceInt`. */
  method StrToSliceInt(strList: string) returns (r: Option<seq<int>>)
    ensures r == ParseList(strList)
  {
    var list := GoSplit(strList);
    if |list| < 2 {
      return None;
    }
    var nums: seq<int> := [];
    var k := 0;
    while k < |list|
      invariant 0 <= k <= |list| && |nums| == k
      invariant forall j :: 0 <= j < k ==> Atoi(list[j]) == Some(nums[j])
    {
      var n := Atoi(list[k]);
      if n.None? {
        AtoiAllRefuses(list, k);
        return None;
      }
      nums := nums + [n.value];
      k := k + 1;
    }
    AtoiAllPointwise(list, nums);
    return Some(nums);
  }

  /** `json.Marshal` of a non-nil `[]int`. */
  function Marshal(xs: seq<int>): string
  {
    "[" + Join(Decimals(xs), ",") + "]"
  }

  /** `strings.Replace(s, ",", ", ", -1)`. */
  function ReplaceComma(s: string): string
  {
    if s == [] then [] else (if s[0] == ',' then ", " else [s[0]]) + ReplaceComma(s[1..])
  }

  predicate IsBracket(c: char)
  {
    c == '[' || c == ']'
  }

  /** `strings.Trim(s, "[]")`: brackets removed from both ends. */
  function TrimBrackets(s: string): string
  {
    TrimBracketsEnd(TrimBracketsStart(s))
  }

  function TrimBracketsStart(s: string): (r: string)
    ensures |r| <= |s|
  {
    if |s| > 0 && IsBracket(s[0]) then TrimBracketsStart(s[1..]) else s
  }

  function TrimBracketsEnd(s: string): (r: string)
    ensures |r| <= |s|
  {
    if |s| > 0 && IsBracket(s[|s| - 1]) then TrimBracketsEnd(s[..|s| - 1]) else s
  }

  /** `sliceIntToString`. */
  function SliceIntToString(list: seq<int>): string
  {
    TrimBrackets(ReplaceComma(Marshal(list)))
  }

  /** `main`. */
  function Behaviour(argv: seq<string>): (r: Exit)
    ensures r.status == (if r.outcome.Usage? then 1 else 0)
    ensures |argv| != 2 ==> r.outcome.Usage?
  {
    if |argv| != 2 then Exit(Usage, 1)
    else
      match ParseList(argv[1])
      case None => Exit(Usage, 1)
      case Some(nums) => Exit(Output(SliceIntToString(Sort(nums)) + "\n"), 0)
  }

  method Run(argv: seq<string>) returns (e: Exit)
    ensures e == Behaviour(argv)
  {
    if |argv| != 2 {
      return Exit(Usage, 1);
    }
    var parsed := StrToSliceInt(argv[1]);
    if parsed.None? {
      return Exit(Usage, 1);
    }
    var nums := parsed.value;
    var list := new int[|nums|](k requires 0 <= k < |nums| => nums[k]);
    assert list[..] == nums;
    var sorted, _ := BubbleSort(list);
    e := Exit(Output(SliceIntToString(sorted[..]) + "\n"), 0);
  }

  // Splitting.

  /** One more piece than there are commas: fewer than two pieces means no comma at all. */
  lemma {:induction false} GoSplitCount(s: string)
    ensures |GoSplit(s)| == multiset(s)[','] + 1
  {
    if s != [] {
      assert s == [s[0]] + s[1..];
      GoSplitCount(s[1..]);
      if s[0] == ',' && |s| >= 2 && s[1] == ' ' {
        assert s[1..] == [s[1]] + s[2..];
      }
    }
  }

  /** Splitting a word without a comma in front of anything adds the word to the first piece. */
  lemma {:induction false} GoSplitWord(w: string, s: string)
    requires ',' !in w
    ensures GoSplit(w + s) == [w + GoSplit(s)[0]] + GoSplit(s)[1..]
  {
    var r := GoSplit(s);
    if w == [] {
      assert w + s == s && w + r[0] == r[0];
      assert r == [r[0]] + r[1..];
    } else {
      var t := w + s;
      assert t[0] == w[0] && t[1..] == w[1..] + s;
      GoSplitWord(w[1..], s);
      var inner := GoSplit(t[1..]);
      assert inner == [w[1..] + r[0]] + r[1..];
      assert [t[0]] + inner[0] == w + r[0];
    }
  }

  /** A separator ", " or "," is one match: what follows starts a new piece. */
  lemma GoSplitSeparator(sep: string, s: string)
    requires sep == ", " || (sep == "," && (s == [] || s[0] != ' '))
    ensures GoSplit(sep + s) == [[]] + GoSplit(s)
  {
    var t := sep + s;
    if sep == ", " {
      assert t[0] == ',' && t[1] == ' ' && t[2..] == s;
    } else {
      assert t[0] == ',' && t[1..] == s;
    }
  }

  /**
   * Splitting recovers comma-free parts joined with ", ", and with "," when no
   * part after the first starts with a space.
   */
  lemma {:induction false} GoSplitJoin(parts: seq<string>, sep: string)
    requires |parts| >= 1
    requires forall k :: 0 <= k < |parts| ==> ',' !in parts[k]
    requires sep == ", " || (sep == "," && forall k :: 1 <= k < |parts| ==> parts[k] != [] && parts[k][0] != ' ')
    ensures GoSplit(Join(parts, sep)) == parts
  {
    if |parts| == 1 {
      GoSplitWord(parts[0], []);
      assert parts[0] + [] == parts[0];
      assert parts == [parts[0]];
    } else {
      var tail := Join(parts[1..], sep);
      GoSplitJoin(parts[1..], sep);
      assert Join(parts, sep) == parts[0] + (sep + tail);
      GoSplitWord(parts[0], sep + tail);
      if sep == "," {
        JoinHead(parts[1..], sep);
        assert tail[0] == parts[1][0];
      }
      GoSplitSeparator(sep, tail);
      var pieces := GoSplit(sep + tail);
      assert pieces[0] == [] && pieces[1..] == parts[1..];
      assert parts[0] + pieces[0] == parts[0];
      assert parts == [parts[0]] + parts[1..];
    }
  }

  /** A trailing comma adds an empty last piece. */
  lemma {:induction false} GoSplitTrailingComma(s: string)
    ensures GoSplit(s + ",") == GoSplit(s) + [[]]
  {
    var t := s + ",";
    if s == [] {
      assert t == "," && t[1..] == [];
    } else if s[0] == ',' && |s| >= 2 && s[1] == ' ' {
      assert t[0] == ',' && t[1] == ' ' && t[2..] == s[2..] + ",";
      GoSplitTrailingComma(s[2..]);
    } else if s[0] == ',' {
      assert t[0] == ',' && t[1..] == s[1..] + ",";
      assert |s| >= 2 ==> t[1] == s[1];
      GoSplitTrailingComma(s[1..]);
    } else {
      assert t[0] == s[0] && t[1..] == s[1..] + ",";
      GoSplitTrailingComma(s[1..]);
    }
  }

  // Reading the pieces.

  lemma {:induction false} AtoiAllPointwise(pieces: seq<string>, ys: seq<int>)
    requires |pieces| == |ys|
    requires forall k :: 0 <= k < |pieces| ==> Atoi(pieces[k]) == Some(ys[k])
    ensures AtoiAll(pieces) == Some(ys)
  {
    if pieces != [] {
      AtoiAllPointwise(pieces[1..], ys[1..]);
      assert ys == [ys[0]] + ys[1..];
    }
  }

  lemma {:induction false} AtoiAllRefuses(pieces: seq<string>, k: nat)
    requires k < |pieces| && Atoi(pieces[k]).None?
    ensures AtoiAll(pieces).None?
  {
    if k > 0 {
      AtoiAllRefuses(pieces[1..], k - 1);
    }
  }

  /** A refusal always comes from some piece that `Atoi` refuses. */
  lemma {:induction false} AtoiAllRefusedPiece(pieces: seq<string>)
    requires AtoiAll(pieces).None?
    ensures exists k :: 0 <= k < |pieces| && Atoi(pieces[k]).None?
  {
    if Atoi(pieces[0]).Some? {
      AtoiAllRefusedPiece(pieces[1..]);
      var k :| 0 <= k < |pieces[1..]| && Atoi(pieces[1..][k]).None?;
      assert pieces[k + 1] == pieces[1..][k];
    }
  }

  /** `Atoi` reads back a printed number exactly when it is inside the 64-bit range. */
  lemma AtoiOfDecimal(x: int)
    ensures Atoi(Decimal(x)) == (if IntMin <= x <= IntMax then Some(x) else None)
  {
    DecimalRoundTrip(x);
  }

  /** What `Atoi` accepts is the decimal of its value, up to a '+', leading zeros or a "-0". */
  lemma AtoiCanonical(s: string)
    requires Atoi(s).Some?
    ensures Decimal(Atoi(s).value) == Canonical(s)
  {
    ParsedIsCanonical(s);
  }

  /** An argument without a comma is one piece: always the usage line. */
  lemma NoCommaRefused(prog: string, s: string)
    requires ',' !in s
    ensures Behaviour([prog, s]) == Exit(Usage, 1)
  {
    GoSplitCount(s);
    assert multiset(s)[','] == 0;
  }

  /** A trailing comma leaves an empty piece, which `Atoi` refuses: "1, 2," is a usage error. */
  lemma TrailingCommaRefused(prog: string, s: string)
    ensures Behaviour([prog, s + ","]) == Exit(Usage, 1)
  {
    GoSplitTrailingComma(s);
    var pieces := GoSplit(s + ",");
    assert pieces[|pieces| - 1] == [];
    AtoiAllRefuses(pieces, |pieces| - 1);
  }

  /** A list of 64-bit numbers written with ", " or with "," between them is read back as it was. */
  lemma PrintedListParses(xs: seq<int>, sep: string)
    requires |xs| >= 2 && (sep == ", " || sep == ",")
    requires forall k :: 0 <= k < |xs| ==> IntMin <= xs[k] <= IntMax
    ensures ParseList(Join(Decimals(xs), sep)) == Some(xs)
  {
    var ds := Decimals(xs);
    forall k | 0 <= k < |xs|
      ensures ',' !in ds[k] && ds[k] != [] && ds[k][0] != ' ' && Atoi(ds[k]) == Some(xs[k])
    {
      DecimalShape(xs[k]);
      DecimalRoundTrip(xs[k]);
    }
    GoSplitJoin(ds, sep);
    AtoiAllPointwise(ds, xs);
  }

  // Printing.

  /** Widening the commas of two strings one after the other. */
  lemma {:induction false} ReplaceCommaConcat(a: string, b: string)
    ensures ReplaceComma(a + b) == ReplaceComma(a) + ReplaceComma(b)
  {
    if a != [] {
      var p := if a[0] == ',' then ", " else [a[0]];
      assert (a + b)[0] == a[0] && (a + b)[1..] == a[1..] + b;
      assert ReplaceComma(a + b) == p + ReplaceComma(a[1..] + b);
      assert ReplaceComma(a) == p + ReplaceComma(a[1..]);
      ReplaceCommaConcat(a[1..], b);
      ConcatAssoc(p, ReplaceComma(a[1..]), ReplaceComma(b));
    } else {
      assert a + b == b;
    }
  }

  lemma {:induction false} ReplaceCommaNoComma(w: string)
    requires ',' !in w
    ensures ReplaceComma(w) == w
  {
    if w != [] {
      ReplaceCommaNoComma(w[1..]);
      assert w == [w[0]] + w[1..];
    }
  }

  /** Widening every "," of comma-free parts joined by "," joins them by ", ". */
  lemma {:induction false} ReplaceCommaJoin(parts: seq<string>)
    requires forall k :: 0 <= k < |parts| ==> ',' !in parts[k]
    ensures ReplaceComma(Join(parts, ",")) == Join(parts, ", ")
  {
    if |parts| == 1 {
      ReplaceCommaNoComma(parts[0]);
    } else if |parts| >= 2 {
      var tail := Join(parts[1..], ",");
      ReplaceCommaJoin(parts[1..]);
      assert Join(parts, ",") == parts[0] + ("," + tail);
      ReplaceCommaConcat(parts[0], "," + tail);
      ReplaceCommaConcat(",", tail);
      ReplaceCommaNoComma(parts[0]);
      assert ReplaceComma(",") == ", ";
    }
  }

  /** `Trim` takes off the two brackets `Marshal` put around text that neither starts nor ends with one. */
  lemma TrimBracketsAround(t: string)
    requires t == [] || (!IsBracket(t[0]) && !IsBracket(t[|t| - 1]))
    ensures TrimBrackets("[" + t + "]") == t
  {
    var s := "[" + t + "]";
    var u := t + "]";
    assert s[0] == '[' && s[1..] == u;
    assert TrimBracketsStart(s) == TrimBracketsStart(u);
    if t == [] {
      assert u == "]" && u[1..] == [];
      assert TrimBracketsStart(u) == [];
    } else {
      assert u[0] == t[0] && u[|u| - 1] == ']' && u[..|u| - 1] == t;
      assert TrimBracketsStart(u) == u;
      assert TrimBracketsEnd(u) == TrimBracketsEnd(t);
    }
  }

  /** Widening the commas of a marshalled list of comma-free parts. */
  lemma MarshalWidened(parts: seq<string>)
    requires forall k :: 0 <= k < |parts| ==> ',' !in parts[k]
    ensures ReplaceComma("[" + Join(parts, ",") + "]") == "[" + Join(parts, ", ") + "]"
  {
    var narrow := Join(parts, ",");
    ReplaceCommaJoin(parts);
    ReplaceCommaConcat("[" + narrow, "]");
    ReplaceCommaConcat("[", narrow);
    assert ReplaceComma("[") == "[" && ReplaceComma("]") == "]";
  }

  /** Parts that neither start nor end with a bracket, joined: no bracket at either end. */
  lemma JoinedWithoutBrackets(parts: seq<string>, sep: string)
    requires forall k :: 0 <= k < |parts| ==> parts[k] != [] && !IsBracket(parts[k][0]) && !IsBracket(parts[k][|parts[k]| - 1])
    ensures var j := Join(parts, sep); j == [] || (!IsBracket(j[0]) && !IsBracket(j[|j| - 1]))
  {
    if |parts| > 0 {
      JoinEnds(parts, sep);
    }
  }

  /** The printed list is the numbers joined by ", ", as in the documented format. */
  lemma SliceIntToStringIsJoin(list: seq<int>)
    ensures SliceIntToString(list) == Join(Decimals(list), ", ")
  {
    var ds := Decimals(list);
    forall k | 0 <= k < |ds|
      ensures ',' !in ds[k] && ds[k] != [] && !IsBracket(ds[k][0]) && !IsBracket(ds[k][|ds[k]| - 1])
    {
      DecimalShape(list[k]);
    }
    MarshalWidened(ds);
    JoinedWithoutBrackets(ds, ", ");
    TrimBracketsAround(Join(ds, ", "));
  }

  // The whole program.

  /** The documented input format, in any order, prints the sorted list joined by ", ". */
  lemma PrintedListSorted(prog: string, xs: seq<int>, sep: string)
    requires |xs| >= 2 && (sep == ", " || sep == ",")
    requires forall k :: 0 <= k < |xs| ==> IntMin <= xs[k] <= IntMax
    ensures Behaviour([prog, Join(Decimals(xs), sep)]) == Exit(Output(Join(Decimals(Sort(xs)), ", ") + "\n"), 0)
  {
    PrintedListParses(xs, sep);
    SliceIntToStringIsJoin(Sort(xs));
  }

  /** The output line, read back as an argument, prints itself again. */
  lemma OutputIsFixedPoint(prog: string, xs: seq<int>)
    requires |xs| >= 2
    requires forall k :: 0 <= k < |xs| ==> IntMin <= xs[k] <= IntMax
    ensures var line := Join(Decimals(Sort(xs)), ", ");
      Behaviour([prog, line]) == Exit(Output(line + "\n"), 0)
  {
    SortWithinBounds(xs, IntMin, IntMax);
    PrintedListSorted(prog, Sort(xs), ", ");
    SortIdempotent(xs);
  }
}
