/**
 * The Java sample (source.java): `main` splits its first argument at ",", trims
 * and parses every piece with `Integer.parseInt` into an `ArrayList`, sorts that
 * list in place with `sort`, and prints it, writing ", " before every element
 * whose `indexOf` is not 0. Every exception, a missing argument included, ends
 * in the usage line; the process always exits with status 0.
 *
 * `args` does not hold the program name. Java `int` is 32 bits: `parseInt`
 * refuses values outside that range, and no other arithmetic here can overflow.
 */
module JavaSample {
  import opened Wrappers
  import opened Sorting
  import opened Text
  import opened Cli

  const IntMin: int := -0x8000_0000
  const IntMax: int := 0x7FFF_FFFF

  /** The first index holding `x`, or -1: `List.indexOf` on a list of `Integer`, compared by value. */
  function FirstIndex(s: seq<int>, x: int): (r: int)
    ensures -1 <= r < |s|
    ensures r >= 0 ==> s[r] == x
  {
    if s == [] then -1
    else if s[0] == x then 0
    else
      var t := FirstIndex(s[1..], x);
      if t == -1 then -1 else t + 1
  }

  /** `indexOf` gives 0 exactly for the first element's value. */
  lemma FirstIndexZero(s: seq<int>, x: int)
    ensures FirstIndex(s, x) == 0 <==> |s| > 0 && s[0] == x
  {
    if |s| > 0 && s[0] != x {
      var t := FirstIndex(s[1..], x);
      assert t >= 0 ==> t + 1 != 0;
    }
  }

  /** No earlier index holds `x`, and -1 means no index at all does. */
  lemma {:induction false} FirstIndexIsFirst(s: seq<int>, x: int)
    ensures forall j :: 0 <= j < |s| && s[j] == x ==> 0 <= FirstIndex(s, x) <= j
  {
    if s != [] && s[0] != x {
      FirstIndexIsFirst(s[1..], x);
      assert forall j :: 1 <= j < |s| ==> s[j] == s[1..][j - 1];
    }
  }

  /** The `ArrayList<Integer>` the program builds, sorts in place and prints. */
  class IntList {
    var elems: seq<int>

    constructor ()
      ensures elems == []
    {
      elems := [];
    }

    function Size(): nat
      reads this
    {
      |elems|
    }

    function Get(k: nat): int
      reads this
      requires k < |elems|
    {
      elems[k]
    }

    function IndexOf(x: int): int
      reads this
    {
      FirstIndex(elems, x)
    }

    method Add(x: int)
      modifies this
      ensures elems == old(elems) + [x]
    {
      elems := elems + [x];
    }

    method Set(k: nat, x: int)
      requires k < |elems|
      modifies this
      ensures elems == old(elems)[k := x]
    {
      elems := elems[k := x];
    }
  }

  /**
   * `sort`: pass `i` (from 1) compares every adjacent pair of `list[0..size-i]`,
   * so after it `list[size-i..]` holds the `i` largest elements in order. The
   * list is sorted in place and returned.
   */
  method SortList(list: IntList) returns (r: IntList)
    modifies list
    ensures r == list
    ensures Sorted(list.elems)
    ensures multiset(list.elems) == multiset(old(list.elems))
    ensures list.elems == Sort(old(list.elems))
  {
    var i := 1;
    while i < list.Size()
      invariant 1 <= i <= |list.elems| + 1
      invariant Bubbled(list.elems, old(list.elems), |list.elems| - i + 1)
    {
      Pass(list, i, old(list.elems));
      i := i + 1;
    }
    Finish(list.elems, |list.elems| - i + 1);
    SortedPermutationIsSort(list.elems, old(list.elems));
    return list;
  }

  /** The inner loop of pass `i`: it carries the largest element of `list[0..size-i+1]` to slot `size - i`. */
  method Pass(list: IntList, i: nat, ghost s0: seq<int>)
    requires 1 <= i < |list.elems|
    requires Bubbled(list.elems, s0, |list.elems| - i + 1)
    modifies list
    ensures |list.elems| == |old(list.elems)|
    ensures Bubbled(list.elems, s0, |list.elems| - i)
  {
    ghost var m := |list.elems| - i + 1;
    var j := 0;
    while j < list.Size() - i
      invariant 0 <= j <= |list.elems| - i && m == |list.elems| - i + 1
      invariant Bubbled(list.elems, s0, m) && MaxAt(list.elems, j)
    {
      ghost var before := list.elems;
      StepKeeps(before, s0, m, j);
      if list.Get(j) > list.Get(j + 1) {
        var memory := list.Get(j);
        list.Set(j, list.Get(j + 1));
        list.Set(j + 1, memory);
      }
      assert list.elems == Step(before, j);
      j := j + 1;
    }
    PassEnd(list.elems, s0, m);
  }

  /** `parts` without the empty strings at its end. */
  function DropTrailingEmpty(parts: seq<string>): (r: seq<string>)
    ensures |r| <= |parts| && r == parts[..|r|]
    ensures r == [] || r[|r| - 1] != []
    ensures forall k :: |r| <= k < |parts| ==> parts[k] == []
  {
    if parts == [] then []
    else if parts[|parts| - 1] == [] then DropTrailingEmpty(parts[..|parts| - 1])
    else parts
  }

  /** `s.split(",")`: the whole string when it has no comma, else the pieces without the empty ones at the end. */
  function JavaSplit(s: string): seq<string>
  {
    if ',' !in s then [s] else DropTrailingEmpty(SplitOn(s, ','))
  }

  /** `trim`: every character up to U+0020 removed from both ends. */
  function TrimStart(s: string): (r: string)
    ensures |r| <= |s| && (r == [] || r[0] > ' ')
  {
    if |s| > 0 && s[0] <= ' ' then TrimStart(s[1..]) else s
  }

  function TrimEnd(s: string): (r: string)
    ensures |r| <= |s| && (r == [] || r[|r| - 1] > ' ')
  {
    if |s| > 0 && s[|s| - 1] <= ' ' then TrimEnd(s[..|s| - 1]) else s
  }

  function Trim(s: string): string
  {
    TrimEnd(TrimStart(s))
  }

  /** `Integer.parseInt`: `None` where it throws `NumberFormatException`. */
  function ParseInt(s: string): (r: Option<int>)
    ensures r.Some? ==> IntMin <= r.value <= IntMax
    ensures r.Some? <==> ParseSigned(s).Some? && IntMin <= ParseSigned(s).value <= IntMax
    ensures r.Some? ==> r == ParseSigned(s)
  {
    match ParseSigned(s)
    case None => None
    case Some(v) => if IntMin <= v <= IntMax then Some(v) else None
  }

  /** The numbers the `for` loop adds to the list, or `None` when some piece makes `parseInt` throw. */
  function ParseAll(pieces: seq<string>): (r: Option<seq<int>>)
    ensures r.Some? ==> |r.value| == |pieces|
  {
    if pieces == [] then Some([])
    else
      match ParseInt(Trim(pieces[0]))
      case None => None
      case Some(v) =>
        match ParseAll(pieces[1..])
        case None => None
        case Some(rest) => Some([v] + rest)
  }

  /** `xs` in front of the numbers in `o`, if there are any. */
  function Prepend(xs: seq<int>, o: Option<seq<int>>): Option<seq<int>>
  {
    if o.None? then None else Some(xs + o.value)
  }

  /**
   * What the loop appends for element `k`, where `d[k]` is how `xs[k]` is written:
   * ", " and the number, without the ", " when `indexOf` finds the number at 0.
   */
  function Piece(xs: seq<int>, d: seq<string>, k: nat): (r: string)
    requires |d| == |xs| && k < |xs|
    ensures xs[k] == xs[0] ==> r == d[k]
    ensures xs[k] != xs[0] ==> r == ", " + d[k]
  {
    FirstIndexZero(xs, xs[k]);
    if FirstIndex(xs, xs[k]) == 0 then d[k] else ", " + d[k]
  }

  /** The `StringBuilder` after the first `k` elements. */
  function RenderUpTo(xs: seq<int>, d: seq<string>, k: nat): string
    requires |d| == |xs| && k <= |xs|
  {
    if k == 0 then "" else RenderUpTo(xs, d, k - 1) + Piece(xs, d, k - 1)
  }

  /** The line `main` prints for the sorted list, before the newline. */
  function Rendered(xs: seq<int>): string
  {
    RenderUpTo(xs, Decimals(xs), |xs|)
  }

  /** `main`. */
  function Behaviour(args: seq<string>): (r: Exit)
    ensures r.status == 0
  {
    if |args| == 0 then Exit(Usage, 0)
    else
      match ParseAll(JavaSplit(args[0]))
      case None => Exit(Usage, 0)
      case Some(xs) =>
        if |xs| >= 2 then Exit(Output(Rendered(Sort(xs)) + "\n"), 0) else Exit(Usage, 0)
  }

  method Run(args: seq<string>) returns (e: Exit)
    ensures e == Behaviour(args)
  {
    if |args| == 0 {
      return Exit(Usage, 0);
    }
    var listOfNumbers := new IntList();
    var numberArray := JavaSplit(args[0]);
    var k := 0;
    PrependNothing(ParseAll(numberArray));
    assert numberArray[0..] == numberArray;
    while k < |numberArray|
      invariant 0 <= k <= |numberArray|
      invariant ParseAll(numberArray) == Prepend(listOfNumbers.elems, ParseAll(numberArray[k..]))
    {
      var number := ParseInt(Trim(numberArray[k]));
      if number.None? {
        ParseAllFails(numberArray[k..], 0);
        assert ParseAll(JavaSplit(args[0])).None?;
        return Exit(Usage, 0);
      }
      ParseAllStep(listOfNumbers.elems, numberArray, k);
      listOfNumbers.Add(number.value);
      k := k + 1;
    }
    assert numberArray[k..] == [];
    PrependToNothing(listOfNumbers.elems);
    ghost var xs := listOfNumbers.elems;
    assert ParseAll(JavaSplit(args[0])) == Some(xs);
    if listOfNumbers.Size() < 2 {
      return Exit(Usage, 0);
    }
    var sortedList := SortList(listOfNumbers);
    var output := Render(sortedList);
    assert output == Rendered(Sort(xs));
    e := Exit(Output(output + "\n"), 0);
  }

  lemma PrependNothing(o: Option<seq<int>>)
    ensures Prepend([], o) == o
  {
    if o.Some? {
      assert [] + o.value == o.value;
    }
  }

  lemma PrependToNothing(xs: seq<int>)
    ensures Prepend(xs, Some([])) == Some(xs)
  {
    assert xs + [] == xs;
  }

  /** One more piece parsed: its number moves from the rest to the list. */
  lemma ParseAllStep(xs: seq<int>, pieces: seq<string>, k: nat)
    requires k < |pieces| && ParseInt(Trim(pieces[k])).Some?
    ensures Prepend(xs, ParseAll(pieces[k..])) ==
      Prepend(xs + [ParseInt(Trim(pieces[k])).value], ParseAll(pieces[k + 1..]))
  {
    assert pieces[k..][1..] == pieces[k + 1..];
    var rest := ParseAll(pieces[k + 1..]);
    if rest.Some? {
      ConcatAssoc(xs, [ParseInt(Trim(pieces[k])).value], rest.value);
    }
  }

  /** Appending the piece of element `k` to the text of the first `k` gives the text of the first `k + 1`. */
  lemma AppendPiece(xs: seq<int>, d: seq<string>, k: nat, out: string, w: string)
    requires |d| == |xs| && k < |xs| && d[k] == w && out == RenderUpTo(xs, d, k)
    ensures FirstIndex(xs, xs[k]) == 0 ==> out + w == RenderUpTo(xs, d, k + 1)
    ensures FirstIndex(xs, xs[k]) != 0 ==> out + ", " + w == RenderUpTo(xs, d, k + 1)
  {
    FirstIndexZero(xs, xs[k]);
    ConcatAssoc(out, ", ", w);
  }

  /** The `for` loop over the sorted list that fills the `StringBuilder`. */
  method Render(sortedList: IntList) returns (output: string)
    ensures output == Rendered(sortedList.elems)
  {
    ghost var xs := sortedList.elems;
    ghost var d := Decimals(xs);
    output := "";
    var idx := 0;
    while idx < sortedList.Size()
      invariant 0 <= idx <= |xs|
      invariant output == RenderUpTo(xs, d, idx)
    {
      var number := sortedList.Get(idx);
      var w := Decimal(number);
      AppendPiece(xs, d, idx, output, w);
      if sortedList.IndexOf(number) == 0 {
        output := output + w;
      } else {
        output := output + ", " + w;
      }
      idx := idx + 1;
    }
    assert idx == |xs|;
  }

  /** When no later element equals the first, the output is the list joined by ", ". */
  lemma {:induction false} DistinctFirstIsJoin(xs: seq<int>, d: seq<string>, k: nat)
    requires |d| == |xs| && 1 <= k <= |xs|
    requires forall j :: 1 <= j < |xs| ==> xs[j] != xs[0]
    ensures RenderUpTo(xs, d, k) == Join(d[..k], ", ")
  {
    if k == 1 {
      JoinFirst(d, ", ");
      assert RenderUpTo(xs, d, 1) == "" + d[0];
    } else {
      DistinctFirstIsJoin(xs, d, k - 1);
      JoinTake(RenderUpTo(xs, d, k - 1), d, k, ", ");
    }
  }

  /** A second copy of the first element goes out without ", ": the two are glued together. */
  lemma {:induction false} DuplicateFirstGlued(xs: seq<int>, d: seq<string>, n: nat)
    requires |d| == |xs| && 2 <= n <= |xs| && xs[1] == xs[0]
    ensures |d[0] + d[1]| <= |RenderUpTo(xs, d, n)|
    ensures RenderUpTo(xs, d, n)[..|d[0] + d[1]|] == d[0] + d[1]
    decreases n
  {
    var glued := d[0] + d[1];
    if n == 2 {
      assert RenderUpTo(xs, d, 1) == "" + d[0];
      assert RenderUpTo(xs, d, 2) == glued;
      assert glued[..|glued|] == glued;
    } else {
      DuplicateFirstGlued(xs, d, n - 1);
      PrefixOfConcat(glued, RenderUpTo(xs, d, n - 1), Piece(xs, d, n - 1));
    }
  }


  /** A printed line whose first two numbers are equal starts with the first number written twice. */
  lemma GluedLine(ys: seq<int>)
    requires |ys| >= 2 && ys[1] == ys[0]
    ensures var w := Decimal(ys[0]); var t := Rendered(ys) + "\n";
      |w + w| <= |t| && t[..2 * |w|] == w + w
  {
    var d := Decimals(ys);
    DuplicateFirstGlued(ys, d, |ys|);
    assert d[1] == d[0];
    PrefixOfConcat(d[0] + d[1], Rendered(ys), "\n");
  }

  /**
   * When the smallest number occurs twice, `main` glues its two copies together
   * ("1,1,2" prints "11, 2") instead of separating them.
   */
  lemma DuplicateMinimumGlued(args: seq<string>, xs: seq<int>)
    requires |args| >= 1 && ParseAll(JavaSplit(args[0])) == Some(xs)
    requires |xs| >= 2 && |Sort(xs)| >= 2 && Sort(xs)[1] == Sort(xs)[0]
    ensures Behaviour(args).outcome.Output?
    ensures var w := Decimal(Sort(xs)[0]); var t := Behaviour(args).outcome.text;
      |w + w| <= |t| && t[..2 * |w|] == w + w
  {
    assert Behaviour(args) == Exit(Output(Rendered(Sort(xs)) + "\n"), 0);
    GluedLine(Sort(xs));
  }

  lemma {:induction false} TrimStartPadded(pre: string, w: string)
    requires forall k :: 0 <= k < |pre| ==> pre[k] <= ' '
    requires w == [] || w[0] > ' '
    ensures TrimStart(pre + w) == w
  {
    if pre != [] {
      assert (pre + w)[1..] == pre[1..] + w;
      TrimStartPadded(pre[1..], w);
    }
  }

  lemma {:induction false} TrimEndPadded(w: string, post: string)
    requires forall k :: 0 <= k < |post| ==> post[k] <= ' '
    requires w == [] || w[|w| - 1] > ' '
    ensures TrimEnd(w + post) == w
  {
    if post != [] {
      var n := |post| - 1;
      assert (w + post)[..|w + post| - 1] == w + post[..n];
      TrimEndPadded(w, post[..n]);
    } else {
      assert w + post == w;
    }
  }

  /** `trim` takes off exactly the blanks and control characters around a word that neither starts nor ends with one. */
  lemma TrimPadded(pre: string, w: string, post: string)
    requires forall k :: 0 <= k < |pre| ==> pre[k] <= ' '
    requires forall k :: 0 <= k < |post| ==> post[k] <= ' '
    requires w != [] && w[0] > ' ' && w[|w| - 1] > ' '
    ensures Trim(pre + w + post) == w
  {
    assert pre + w + post == pre + (w + post);
    TrimStartPadded(pre, w + post);
    TrimEndPadded(w, post);
  }

  /** A piece of a printed list, with or without its leading space, reads back as its number. */
  lemma PieceReads(lead: string, x: int)
    requires lead == "" || lead == " "
    requires IntMin <= x <= IntMax
    ensures ParseInt(Trim(lead + Decimal(x))) == Some(x)
  {
    DecimalShape(x);
    TrimPadded(lead, Decimal(x), "");
    assert lead + Decimal(x) + "" == lead + Decimal(x);
    DecimalRoundTrip(x);
  }

  /** The `for` loop succeeds with `ys` when every piece parses to the number at its place. */
  lemma {:induction false} ParseAllPointwise(pieces: seq<string>, ys: seq<int>)
    requires |pieces| == |ys|
    requires forall k :: 0 <= k < |pieces| ==> ParseInt(Trim(pieces[k])) == Some(ys[k])
    ensures ParseAll(pieces) == Some(ys)
  {
    if pieces != [] {
      ParseAllPointwise(pieces[1..], ys[1..]);
      assert ys == [ys[0]] + ys[1..];
    }
  }

  /** One failing piece makes the whole argument a usage error. */
  lemma {:induction false} ParseAllFails(pieces: seq<string>, k: nat)
    requires k < |pieces| && ParseInt(Trim(pieces[k])).None?
    ensures ParseAll(pieces).None?
  {
    if k > 0 {
      ParseAllFails(pieces[1..], k - 1);
    }
  }

  /** `parseInt` reads back a printed number exactly when it is inside the 32-bit range. */
  lemma ParseIntOfDecimal(x: int)
    ensures ParseInt(Decimal(x)) == (if IntMin <= x <= IntMax then Some(x) else None)
  {
    DecimalRoundTrip(x);
  }

  /** What `parseInt` accepts is the decimal of its value, up to a '+', leading zeros or a "-0". */
  lemma ParseIntCanonical(s: string)
    requires ParseInt(s).Some?
    ensures Decimal(ParseInt(s).value) == Canonical(s)
  {
    ParsedIsCanonical(s);
  }

  /** Without a comma the argument is one piece, so at most one number: always the usage line. */
  lemma NoCommaRefused(s: string)
    requires ',' !in s
    ensures Behaviour([s]) == Exit(Usage, 0)
  {
  }

  /** Comma-free parts whose last one is not empty come back from `split(",")` as they were. */
  lemma JavaSplitOfJoin(parts: seq<string>)
    requires |parts| >= 2 && parts[|parts| - 1] != []
    requires forall k :: 0 <= k < |parts| ==> ',' !in parts[k]
    ensures JavaSplit(Join(parts, ",")) == parts
  {
    var s := Join(parts, ",");
    SplitOnJoin(parts, ',');
    SplitOnCount(s, ',');
    assert multiset(s)[','] > 0;
  }

  /** `split(",")` of a printed list gives the pieces between its commas. */
  lemma JavaSplitPrinted(xs: seq<int>)
    requires |xs| >= 2
    ensures JavaSplit(Join(Decimals(xs), ", ")) == PrintedPieces(xs)
  {
    var s := Join(Decimals(xs), ", ");
    SplitPrinted(xs);
    SplitOnCount(s, ',');
    assert multiset(s)[','] > 0;
  }

  /** `split` drops trailing empty strings: a comma at the end changes nothing, "1, 2," reads as "1, 2". */
  lemma TrailingCommaIgnored(s: string)
    ensures Behaviour([s + ","]) == Behaviour([s])
  {
    var t := s + ",";
    SplitOnSnoc(s, ',');
    assert t == s + [','] && ',' in t;
    var parts := SplitOn(s, ',');
    assert (parts + [[]])[..|parts|] == parts;
    assert JavaSplit(t) == DropTrailingEmpty(parts);
    if ',' !in s {
      SplitOnNone(s, ',');
      if s == [] {
        assert ParseAll(JavaSplit(s)).None?;
      }
    }
  }

  /** A list written as "1, 2, 3" of 32-bit numbers is read back number by number. */
  lemma PrintedListParses(xs: seq<int>)
    requires |xs| >= 2
    requires forall k :: 0 <= k < |xs| ==> IntMin <= xs[k] <= IntMax
    ensures ParseAll(JavaSplit(Join(Decimals(xs), ", "))) == Some(xs)
  {
    var parts := PrintedPieces(xs);
    JavaSplitPrinted(xs);
    forall k | 0 <= k < |xs|
      ensures ParseInt(Trim(parts[k])) == Some(xs[k])
    {
      PieceReads(if k == 0 then "" else " ", xs[k]);
    }
    ParseAllPointwise(parts, xs);
  }

  /** The documented input format: "1, 2, 3" in any order prints the sorted list. */
  lemma PrintedListSorted(xs: seq<int>)
    requires |xs| >= 2
    requires forall k :: 0 <= k < |xs| ==> IntMin <= xs[k] <= IntMax
    ensures Behaviour([Join(Decimals(xs), ", ")]) == Exit(Output(Rendered(Sort(xs)) + "\n"), 0)
  {
    PrintedListParses(xs);
  }

  /**
   * When the smallest number occurs once, the output line is itself an input
   * that prints the same line again.
   */
  lemma OutputIsFixedPoint(xs: seq<int>)
    requires |xs| >= 2
    requires forall k :: 0 <= k < |xs| ==> IntMin <= xs[k] <= IntMax
    requires forall j :: 1 <= j < |Sort(xs)| ==> Sort(xs)[j] != Sort(xs)[0]
    ensures Behaviour([Rendered(Sort(xs))]) == Behaviour([Join(Decimals(xs), ", ")])
  {
    var ys := Sort(xs);
    SortWithinBounds(xs, IntMin, IntMax);
    DistinctFirstIsJoin(ys, Decimals(ys), |ys|);
    assert Decimals(ys)[..|ys|] == Decimals(ys);
    PrintedListSorted(ys);
    PrintedListSorted(xs);
    SortIdempotent(xs);
  }
}
