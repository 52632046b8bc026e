/**
 * The C sample (source.c): `parse_list` reads a comma list with `strtok` and
 * `strtol`, `bubble_sort` repeats full passes until one makes no swap, and
 * `print_array` prints the elements separated by ", ".
 *
 * `long` values are unbounded integers; the one place the width matters, the
 * `errno` check after `strtol`, uses the 64-bit range explicitly. `malloc` hands
 * out memory whose contents are not chosen by the program: the model takes them
 * as the parameter `junk`, slot `k` starting out as `junk(k)`.
 */
module CSample {
  import opened Wrappers
  import opened Sorting
  import opened Text
  import opened Cli

  const LongMin: int := -0x8000_0000_0000_0000
  const LongMax: int := 0x7FFF_FFFF_FFFF_FFFF

  function CommaCount(s: string): nat
  {
    multiset(s)[',']
  }

  /** The parts that are not empty, in order. */
  function NonEmpty(parts: seq<string>): (r: seq<string>)
    ensures |r| <= |parts|
    ensures forall k :: 0 <= k < |r| ==> r[k] != []
  {
    if parts == [] then []
    else (if parts[0] == [] then [] else [parts[0]]) + NonEmpty(parts[1..])
  }

  /** What successive `strtok(…, ",")` calls return: the runs of non-comma characters, empty runs skipped. */
  function Tokens(s: string): seq<string>
  {
    NonEmpty(SplitOn(s, ','))
  }

  lemma TokensFitArray(s: string)
    ensures |Tokens(s)| <= CommaCount(s) + 1
  {
    SplitOnCount(s, ',');
  }

  /** `strtol(token, NULL, 10)` with its `errno`: `None` exactly when the value does not fit a `long`. */
  function StrToL(token: string): (r: Option<int>)
    ensures r.Some? <==> LongMin <= LeadingInteger(token) <= LongMax
    ensures r.Some? ==> r.value == LeadingInteger(token)
  {
    var v := LeadingInteger(token);
    if LongMin <= v <= LongMax then Some(v) else None
  }

  predicate AllFit(tokens: seq<string>)
  {
    forall k :: 0 <= k < |tokens| ==> StrToL(tokens[k]).Some?
  }

  function Values(tokens: seq<string>): (r: seq<int>)
    requires AllFit(tokens)
    ensures |r| == |tokens|
  {
    seq(|tokens|, k requires 0 <= k < |tokens| && AllFit(tokens) => StrToL(tokens[k]).value)
  }

  /** `count` cells of uninitialised memory from slot `from` on. */
  function Unwritten(from: nat, count: nat, junk: nat -> int): (r: seq<int>)
    ensures |r| == count && forall k :: 0 <= k < count ==> r[k] == junk(from + k)
  {
    seq(count, k requires 0 <= k => junk(from + k))
  }

  /**
   * The array `parse_list` hands back, or `None` when it returns 0: one slot more
   * than there are commas, the token values from slot 0 on, and the slots no token
   * reached still holding what the allocator left there.
   */
  function ParsedList(s: string, junk: nat -> int): Option<seq<int>>
  {
    var tokens := Tokens(s);
    if CommaCount(s) == 0 || !AllFit(tokens) then
      None
    else
      TokensFitArray(s);
      Some(Values(tokens) + Unwritten(|tokens|, CommaCount(s) + 1 - |tokens|, junk))
  }

  method ParseList(origList: string, junk: nat -> int) returns (numElements: nat, arr: array?<int>)
    ensures numElements == 0 <==> ParsedList(origList, junk).None?
    ensures numElements == 0 ==> arr == null
    ensures numElements != 0 ==>
      numElements == CommaCount(origList) + 1 && numElements >= 2 &&
      arr != null && fresh(arr) && arr.Length == numElements &&
      arr[..] == ParsedList(origList, junk).value
  {
    // Count the commas first.
    numElements := 0;
    var i := 0;
    while i < |origList|
      invariant 0 <= i <= |origList|
      invariant numElements == CommaCount(origList[..i])
    {
      assert origList[..i + 1] == origList[..i] + [origList[i]];
      if origList[i] == ',' {
        numElements := numElements + 1;
      }
      i := i + 1;
    }
    assert origList[..i] == origList;

    if numElements == 0 {
      arr := null;
      return;
    }

    numElements := numElements + 1;
    arr := new int[numElements](k requires 0 <= k => junk(k));

    var tokens := Tokens(origList);
    TokensFitArray(origList);
    var currIndex := 0;
    while currIndex < |tokens|
      invariant 0 <= currIndex <= |tokens|
      invariant forall k :: 0 <= k < currIndex ==> StrToL(tokens[k]).Some? && arr[k] == StrToL(tokens[k]).value
      invariant forall k :: currIndex <= k < arr.Length ==> arr[k] == junk(k)
    {
      var tempNum := StrToL(tokens[currIndex]);
      if tempNum.None? {
        numElements := 0;
        arr := null;
        return;
      }
      arr[currIndex] := tempNum.value;
      currIndex := currIndex + 1;
    }
    FilledIsParsed(arr[..], origList, junk);
  }

  /** An array holding every token's value from slot 0 on, and the allocator's contents after them, is the parsed list. */
  lemma FilledIsParsed(a: seq<int>, s: string, junk: nat -> int)
    requires CommaCount(s) > 0 && |a| == CommaCount(s) + 1 && |Tokens(s)| <= |a|
    requires forall k :: 0 <= k < |Tokens(s)| ==> StrToL(Tokens(s)[k]).Some? && a[k] == StrToL(Tokens(s)[k]).value
    requires forall k :: |Tokens(s)| <= k < |a| ==> a[k] == junk(k)
    ensures ParsedList(s, junk) == Some(a)
  {
    var tokens := Tokens(s);
    assert AllFit(tokens);
    var r := Values(tokens) + Unwritten(|tokens|, CommaCount(s) + 1 - |tokens|, junk);
    assert forall k :: 0 <= k < |a| ==> r[k] == a[k];
    assert r == a;
  }

  method SwapElements(arr: array<int>, i: nat, j: nat)
    requires i < arr.Length && j < arr.Length
    modifies arr
    ensures arr[i] == old(arr[j]) && arr[j] == old(arr[i])
    ensures forall k :: 0 <= k < arr.Length && k != i && k != j ==> arr[k] == old(arr[k])
    ensures arr[..] == Swapped(old(arr[..]), i, j)
  {
    var temp := arr[i];
    arr[i] := arr[j];
    arr[j] := temp;
  }

  /**
   * The `for` loop of `bubble_sort`: one pass over `arr[0..numElems)` exchanging
   * every adjacent pair out of order. A pass that exchanges something removes at
   * least one inversion; a pass that exchanges nothing has found every adjacent
   * pair in order.
   */
  method Pass(arr: array<int>, numElems: nat) returns (hadToSwap: bool)
    requires 1 <= numElems <= arr.Length
    modifies arr
    ensures multiset(arr[..numElems]) == multiset(old(arr[..numElems]))
    ensures arr[numElems..] == old(arr[numElems..])
    ensures hadToSwap ==> Inversions(arr[..numElems]) < Inversions(old(arr[..numElems]))
    ensures !hadToSwap ==> arr[..numElems] == old(arr[..numElems]) && AdjacentSorted(arr[..numElems])
  {
    hadToSwap := false;
    var i := 0;
    while i < numElems - 1
      invariant 0 <= i <= numElems - 1
      invariant multiset(arr[..numElems]) == multiset(old(arr[..numElems]))
      invariant arr[numElems..] == old(arr[numElems..])
      invariant !hadToSwap ==> arr[..numElems] == old(arr[..numElems]) && AdjacentUpTo(arr[..numElems], i)
      invariant hadToSwap ==> Inversions(arr[..numElems]) < Inversions(old(arr[..numElems]))
    {
      if arr[i] > arr[i + 1] {
        ghost var before := arr[..numElems];
        SwapElements(arr, i, i + 1);
        assert arr[..numElems] == Swapped(before, i, i + 1);
        SwappedPermutes(before, i, i + 1);
        SwapRemovesInversion(before, i);
        hadToSwap := true;
      }
      i := i + 1;
    }
  }

  /**
   * Full passes over `arr[0..numElems)` until one makes no swap. `numElems - 1`
   * is unsigned in the source, so at least one element is required. Every pass
   * that swaps removes an inversion, so the loop ends.
   */
  method BubbleSort(arr: array<int>, numElems: nat)
    requires 1 <= numElems <= arr.Length
    modifies arr
    ensures Sorted(arr[..numElems])
    ensures multiset(arr[..numElems]) == multiset(old(arr[..numElems]))
    ensures arr[numElems..] == old(arr[numElems..])
    ensures arr[..numElems] == Sort(old(arr[..numElems]))
  {
    while true
      invariant multiset(arr[..numElems]) == multiset(old(arr[..numElems]))
      invariant arr[numElems..] == old(arr[numElems..])
      decreases Inversions(arr[..numElems])
    {
      var hadToSwap := Pass(arr, numElems);
      if !hadToSwap {
        AdjacentSortedIsSorted(arr[..numElems]);
        break;
      }
    }
    SortedPermutationIsSort(arr[..numElems], old(arr[..numElems]));
  }

  method PrintArray(arr: array<int>, numElems: nat) returns (out: string)
    requires 1 <= numElems <= arr.Length
    ensures out == Join(Decimals(arr[..numElems]), ", ") + "\n"
  {
    ghost var d := Decimals(arr[..numElems]);
    out := "";
    var i := 0;
    assert d[0..] == d;
    while i < numElems - 1
      invariant 0 <= i <= numElems - 1
      invariant out + PrintedFrom(d, i, ", ", "\n") == PrintedFrom(d, 0, ", ", "\n")
    {
      PrintedFromStep(out, d, i, ", ", "\n");
      assert d[i] == Decimal(arr[i]);
      out := out + Decimal(arr[i]) + ", ";
      i := i + 1;
    }
    PrintedFromStep(out, d, i, ", ", "\n");
    assert d[i] == Decimal(arr[numElems - 1]);
    out := out + Decimal(arr[numElems - 1]) + "\n";
    assert out + "" == out;
  }

  /** `main`: the usage message and status 1, or the sorted list and status 0. */
  function Behaviour(argv: seq<string>, junk: nat -> int): Exit
  {
    if |argv| < 2 then
      Exit(Usage, 1)
    else
      match ParsedList(argv[1], junk)
      case None => Exit(Usage, 1)
      case Some(xs) => Exit(Output(Join(Decimals(Sort(xs)), ", ") + "\n"), 0)
  }

  method Run(argv: seq<string>, junk: nat -> int) returns (e: Exit)
    ensures e == Behaviour(argv, junk)
  {
    if |argv| < 2 {
      return Exit(Usage, 1);
    }
    var numElements, arr := ParseList(argv[1], junk);
    if numElements == 0 {
      return Exit(Usage, 1);
    }
    ghost var xs := arr[..];
    assert ParsedList(argv[1], junk) == Some(xs);
    assert arr[..numElements] == xs;
    BubbleSort(arr, numElements);
    assert arr[..numElements] == Sort(xs);
    var text := PrintArray(arr, numElements);
    e := Exit(Output(text), 0);
  }

  lemma {:induction false} NonEmptyOfFilled(parts: seq<string>)
    requires forall k :: 0 <= k < |parts| ==> parts[k] != []
    ensures NonEmpty(parts) == parts
  {
    if parts != [] {
      NonEmptyOfFilled(parts[1..]);
    }
  }

  /** Without a comma the list is refused, whatever follows. */
  lemma NoCommaRefused(s: string, junk: nat -> int)
    requires ',' !in s
    ensures ParsedList(s, junk) == None
  {
  }

  /** A token whose value does not fit a `long` makes the whole list refused. */
  lemma OverflowRefused(s: string, junk: nat -> int, k: nat)
    requires k < |Tokens(s)| && StrToL(Tokens(s)[k]).None?
    ensures ParsedList(s, junk) == None
  {
  }

  /** When no token is empty every slot is written, and the uninitialised memory does not matter. */
  lemma FullListIgnoresJunk(s: string, junk1: nat -> int, junk2: nat -> int)
    requires |Tokens(s)| == CommaCount(s) + 1
    ensures ParsedList(s, junk1) == ParsedList(s, junk2)
  {
    assert Unwritten(|Tokens(s)|, 0, junk1) == [] == Unwritten(|Tokens(s)|, 0, junk2);
  }

  /** An empty token ("1,,2", "1,2,") leaves the first slot after the tokens as the allocator left it. */
  lemma EmptyTokenReadsJunk(s: string, junk: nat -> int)
    requires ParsedList(s, junk).Some?
    requires |Tokens(s)| < CommaCount(s) + 1
    ensures ParsedList(s, junk).value[|Tokens(s)|] == junk(|Tokens(s)|)
  {
  }

  /** The tokens of a printed list: the first number, then each further number led by its space. */
  lemma PrintedTokens(xs: seq<int>)
    requires |xs| >= 2
    ensures Tokens(Join(Decimals(xs), ", ")) == PrintedPieces(xs)
    ensures CommaCount(Join(Decimals(xs), ", ")) + 1 == |xs|
  {
    SplitPrinted(xs);
    SplitOnCount(Join(Decimals(xs), ", "), ',');
    NonEmptyOfFilled(PrintedPieces(xs));
  }

  lemma ValuesOf(tokens: seq<string>, xs: seq<int>)
    requires |tokens| == |xs| && forall k :: 0 <= k < |xs| ==> StrToL(tokens[k]) == Some(xs[k])
    ensures AllFit(tokens) && Values(tokens) == xs
  {
  }

  lemma PieceValue(lead: string, x: int)
    requires lead == "" || lead == " "
    requires LongMin <= x <= LongMax
    ensures StrToL(lead + Decimal(x)) == Some(x)
  {
    LeadingIntegerOfDecimal(lead, x, []);
    assert lead + Decimal(x) + [] == lead + Decimal(x);
  }

  /**
   * `strtol` on a printed number, after white space and before a non-digit:
   * that number when it fits a `long`, the `errno` refusal otherwise.
   */
  lemma StrToLOfDecimal(spaces: string, x: int, rest: string)
    requires forall i :: 0 <= i < |spaces| ==> IsSpace(spaces[i])
    requires rest == [] || !IsDigit(rest[0])
    ensures StrToL(spaces + Decimal(x) + rest) == (if LongMin <= x <= LongMax then Some(x) else None)
  {
    LeadingIntegerOfDecimal(spaces, x, rest);
  }

  /** Each piece of a printed list, with or without its leading space, reads back as its number. */
  lemma PrintedTokenValues(xs: seq<int>)
    requires |xs| >= 2
    requires forall k :: 0 <= k < |xs| ==> LongMin <= xs[k] <= LongMax
    ensures AllFit(PrintedPieces(xs)) && Values(PrintedPieces(xs)) == xs
  {
    var parts := PrintedPieces(xs);
    forall k | 0 <= k < |parts|
      ensures StrToL(parts[k]) == Some(xs[k])
    {
      PieceValue(if k == 0 then "" else " ", xs[k]);
    }
    ValuesOf(parts, xs);
  }

  /** `parse_list` reads back the list `print_array` writes (without its newline). */
  lemma ParsedListOfPrinted(xs: seq<int>, junk: nat -> int)
    requires |xs| >= 2
    requires forall k :: 0 <= k < |xs| ==> LongMin <= xs[k] <= LongMax
    ensures ParsedList(Join(Decimals(xs), ", "), junk) == Some(xs)
  {
    var s := Join(Decimals(xs), ", ");
    var parts := PrintedPieces(xs);
    PrintedTokens(xs);
    PrintedTokenValues(xs);
    var tokens := Tokens(s);
    assert tokens == parts && CommaCount(s) + 1 - |tokens| == 0;
    assert Values(tokens) == xs;
    assert Unwritten(|tokens|, 0, junk) == [];
    assert Values(tokens) + Unwritten(|tokens|, 0, junk) == xs;
  }

  /**
   * On a list of numbers that fit a `long`, the program prints them sorted; given
   * that line as its argument, it prints the same line again.
   */
  lemma OutputIsFixedPoint(prog: string, xs: seq<int>, junk1: nat -> int, junk2: nat -> int)
    requires |xs| >= 2
    requires forall k :: 0 <= k < |xs| ==> LongMin <= xs[k] <= LongMax
    ensures var line := Join(Decimals(Sort(xs)), ", ");
      Behaviour([prog, Join(Decimals(xs), ", ")], junk1) == Exit(Output(line + "\n"), 0) &&
      Behaviour([prog, line], junk2) == Exit(Output(line + "\n"), 0)
  {
    ParsedListOfPrinted(xs, junk1);
    SortWithinBounds(xs, LongMin, LongMax);
    ParsedListOfPrinted(Sort(xs), junk2);
    SortIdempotent(xs);
  }

  lemma LettersTokens()
    ensures Tokens("a,b") == ["a", "b"] && CommaCount("a,b") == 1
  {
    assert SplitOn("", ',') == [""];
    assert SplitOn("b", ',') == ["b"] by {
      assert "b"[0] == 'b' && "b"[1..] == "";
      var rest := SplitOn("", ',');
      assert rest[0] == "" && rest[1..] == [];
      assert ['b'] + rest[0] == "b";
    }
    assert SplitOn(",b", ',') == ["", "b"] by {
      assert ",b"[0] == ',' && ",b"[1..] == "b";
    }
    assert SplitOn("a,b", ',') == ["a", "b"] by {
      assert "a,b"[0] == 'a' && "a,b"[1..] == ",b";
      assert ['a'] + "" == "a";
    }
    NonEmptyOfFilled(["a", "b"]);
    assert "a,b" == ['a'] + [','] + ['b'];
  }

  lemma LettersParsed(junk: nat -> int)
    ensures ParsedList("a,b", junk) == Some([0, 0])
  {
    LettersTokens();
    assert LeadingInteger("a") == 0 && LeadingInteger("b") == 0 by {
      assert SkipSpaces("a") == "a" && LeadingDigits("a") == [];
      assert SkipSpaces("b") == "b" && LeadingDigits("b") == [];
    }
    var tokens := ["a", "b"];
    assert StrToL(tokens[0]) == Some(0) && StrToL(tokens[1]) == Some(0);
    assert AllFit(tokens) && Values(tokens) == [0, 0];
    assert Unwritten(2, 0, junk) == [];
    assert Values(tokens) + Unwritten(2, 0, junk) == [0, 0];
  }

  lemma ZerosPrinted()
    ensures Join(Decimals(Sort([0, 0])), ", ") + "\n" == "0, 0\n"
  {
    SortOfSorted([0, 0]);
    assert Decimal(0) == "0";
    assert Decimals([0, 0]) == ["0", "0"];
    JoinPair("0", "0", ", ");
    assert "0" + ", " + "0" + "\n" == "0, 0\n";
  }

  /** Letters are not refused: with glibc or musl, `strtol` reads no digits and gives 0 without setting `errno`. */
  lemma LettersReadAsZero(prog: string, junk: nat -> int)
    ensures Behaviour([prog, "a,b"], junk) == Exit(Output("0, 0\n"), 0)
  {
    LettersParsed(junk);
    ZerosPrinted();
    var argv := [prog, "a,b"];
    assert |argv| == 2 && argv[1] == "a,b";
  }

  /** No argument at all, or an argument without a comma (at most one number), gives the usage message. */
  lemma TooFewRefused(prog: string, s: string, junk: nat -> int)
    requires ',' !in s
    ensures Behaviour([prog], junk) == Exit(Usage, 1)
    ensures Behaviour([prog, s], junk) == Exit(Usage, 1)
  {
    NoCommaRefused(s, junk);
  }
}
