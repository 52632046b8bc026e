# Sample sorters: a verified model

The editor demo ships four sample programs, one each in C, C++, Java and Go. All four are
the same small command-line tool. It reads one argument holding a comma-separated list of
integers and checks it, each program in its own way (see below). It sorts the numbers it read
with bubble sort and prints the sorted list with `", "` between the numbers. If it refuses the
argument, it prints the usage line instead. Only Java and Go refuse every list that does not
hold at least two well-formed numbers. C reads `"1,"` as the number 1 followed by an
uninitialised cell, reads `","` as two uninitialised cells, and reads a token without digits
as 0. C++ reads `"1, a"` as `[1, 0]`. The four programs differ in how they parse the
list, in the loop shape of their bubble sort, in how they build the output and in their
exit status. This project models each program's own code.

Module layout:

- `Wrappers`: `Option`.
- `Cli`: what a run looks like from outside. `Outcome` is `Usage` or `Output(text)`. `Exit`
  pairs the outcome with an exit status.
- `Sorting`: the specification that all four sorts are checked against. It holds `Sorted`,
  a reference insertion sort `Sort`, and uniqueness of the sorted permutation. It also has the
  inversion count that measures progress of the swap-until-clean loops, and the invariant
  `Bubbled` shared by the shrinking-bound loops: the tail is sorted and holds the largest
  elements.
- `Text`: decimal rendering (`Decimal`), `Join`, splitting on one character (`SplitOn`), the
  C-style integer prefix read (`LeadingInteger`: skip spaces, optional sign, longest digit run)
  and the whole-string signed parse (`ParseSigned`).
- `CSample`, `CppSample`, `JavaSample` and `GoSample`: one module per program. Each loop of
  the program is a loop in an imperative method, proved against a specification function. Each `main`
  is a pure function `Behaviour` from the argument list to an `Exit`. Each module also has a
  `Run` method that strings the methods together the way `main` does and is proved equal to
  `Behaviour`.

What the programs do, as modelled:

- **C**:
  - `parse_list` counts the commas; with none it refuses.
  - The array length is the comma count plus one.
  - The array is filled with `strtol` of each `strtok` token, so empty tokens are skipped.
  - A token outside the `long` range makes the whole parse fail (errno).
  - A token with no digits reads as 0, so `"a,b"` prints `0, 0`. This holds with a C library
    whose `strtol` leaves `errno` alone when it reads no digits, as glibc and musl do. Where
    `strtol` sets `EINVAL` in that case, such a list is refused (see "Left out").
  - Slots left unwritten because empty tokens were skipped keep whatever the allocator left
    there. This is the `junk` parameter.
  - Usage goes to stderr with status 1. Extra arguments after the first are ignored.
- **C++**:
  - The argument must have a `','` followed by `' '` at indices 1, 4, 7, …
  - Every other character that is not a comma or a space contributes `atoi` of the text from
    that character on.
  - Under the layout check every number is a single digit. Inputs such as `"10, 2"`, `"-1, 2"`
    and `"1,2"` are refused.
  - The status is always 0.
- **Java**:
  - `split(",")`, with trailing empty pieces dropped, then `trim`, then `parseInt` in the 32-bit
    range.
  - Any exception, including a missing argument, prints the usage line. So does a list shorter
    than two. The status is always 0.
  - The output loop writes `", "` before an element unless `indexOf` finds it at index 0. So
    copies of the smallest element are glued to it with no separator: `"1,1,2"` prints `11, 2`.
  - A trailing comma is ignored: `"1,2,"` behaves like `"1,2"`.
- **Go**:
  - Splits on a comma followed by at most one space, then `Atoi` each piece in the 64-bit range.
  - Fewer than two pieces, or any piece `Atoi` rejects, gives the usage line with status 1. That
    includes an empty piece, so a trailing comma is refused.
  - The output is `json.Marshal`, then `,` is replaced by `, `, then `[` and `]` are trimmed. This
    is proved equal to the `", "` join.

The four programs share one usage line and one promised format, but their code does not agree
on the edge cases, and the model follows each program's code rather than a common reading:

- C prints `0, 0` for `"a,b"` with glibc or musl.
- C++ requires `", "` exactly and single-digit numbers.
- Java prints duplicates of the smallest element glued together.
- A bare comma without a following space is accepted by C, Java and Go, but not by C++.
- Only C and Go exit with status 1 on the usage path.

## Model

| member | source | states |
|---|---|---|
| Sorting.Sort | src/AvaloniaEdit.Demo/Resources/SampleFiles/source.c:65-86 | the reference sort that every bubble sort is checked against returns a non-decreasing permutation of its input |
| Sorting.SortedPermutationIsSort | src/AvaloniaEdit.Demo/Resources/SampleFiles/source.c:65-86 | any non-decreasing permutation of a list is exactly `Sort` of it, so "sorted and same multiset" determines the result |
| Sorting.SortOfSorted | src/AvaloniaEdit.Demo/Resources/SampleFiles/source.go:13-25 | sorting a list that is already non-decreasing gives it back unchanged |
| Sorting.SortIdempotent | src/AvaloniaEdit.Demo/Resources/SampleFiles/source.c:120-121 | sorting the result of a sort again gives the same list, so sorted output sorts to itself |
| Sorting.SwapRemovesInversion | src/AvaloniaEdit.Demo/Resources/SampleFiles/source.c:74-77 | swapping an out-of-order adjacent pair lowers the inversion count by exactly one, which is why the swap-until-clean loop ends |
| Sorting.AdjacentSortedIsSorted | src/AvaloniaEdit.Demo/Resources/SampleFiles/source.c:80-82 | a pass that finds every adjacent pair in order means the whole list is non-decreasing |
| Sorting.SwappedPermutes | src/AvaloniaEdit.Demo/Resources/SampleFiles/source.c:56-63 | exchanging two cells keeps the multiset of elements |
| Sorting.StepKeeps | src/AvaloniaEdit.Demo/Resources/SampleFiles/source.cpp:24-29 | one compare-and-swap step of a pass keeps the sorted tail of largest elements and carries the running maximum one place right |
| Sorting.PassEnd | src/AvaloniaEdit.Demo/Resources/SampleFiles/source.cpp:21-29 | after a full pass the maximum of the unsorted front sits at its end, so the sorted tail grows by one |
| Text.Decimal | src/AvaloniaEdit.Demo/Resources/SampleFiles/source.c:93-96 | defines how every sample prints an integer (`%ld`, `operator<<`, `Integer.toString`, JSON): digits without leading zeros, `-` in front of a negative value; `Text.DecimalShape` and `Text.DecimalRoundTrip` state its properties |
| Text.Join | src/AvaloniaEdit.Demo/Resources/SampleFiles/source.c:88-97 | defines the parts with a separator between each two; the split lemmas below invert it |
| Text.SplitOn | src/AvaloniaEdit.Demo/Resources/SampleFiles/source.java:8 | defines splitting at every occurrence of one character, keeping empty pieces; `Text.SplitOnJoin`, `Text.JoinSplitOn` and `Text.SplitOnCount` state its properties |
| Text.LeadingInteger | src/AvaloniaEdit.Demo/Resources/SampleFiles/source.c:40 | defines the value `strtol` and `atoi` read: leading white space, an optional sign, the longest digit run, 0 without digits; `Text.LeadingIntegerOfDecimal` states that it reads back a printed number |
| Text.LeadingIntegerOfDecimal | src/AvaloniaEdit.Demo/Resources/SampleFiles/source.cpp:78 | a printed number after white space and before a non-digit reads as itself |
| Text.ParseSigned | src/AvaloniaEdit.Demo/Resources/SampleFiles/source.java:10 | defines the whole-string grammar `[+-]?[0-9]+` shared by `Integer.parseInt` and `strconv.Atoi` before their range checks; `Text.DecimalRoundTrip` and `Text.ParsedIsCanonical` state its properties |
| Text.NaturalOfDigits | src/AvaloniaEdit.Demo/Resources/SampleFiles/source.go:35 | the printed form of a digit string's value is that digit string without its leading zeros |
| Text.ParsedIsCanonical | src/AvaloniaEdit.Demo/Resources/SampleFiles/source.go:35 | every string the whole-string grammar accepts is the printed form of its value, up to a '+', leading zeros or a "-0" |
| Text.DecimalRoundTrip | src/AvaloniaEdit.Demo/Resources/SampleFiles/source.go:35 | reading back the decimal rendering of an integer gives that integer |
| Text.SplitOnJoin | src/AvaloniaEdit.Demo/Resources/SampleFiles/source.java:8 | splitting on a character a list of pieces joined by it, none holding it, gives the pieces back |
| Text.JoinSplitOn | src/AvaloniaEdit.Demo/Resources/SampleFiles/source.java:8 | joining the split pieces with the split character rebuilds the string |
| Text.SplitOnCount | src/AvaloniaEdit.Demo/Resources/SampleFiles/source.c:17-21 | splitting yields one piece more than there are separators |
| Text.SplitPrinted | src/AvaloniaEdit.Demo/Resources/SampleFiles/source.c:88-97 | splitting a printed list on ',' gives each number's rendering, all but the first led by one space |
| CSample.CommaCount | src/AvaloniaEdit.Demo/Resources/SampleFiles/source.c:17-21 | defines the number of commas the first loop of `parse_list` counts |
| CSample.Tokens | src/AvaloniaEdit.Demo/Resources/SampleFiles/source.c:37-48 | defines what successive `strtok` calls return: the runs between commas, empty runs skipped; `CSample.TokensFitArray`, `CSample.NonEmptyOfFilled` and `CSample.PrintedTokens` state its properties |
| CSample.Unwritten | src/AvaloniaEdit.Demo/Resources/SampleFiles/source.c:33 | the cells `malloc` returns but the fill loop never writes hold the allocator's prior contents |
| CSample.ParsedList | src/AvaloniaEdit.Demo/Resources/SampleFiles/source.c:7-54 | defines the result of `parse_list`: refused without a comma or on an overflowing token, otherwise the token values and then the unwritten cells up to commas plus one; `CSample.ParseList` is proved against it and the lemmas below state its properties |
| CSample.Behaviour | src/AvaloniaEdit.Demo/Resources/SampleFiles/source.c:104-124 | defines `main`: usage with status 1 without an argument or on a refused list, otherwise the sorted list and status 0; `CSample.OutputIsFixedPoint`, `CSample.TooFewRefused` and `CSample.LettersReadAsZero` state its properties |
| CSample.StrToL | src/AvaloniaEdit.Demo/Resources/SampleFiles/source.c:39-44 | defines the `errno` outcome of `strtol` as the 64-bit `long` range test on the leading integer; its properties are stated by `CSample.StrToLOfDecimal` and `CSample.OverflowRefused` |
| CSample.StrToLOfDecimal | src/AvaloniaEdit.Demo/Resources/SampleFiles/source.c:39-46 | a printed number after white space and before a non-digit reads back as itself when it fits a `long`, and sets `errno` otherwise |
| CSample.TokensFitArray | src/AvaloniaEdit.Demo/Resources/SampleFiles/source.c:30-46 | there are never more tokens than the comma count plus one, so the filling loop stays inside the array |
| CSample.ParseList | src/AvaloniaEdit.Demo/Resources/SampleFiles/source.c:7-54 | returns 0 and no array exactly when `ParsedList` refuses the list (no comma or an overflowing token); otherwise the count is commas plus one and the fresh array holds the token values in order followed by untouched allocator contents |
| CSample.FilledIsParsed | src/AvaloniaEdit.Demo/Resources/SampleFiles/source.c:37-53 | an array holding the token values in order and the allocator's contents after them is the parsed list |
| CSample.SwapElements | src/AvaloniaEdit.Demo/Resources/SampleFiles/source.c:56-63 | exchanges `arr[i]` and `arr[j]` and leaves every other cell unchanged |
| CSample.Pass | src/AvaloniaEdit.Demo/Resources/SampleFiles/source.c:71-78 | one pass permutes the first `num_elems` cells; if it swapped, the inversion count dropped; if not, nothing moved and every adjacent pair is in order |
| CSample.BubbleSort | src/AvaloniaEdit.Demo/Resources/SampleFiles/source.c:65-86 | the first `num_elems` cells end non-decreasing, a permutation of what they held and equal to `Sort` of it; cells beyond are untouched |
| CSample.PrintArray | src/AvaloniaEdit.Demo/Resources/SampleFiles/source.c:88-97 | the text written is the elements joined by ", " and a newline |
| CSample.Run | src/AvaloniaEdit.Demo/Resources/SampleFiles/source.c:104-124 | `main` with the methods strung together behaves as `Behaviour`: usage and status 1 for a missing argument or a refused list, otherwise the sorted list and status 0 |
| CSample.NonEmptyOfFilled | src/AvaloniaEdit.Demo/Resources/SampleFiles/source.c:37-48 | when no piece between commas is empty, `strtok` returns every piece |
| CSample.NoCommaRefused | src/AvaloniaEdit.Demo/Resources/SampleFiles/source.c:17-27 | a list without a comma is refused |
| CSample.OverflowRefused | src/AvaloniaEdit.Demo/Resources/SampleFiles/source.c:39-44 | one token outside the long range makes the whole parse fail |
| CSample.FullListIgnoresJunk | src/AvaloniaEdit.Demo/Resources/SampleFiles/source.c:33-53 | with no empty tokens the result does not depend on the allocator's prior contents |
| CSample.EmptyTokenReadsJunk | src/AvaloniaEdit.Demo/Resources/SampleFiles/source.c:33-53 | with an empty token the slot after the last written one holds the allocator's prior contents |
| CSample.PrintedTokens | src/AvaloniaEdit.Demo/Resources/SampleFiles/source.c:17-21 | a printed list has one comma fewer than numbers and `strtok` gives back each printed number |
| CSample.ValuesOf | src/AvaloniaEdit.Demo/Resources/SampleFiles/source.c:37-46 | tokens that each read as the matching integer all fit and their values are those integers |
| CSample.PieceValue | src/AvaloniaEdit.Demo/Resources/SampleFiles/source.c:40 | `strtol` reads back a printed number, with or without the space left by ", " |
| CSample.PrintedTokenValues | src/AvaloniaEdit.Demo/Resources/SampleFiles/source.c:37-46 | the tokens of a printed list all fit and read as the printed numbers |
| CSample.ParsedListOfPrinted | src/AvaloniaEdit.Demo/Resources/SampleFiles/source.c:7-54 | parsing a printed list of longs gives the list back, whatever the allocator held |
| CSample.OutputIsFixedPoint | src/AvaloniaEdit.Demo/Resources/SampleFiles/source.c:104-124 | a printed list prints its sorted form, and feeding that output back in prints it unchanged |
| CSample.LettersParsed | src/AvaloniaEdit.Demo/Resources/SampleFiles/source.c:37-46 | `"a,b"` parses as two zeros, because a token without digits reads as 0 and, with glibc or musl, leaves `errno` at 0 |
| CSample.LettersReadAsZero | src/AvaloniaEdit.Demo/Resources/SampleFiles/source.c:104-124 | with glibc or musl the program prints `0, 0` for `"a,b"` rather than refusing it |
| CSample.TooFewRefused | src/AvaloniaEdit.Demo/Resources/SampleFiles/source.c:109-118 | no argument, or any argument without a comma (so at most one number), gives the usage line and status 1 |
| CppSample.CharAt | src/AvaloniaEdit.Demo/Resources/SampleFiles/source.cpp:65 | defines the character read at an index up to the length, the terminator reading as NUL |
| CppSample.Layout | src/AvaloniaEdit.Demo/Resources/SampleFiles/source.cpp:63-72 | defines the condition the check loop tests: ',' followed by ' ' at every index 1, 4, 7, … below the length |
| CppSample.FormatOk | src/AvaloniaEdit.Demo/Resources/SampleFiles/source.cpp:56-74 | defines when `commaSeparated` ends set: the layout holds and the input has at least two characters; `CppSample.FormatCheck` is proved against it |
| CppSample.Extract | src/AvaloniaEdit.Demo/Resources/SampleFiles/source.cpp:74-80 | defines the numbers the `push_back` loop collects; `CppSample.ExtractNumbers` is proved against it, `CppSample.LayoutDigits` and `CppSample.DigitListExtract` state its properties |
| CppSample.ExtractUpTo | src/AvaloniaEdit.Demo/Resources/SampleFiles/source.cpp:75-80 | defines what the `push_back` loop has collected after the first `i` characters; `CppSample.ExtractSplit` ties it to `Extract` |
| CppSample.Numbers | src/AvaloniaEdit.Demo/Resources/SampleFiles/source.cpp:55-82 | defines the vector `main` holds after the argument count and the format check; `CppSample.DigitListRoundTrip` states its property |
| CppSample.Swap | src/AvaloniaEdit.Demo/Resources/SampleFiles/source.cpp:8-12 | exchanges the two cells and leaves every other cell unchanged |
| CppSample.Pass | src/AvaloniaEdit.Demo/Resources/SampleFiles/source.cpp:22-29 | a pass over the unsorted front keeps the sorted tail of largest elements and moves the front's maximum to its end; with no swap nothing moved and the front is in order |
| CppSample.BubbleSort | src/AvaloniaEdit.Demo/Resources/SampleFiles/source.cpp:17-36 | including the early break, `v[0..n)` ends non-decreasing, a permutation of what it held and equal to `Sort` of it; cells at or beyond `n` are untouched |
| CppSample.Print | src/AvaloniaEdit.Demo/Resources/SampleFiles/source.cpp:41-48 | with `size` elements the text is the first `size` elements joined by ", " and a newline; with none it is empty |
| CppSample.FormatCheck | src/AvaloniaEdit.Demo/Resources/SampleFiles/source.cpp:63-72 | the flag ends set exactly when the input has at least two characters and ',' then ' ' at every index 1, 4, 7, …, the terminator counting as past the end |
| CppSample.ExtractSplit | src/AvaloniaEdit.Demo/Resources/SampleFiles/source.cpp:75-80 | the numbers gathered from the first `i` characters followed by those of the rest are all the numbers |
| CppSample.ExtractNumbers | src/AvaloniaEdit.Demo/Resources/SampleFiles/source.cpp:74-80 | collects `atoi` of the suffix at each character other than ',' and ' ', in order |
| CppSample.Behaviour | src/AvaloniaEdit.Demo/Resources/SampleFiles/source.cpp:84-93 | the status is always 0, and the usage line comes out exactly when fewer than two numbers were collected |
| CppSample.Run | src/AvaloniaEdit.Demo/Resources/SampleFiles/source.cpp:53-94 | `main` behaves as `Behaviour` |
| CppSample.LayoutDigits | src/AvaloniaEdit.Demo/Resources/SampleFiles/source.cpp:63-80 | under the layout check every collected number is a single digit 0 to 9 |
| CppSample.NoAdjacentDigits | src/AvaloniaEdit.Demo/Resources/SampleFiles/source.cpp:63-72 | an input passing the check never has two digits side by side, so multi-digit numbers are refused |
| CppSample.DigitsLineIsJoin | src/AvaloniaEdit.Demo/Resources/SampleFiles/source.cpp:41-48 | a printed list of single digits is the digits, one character each, joined by ", " |
| CppSample.DigitListLayout | src/AvaloniaEdit.Demo/Resources/SampleFiles/source.cpp:63-72 | a printed list of single digits passes the layout check and is three characters per number minus two |
| CppSample.DigitListExtract | src/AvaloniaEdit.Demo/Resources/SampleFiles/source.cpp:74-80 | extraction from a printed list of single digits gives the digits back |
| CppSample.DigitListRoundTrip | src/AvaloniaEdit.Demo/Resources/SampleFiles/source.cpp:61-80 | a printed list of at least two single digits is accepted and yields the same list |
| CppSample.OutputIsFixedPoint | src/AvaloniaEdit.Demo/Resources/SampleFiles/source.cpp:53-94 | an accepted argument prints its sorted numbers, and feeding that output back in prints it unchanged |
| CppSample.RefusedArguments | src/AvaloniaEdit.Demo/Resources/SampleFiles/source.cpp:61-72 | a wrong argument count or a failed layout check gives the usage line with status 0 |
| JavaSample.IntList.Get | src/AvaloniaEdit.Demo/Resources/SampleFiles/source.java:37-39 | `get` reads one position of the list |
| JavaSample.IntList.IndexOf | src/AvaloniaEdit.Demo/Resources/SampleFiles/source.java:17 | `indexOf` on the list is `FirstIndex` of its contents |
| JavaSample.JavaSplit | src/AvaloniaEdit.Demo/Resources/SampleFiles/source.java:8 | defines `split(",")`: the whole string without a comma, otherwise the pieces with trailing empty ones dropped; `JavaSample.JavaSplitOfJoin` and `JavaSample.TrailingCommaIgnored` state its properties |
| JavaSample.TrimStart | src/AvaloniaEdit.Demo/Resources/SampleFiles/source.java:10 | the result does not start with a character at or below ' ' |
| JavaSample.TrimEnd | src/AvaloniaEdit.Demo/Resources/SampleFiles/source.java:10 | the result does not end with a character at or below ' ' |
| JavaSample.Trim | src/AvaloniaEdit.Demo/Resources/SampleFiles/source.java:10 | defines `trim` as both ends stripped; `JavaSample.TrimPadded` states its property |
| JavaSample.RenderUpTo | src/AvaloniaEdit.Demo/Resources/SampleFiles/source.java:13-22 | defines the `StringBuilder` contents after the first `k` elements of the loop |
| JavaSample.Rendered | src/AvaloniaEdit.Demo/Resources/SampleFiles/source.java:16-22 | defines the line built for the whole sorted list; `JavaSample.DistinctFirstIsJoin` and `JavaSample.GluedLine` state its properties |
| JavaSample.FirstIndex | src/AvaloniaEdit.Demo/Resources/SampleFiles/source.java:17 | `indexOf` returns -1 or an index that holds the element |
| JavaSample.FirstIndexZero | src/AvaloniaEdit.Demo/Resources/SampleFiles/source.java:17 | `indexOf` is 0 exactly when the element equals the first one |
| JavaSample.FirstIndexIsFirst | src/AvaloniaEdit.Demo/Resources/SampleFiles/source.java:17 | `indexOf` is at or before every position holding the element |
| JavaSample.IntList.constructor | src/AvaloniaEdit.Demo/Resources/SampleFiles/source.java:7 | a new list is empty |
| JavaSample.IntList.Add | src/AvaloniaEdit.Demo/Resources/SampleFiles/source.java:10 | `add` appends the element at the end |
| JavaSample.IntList.Set | src/AvaloniaEdit.Demo/Resources/SampleFiles/source.java:39-40 | `set` replaces one position and keeps the rest |
| JavaSample.SortList | src/AvaloniaEdit.Demo/Resources/SampleFiles/source.java:33-45 | sorts the list in place and returns that same list, now non-decreasing, a permutation of what it held and equal to `Sort` of it |
| JavaSample.Pass | src/AvaloniaEdit.Demo/Resources/SampleFiles/source.java:36-42 | outer iteration `i` leaves the last `i` positions holding the `i` largest elements in ascending order |
| JavaSample.DropTrailingEmpty | src/AvaloniaEdit.Demo/Resources/SampleFiles/source.java:8 | the result is a prefix of the pieces that does not end in an empty piece, and only empty pieces were dropped |
| JavaSample.ParseInt | src/AvaloniaEdit.Demo/Resources/SampleFiles/source.java:10 | defines `Integer.parseInt` as the whole-string signed grammar with the 32-bit range test; its properties are stated by `JavaSample.ParseIntOfDecimal` and `JavaSample.ParseIntCanonical` |
| JavaSample.ParseIntOfDecimal | src/AvaloniaEdit.Demo/Resources/SampleFiles/source.java:10 | a printed number parses back to itself exactly when it is inside the 32-bit range, and is refused otherwise |
| JavaSample.ParseIntCanonical | src/AvaloniaEdit.Demo/Resources/SampleFiles/source.java:10 | any accepted piece is the printed form of its value, up to a '+', leading zeros or a "-0" |
| JavaSample.ParseAll | src/AvaloniaEdit.Demo/Resources/SampleFiles/source.java:9-11 | a successful parse has one number per piece |
| JavaSample.Piece | src/AvaloniaEdit.Demo/Resources/SampleFiles/source.java:17-21 | an element equal to the first one is written bare; any other gets ", " in front |
| JavaSample.Behaviour | src/AvaloniaEdit.Demo/Resources/SampleFiles/source.java:5-31 | every path ends with status 0 |
| JavaSample.Render | src/AvaloniaEdit.Demo/Resources/SampleFiles/source.java:13-22 | the built text is the `indexOf`-driven rendering of the list |
| JavaSample.Run | src/AvaloniaEdit.Demo/Resources/SampleFiles/source.java:5-31 | `main` with the list parsed, sorted and rendered behaves as `Behaviour` |
| JavaSample.ParseAllStep | src/AvaloniaEdit.Demo/Resources/SampleFiles/source.java:9-11 | parsing one more piece moves its value from the remaining pieces to the collected list |
| JavaSample.AppendPiece | src/AvaloniaEdit.Demo/Resources/SampleFiles/source.java:17-21 | appending the next element with or without ", " as `indexOf` decides extends the rendering by one element |
| JavaSample.DistinctFirstIsJoin | src/AvaloniaEdit.Demo/Resources/SampleFiles/source.java:16-22 | when no later element equals the first, the rendering is the plain ", " join |
| JavaSample.DuplicateFirstGlued | src/AvaloniaEdit.Demo/Resources/SampleFiles/source.java:16-22 | when the second element equals the first, the text built from any two or more elements starts with those two written back to back |
| JavaSample.GluedLine | src/AvaloniaEdit.Demo/Resources/SampleFiles/source.java:16-23 | a sorted list whose first two elements are equal prints a line starting with that number twice with no separator |
| JavaSample.DuplicateMinimumGlued | src/AvaloniaEdit.Demo/Resources/SampleFiles/source.java:5-23 | when the smallest input number occurs twice the output starts with it written twice without a separator |
| JavaSample.TrimPadded | src/AvaloniaEdit.Demo/Resources/SampleFiles/source.java:10 | `trim` removes exactly the control and space padding around a word |
| JavaSample.PieceReads | src/AvaloniaEdit.Demo/Resources/SampleFiles/source.java:10 | a printed int, with or without the space left by ", ", trims and parses back to itself |
| JavaSample.ParseAllPointwise | src/AvaloniaEdit.Demo/Resources/SampleFiles/source.java:9-11 | when every piece parses to the matching integer, the parse gives those integers in order |
| JavaSample.ParseAllFails | src/AvaloniaEdit.Demo/Resources/SampleFiles/source.java:9-11 | one piece that does not parse makes the whole parse fail |
| JavaSample.NoCommaRefused | src/AvaloniaEdit.Demo/Resources/SampleFiles/source.java:8-12 | an argument without a comma gives the usage line |
| JavaSample.JavaSplitOfJoin | src/AvaloniaEdit.Demo/Resources/SampleFiles/source.java:8 | `split(",")` of comma-free pieces joined by commas gives the pieces back when the last is non-empty |
| JavaSample.JavaSplitPrinted | src/AvaloniaEdit.Demo/Resources/SampleFiles/source.java:8 | `split(",")` of a printed list gives each printed number, the later ones led by a space |
| JavaSample.TrailingCommaIgnored | src/AvaloniaEdit.Demo/Resources/SampleFiles/source.java:8-12 | a trailing comma changes nothing about a run |
| JavaSample.PrintedListParses | src/AvaloniaEdit.Demo/Resources/SampleFiles/source.java:8-11 | a printed list of ints parses back to the list |
| JavaSample.PrintedListSorted | src/AvaloniaEdit.Demo/Resources/SampleFiles/source.java:5-23 | a printed list of at least two ints prints the rendering of its sorted form |
| JavaSample.OutputIsFixedPoint | src/AvaloniaEdit.Demo/Resources/SampleFiles/source.java:5-23 | when the smallest number occurs once, feeding the output back in gives the same output again |
| GoSample.GoSplit | src/AvaloniaEdit.Demo/Resources/SampleFiles/source.go:29 | defines `regexp.MustCompile(", ?").Split(s, -1)`: pieces end at each comma, which takes one following space with it when there is one; `GoSample.GoSplitCount`, `GoSample.GoSplitJoin` and `GoSample.GoSplitTrailingComma` state its properties |
| GoSample.ParseList | src/AvaloniaEdit.Demo/Resources/SampleFiles/source.go:28-42 | defines `strToSliceInt`: refused below two pieces or on a piece `Atoi` rejects, otherwise the converted pieces; `GoSample.StrToSliceInt` is proved against it |
| GoSample.Marshal | src/AvaloniaEdit.Demo/Resources/SampleFiles/source.go:45 | defines `json.Marshal` of an int slice: the decimals joined by "," in brackets |
| GoSample.ReplaceComma | src/AvaloniaEdit.Demo/Resources/SampleFiles/source.go:46 | defines `strings.Replace(…, ",", ", ", -1)`; `GoSample.ReplaceCommaJoin` states its property |
| GoSample.TrimBrackets | src/AvaloniaEdit.Demo/Resources/SampleFiles/source.go:47 | defines `strings.Trim(…, "[]")`; `GoSample.TrimBracketsAround` states its property |
| GoSample.SliceIntToString | src/AvaloniaEdit.Demo/Resources/SampleFiles/source.go:44-49 | defines `sliceIntToString` as the three library steps in order; `GoSample.SliceIntToStringIsJoin` states that it is the ", " join |
| GoSample.Pass | src/AvaloniaEdit.Demo/Resources/SampleFiles/source.go:15-23 | a pass permutes the slice and reports a swap exactly when some adjacent pair was out of order; a swap lowers the inversion count, no swap leaves the slice as it was |
| GoSample.BubbleSort | src/AvaloniaEdit.Demo/Resources/SampleFiles/source.go:12-26 | sorts in place and returns the same slice, non-decreasing, a permutation of what it held and equal to `Sort` of it; an already sorted slice takes one pass and comes back unchanged |
| GoSample.Atoi | src/AvaloniaEdit.Demo/Resources/SampleFiles/source.go:35 | defines `strconv.Atoi` as the whole-string signed grammar with the 64-bit range test; its properties are stated by `GoSample.AtoiOfDecimal` and `GoSample.AtoiCanonical` |
| GoSample.AtoiOfDecimal | src/AvaloniaEdit.Demo/Resources/SampleFiles/source.go:35-38 | a printed number converts back to itself exactly when it is inside the 64-bit range, and is refused otherwise |
| GoSample.AtoiCanonical | src/AvaloniaEdit.Demo/Resources/SampleFiles/source.go:35-38 | any accepted piece is the printed form of its value, up to a '+', leading zeros or a "-0" |
| GoSample.AtoiAll | src/AvaloniaEdit.Demo/Resources/SampleFiles/source.go:34-40 | on success there is one integer per piece, in order, each the `Atoi` of its piece |
| GoSample.StrToSliceInt | src/AvaloniaEdit.Demo/Resources/SampleFiles/source.go:28-42 | the append loop computes the specified parse: refused below two pieces or on any rejected piece, otherwise the converted pieces |
| GoSample.Behaviour | src/AvaloniaEdit.Demo/Resources/SampleFiles/source.go:51-64 | the status is 1 exactly on the usage path, and any argument count other than one takes that path |
| GoSample.Run | src/AvaloniaEdit.Demo/Resources/SampleFiles/source.go:56-64 | `main` behaves as `Behaviour` |
| GoSample.GoSplitCount | src/AvaloniaEdit.Demo/Resources/SampleFiles/source.go:29 | the split yields one piece more than there are commas |
| GoSample.GoSplitWord | src/AvaloniaEdit.Demo/Resources/SampleFiles/source.go:29 | comma-free text in front joins the first piece and leaves the rest alone |
| GoSample.GoSplitSeparator | src/AvaloniaEdit.Demo/Resources/SampleFiles/source.go:29 | a leading ", ", or a bare "," not followed by a space, ends an empty first piece and is consumed whole |
| GoSample.GoSplitJoin | src/AvaloniaEdit.Demo/Resources/SampleFiles/source.go:29 | splitting comma-free pieces joined by ", ", or by "," when no later piece is empty or starts with a space, gives the pieces back |
| GoSample.GoSplitTrailingComma | src/AvaloniaEdit.Demo/Resources/SampleFiles/source.go:29 | a trailing comma adds one empty piece |
| GoSample.AtoiAllPointwise | src/AvaloniaEdit.Demo/Resources/SampleFiles/source.go:34-40 | when every piece converts to the matching integer, the result is those integers |
| GoSample.AtoiAllRefuses | src/AvaloniaEdit.Demo/Resources/SampleFiles/source.go:35-38 | one rejected piece makes the conversion fail |
| GoSample.AtoiAllRefusedPiece | src/AvaloniaEdit.Demo/Resources/SampleFiles/source.go:35-38 | a failed conversion has a piece that `Atoi` rejects |
| GoSample.NoCommaRefused | src/AvaloniaEdit.Demo/Resources/SampleFiles/source.go:29-32 | an argument without a comma gives the usage line with status 1 |
| GoSample.TrailingCommaRefused | src/AvaloniaEdit.Demo/Resources/SampleFiles/source.go:29-38 | an argument ending in a comma gives the usage line with status 1, because the empty last piece is rejected |
| GoSample.PrintedListParses | src/AvaloniaEdit.Demo/Resources/SampleFiles/source.go:28-42 | a list printed with ", " or with "," parses back to the list |
| GoSample.ReplaceCommaConcat | src/AvaloniaEdit.Demo/Resources/SampleFiles/source.go:46 | the comma replacement works piece by piece over concatenation |
| GoSample.ReplaceCommaJoin | src/AvaloniaEdit.Demo/Resources/SampleFiles/source.go:46 | replacing "," by ", " turns a ","-join of comma-free pieces into their ", "-join |
| GoSample.TrimBracketsAround | src/AvaloniaEdit.Demo/Resources/SampleFiles/source.go:47 | trimming brackets from a bracketed text whose ends are no brackets gives the text |
| GoSample.MarshalWidened | src/AvaloniaEdit.Demo/Resources/SampleFiles/source.go:45-46 | the replacement widens the separators inside the JSON array and keeps its brackets |
| GoSample.SliceIntToStringIsJoin | src/AvaloniaEdit.Demo/Resources/SampleFiles/source.go:44-49 | the marshal, replace and trim pipeline equals the decimal renderings joined by ", " |
| GoSample.PrintedListSorted | src/AvaloniaEdit.Demo/Resources/SampleFiles/source.go:56-64 | a list printed with ", " or "," prints its sorted form joined by ", " |
| GoSample.OutputIsFixedPoint | src/AvaloniaEdit.Demo/Resources/SampleFiles/source.go:56-64 | feeding the output back in prints it unchanged |

## Left out

- Output streams, `printf`/`cout`/`System.out`/`fmt.Println` and process exit are not modelled
  as effects. A run is the value `Exit(outcome, status)`. `Usage` stands for the fixed usage
  line on whichever stream the program uses.
- `malloc`, `strdup` and `free` in the C program are not modelled, and neither is the leak of
  the copy on the overflow path. The array is a fresh `array`. Uninitialised slots are the
  parameter `junk`: the allocator's prior contents, never invented values.
- The library parsers are small specified grammars over ASCII digits.
  - `strtol` and `atoi`: leading spaces, an optional sign, then the longest digit run. No digits
    reads as 0.
  - `Integer.parseInt` and `strconv.Atoi`: the whole piece is an optional sign and at least one
    digit.
  - Non-ASCII digits, which `parseInt` accepts, are left out.
  - `strtol`'s hexadecimal or locale behaviour is not used with base 10 and is left out.
- CSample.StrToL and CSample.LettersReadAsZero: when no digits are read, `errno` is taken as
  unchanged, as in glibc and musl. Where `strtol` sets `EINVAL` in that case, as the FreeBSD and
  macOS libraries do, every token without digits is refused and `"a,b"` gives the usage line
  with status 1. The model does not cover that library behaviour.
- Range limits: C `long` and Go `int` are taken as 64 bits and Java `int` as 32 bits. These are
  the only places where machine width changes behaviour.
- CppSample.ExtractNumbers: `atoi` overflow is not modelled. `CppSample.LayoutDigits` shows that
  every number collected under the layout check is one digit, so overflow cannot arise.
- The C++ read of `characters[index + 1]` at the terminator is the NUL character returned by
  `CharAt`. The read of `argv[1]` when it is missing is not modelled; the code never uses it then.
- Arguments are modelled as strings without embedded NUL characters.
- CppSample.Layout, CppSample.FormatOk and CppSample.FormatCheck: arguments are taken as one
  character per byte, as for ASCII text. The program indexes the bytes of the UTF-8 argument,
  so an argument with a non-ASCII character is always refused there (its extra bytes break
  the comma-space layout), while the model may accept it: `"é, 1"` passes `FormatOk`.
- Java's exception mechanism is folded into the `Option` results of `ParseAll` and the missing
  argument case of `Behaviour`. `StringBuilder` is a string that `Render` grows.
- Go's regular-expression engine is the recursive `GoSplit` for the pattern ", ?".
  `json.Marshal` is the bracketed "," join of the decimal renderings. Its `null` for a nil slice
  is left out, because the printed slice always has at least two elements.
- The loops and their conditions are the source's. The inner loop of each bubble sort is split
  into its own method `Pass`, called from the outer loop. The Java output loop, which sits inline
  in `main`, is the method `Render` called from `Run`.
- Java sorts an `ArrayList<Integer>` of boxed values. The model sorts plain integers, since
  boxing does not change comparisons here.
- The rest of the editor application is not part of this model.
