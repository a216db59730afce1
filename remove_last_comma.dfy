/** The trailing-separator stripper: count the run of commas, newlines,
    carriage returns, form feeds and spaces at the end of the content,
    drop that whole run, and rewrite the file only when the run is not
    empty. */
module RemoveLastComma {

  const FormFeed: char := '\U{C}'

  /** The string `",\n\r\f "` the scan tests each character against. */
  const Separators: string := [',', '\n', '\r', FormFeed, ' ']

  /** Membership in the separator string: exactly comma, newline, carriage
      return, form feed and space. Tabs and other whitespace are not
      separators. */
  predicate IsSeparator(c: char)
    ensures IsSeparator(c) <==> c == ',' || c == '\n' || c == '\r' || c == FormFeed || c == ' '
  {
    c in Separators
  }

  predicate AllSeparators(s: string) {
    forall i :: 0 <= i < |s| ==> IsSeparator(s[i])
  }

  /** The length of the longest suffix of `s` made only of separators. */
  function TrailingRun(s: string): (n: nat)
    ensures n <= |s|
    ensures forall i :: |s| - n <= i < |s| ==> IsSeparator(s[i])
    ensures n < |s| ==> !IsSeparator(s[|s| - n - 1])
  {
    if |s| > 0 && IsSeparator(s[|s| - 1]) then 1 + TrailingRun(s[..|s| - 1]) else 0
  }

  /** The three properties in the contract of TrailingRun determine it. */
  lemma TrailingRunUnique(s: string, m: nat)
    requires m <= |s|
    requires forall i :: |s| - m <= i < |s| ==> IsSeparator(s[i])
    requires m < |s| ==> !IsSeparator(s[|s| - m - 1])
    ensures m == TrailingRun(s)
  {
  }

  /** `s[::-1]`: the same characters in the opposite order. */
  function Reverse(s: string): (r: string)
    ensures |r| == |s|
    ensures forall i :: 0 <= i < |s| ==> r[i] == s[|s| - 1 - i]
  {
    if s == [] then [] else Reverse(s[1..]) + [s[0]]
  }

  /** Reversing twice gives the content back. */
  lemma ReverseReverse(s: string)
    ensures Reverse(Reverse(s)) == s
  {
    assert forall i :: 0 <= i < |s| ==> Reverse(Reverse(s))[i] == s[i];
  }

  /** The slice `r[:stop:-1]` for a non-negative `stop`: the elements
      `r[|r|-1]`, `r[|r|-2]`, ..., `r[stop+1]`, in that order. */
  function DescendingSlice(r: string, stop: nat): (out: string)
    ensures |out| == if stop < |r| then |r| - 1 - stop else 0
    ensures forall k :: 0 <= k < |out| ==> out[k] == r[|r| - 1 - k]
  {
    if |r| <= stop + 1 then [] else [r[|r| - 1]] + DescendingSlice(r[..|r| - 1], stop)
  }

  /** Line 25: reading the reversed content backwards down to index `n`
      removes exactly the last `n` characters, not `n - 1`. */
  lemma SliceDropsRun(s: string, n: nat)
    requires 0 < n <= |s|
    ensures DescendingSlice(Reverse(s), n - 1) == s[..|s| - n]
  {
  }

  /** The content the stripper leaves: the input without its trailing run
      of separators. It is a prefix of the input, everything it drops is a
      separator, and it does not itself end in a separator. */
  function Stripped(s: string): (r: string)
    ensures |r| <= |s| && r == s[..|r|]
    ensures forall i :: |r| <= i < |s| ==> IsSeparator(s[i])
    ensures r == [] || !IsSeparator(r[|r| - 1])
  {
    s[..|s| - TrailingRun(s)]
  }

  /** Lines 17-27 without the file I/O: `n` counts the trailing separators
      of the reversed content, the content is cut when `n > 0`, and
      `rewrite` says whether the file is written back. */
  method RemoveLastComma(content: string) returns (allLines: string, n: nat, rewrite: bool)
    ensures n == TrailingRun(content)
    ensures allLines == Stripped(content)
    ensures rewrite <==> n > 0
    ensures !rewrite ==> allLines == content
  {
    allLines := content;
    var reversedAllLines := Reverse(allLines);
    n := 0;
    while n < |reversedAllLines|
      invariant n <= |reversedAllLines|
      invariant forall j :: 0 <= j < n ==> IsSeparator(reversedAllLines[j])
    {
      if IsSeparator(reversedAllLines[n]) {
        n := n + 1;
      } else {
        break;
      }
    }
    forall i | |content| - n <= i < |content| ensures IsSeparator(content[i]) {
      assert content[i] == reversedAllLines[|content| - 1 - i];
    }
    TrailingRunUnique(content, n);
    rewrite := n > 0;
    if rewrite {
      allLines := DescendingSlice(reversedAllLines, n - 1);
      SliceDropsRun(content, n);
    }
  }

  /** A second run finds nothing to strip and does not rewrite the file. */
  lemma Idempotent(s: string)
    ensures TrailingRun(Stripped(s)) == 0
    ensures Stripped(Stripped(s)) == Stripped(s)
  {
  }

  /** Content is stripped to nothing exactly when it consists of
      separators only (the empty content included). */
  lemma StrippedEmpty(s: string)
    ensures Stripped(s) == [] <==> AllSeparators(s)
  {
  }

  /** A final character outside the separator set stops the scan at once:
      nothing is removed. */
  lemma NonSeparatorStops(s: string, c: char)
    requires !IsSeparator(c)
    ensures TrailingRun(s + [c]) == 0 && Stripped(s + [c]) == s + [c]
  {
  }

  /** A tab at the end is not stripped and stops the scan. */
  lemma TabStops(s: string)
    ensures TrailingRun(s + ['\t']) == 0 && Stripped(s + ['\t']) == s + ['\t']
  {
    NonSeparatorStops(s, '\t');
  }

  /** `"abc,,,\n"` has a trailing run of four and becomes `"abc"`. */
  lemma ExampleCommasAndNewline()
    ensures TrailingRun("abc,,,\n") == 4 && Stripped("abc,,,\n") == "abc"
  {
    TrailingRunUnique("abc,,,\n", 4);
  }
}
