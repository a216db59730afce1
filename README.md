# Trailing-separator stripper and relative path shortener, in Dafny

This project models the two utilities of a small personal script collection.
With their I/O removed, both are plain string transformations:

- **remove_last_comma** reads a file and counts the run of trailing
  characters from the set comma, newline, carriage return, form feed and
  space. If that run is not empty, it writes the file back without it.
  Module `RemoveLastComma` models the counting loop as a method over the
  reversed content. Its result is tied to a specification function
  (`TrailingRun`, `Stripped`), and the listed properties are proved as
  lemmas about that function.
- **shorten_file_path** splits two paths into components with `splitall`
  and finds the first index where the two component lists differ. It then
  prints the first path's components from that index on. When that would
  leave only the file name of a longer path, it widens the output to the
  last two components. Module `ShortenFilePath` models `splitall` and the
  divergence search as loops. Each loop is proved equal to a recursive
  reference function, and the widening rule and the final join are stated
  on those functions.
- `os.path.split` and `os.path.join` do not belong to the repository. Module
  `PosixPath` fixes one convention for them and states it as an
  assumption: POSIX, as in CPython's `posixpath`. The separator is `/`.
  `split` cuts after the last `/` and strips trailing slashes from the head
  unless the head is all slashes. `join` adds each component with a `/`
  unless the path is empty or already ends in `/`. A component that starts
  with `/` restarts the path. `join()` with no argument raises a TypeError,
  which the model returns as `NoArgumentError`.

The script's docstring talks about removing "the last comma". But the
slice on line 25 of `bin/remove_last_comma.py`,
`reversed_all_lines[:n-1:-1]`, reads the reversed text from its last index
down to index `n`. That is the original text without its last `n`
characters, so the whole trailing run goes: `"abc,,,\n"` becomes `"abc"`.
`DescendingSlice` models the slice as written, and `SliceDropsRun` proves
what it removes.

## Model

| member | source | states |
|---|---|---|
| `PosixPath.AfterLastSep` | bin/shorten_file_path.py:13 | `p.rfind('/') + 1` inside `split`: a position at most the length, just after a `/` when positive, with no `/` after it |
| `PosixPath.RStripSep` | bin/shorten_file_path.py:13 | `rstrip('/')` inside `split`: a prefix of the input that is empty or does not end in `/`, with only slashes removed |
| `PosixPath.Split` | bin/shorten_file_path.py:13 | `os.path.split`: the head is the path itself or strictly shorter, which is what makes `splitall` terminate; `SplitParts` states the rest |
| `PosixPath.SplitParts` | bin/shorten_file_path.py:13 | the pair `split` returns is fully determined: the tail is the longest suffix without `/`; the head is the rest if that is all slashes, and otherwise the rest without its trailing slashes |
| `PosixPath.SplitHeadFixpoint` | bin/shorten_file_path.py:14 | `split` returns the path itself as head (the absolute sentinel) exactly when the path is all slashes, the empty path included |
| `PosixPath.SplitTailFixpoint` | bin/shorten_file_path.py:17 | `split` returns the path itself as tail (the relative sentinel) exactly when the path contains no `/` |
| `PosixPath.JoinSplit` | bin/shorten_file_path.py:13 | joining the head and tail of `split` gives back every path without doubled separators |
| `PosixPath.JoinTwo` | bin/shorten_file_path.py:51 | one step of the loop in `posixpath.join`: the result ends with the component; a component starting with `/` replaces the path; otherwise the path is kept in front, followed by one `/` exactly when it is non-empty and does not already end in `/` |
| `PosixPath.JoinFold` | bin/shorten_file_path.py:51 | the loop of `join(a, *p)`: the result ends with the last component, and starts with the first one when no later component starts with `/` |
| `PosixPath.Join` | bin/shorten_file_path.py:51 | `join` fails exactly when it gets no component; a single component is returned unchanged; otherwise the result ends with the last component |
| `ShortenFilePath.Components` | bin/shorten_file_path.py:10-23 | the decomposition always terminates, because each step that does not stop replaces the path with a strictly shorter head, and always returns at least one component |
| `ShortenFilePath.ComponentsShape` | bin/shorten_file_path.py:10-23 | the first component is a sentinel (all slashes, or free of `/`) and every later component is free of `/` |
| `ShortenFilePath.JoinComponents` | bin/shorten_file_path.py:10-23 | joining the components gives the path back, for every path without doubled separators |
| `ShortenFilePath.SplitAll` | bin/shorten_file_path.py:10-23 | the `while 1` loop that inserts at the front of the list returns exactly `Components(path)`, which is non-empty |
| `ShortenFilePath.DivergenceIndex` | bin/shorten_file_path.py:35-44 | the index is at most the shorter length; the two lists agree before it, and differ at it when it is below that length |
| `ShortenFilePath.FindDivergence` | bin/shorten_file_path.py:35-44 | the `for`/`break` search with its `None` default returns the divergence index, with the same three properties |
| `ShortenFilePath.StartIndex` | bin/shorten_file_path.py:45-50 | the start index never exceeds the divergence index; a one-component remainder of a longer path moves it to exactly `len - 2`, so the clamp never changes anything; otherwise it stays at the divergence index; the output has one component only when the path has one |
| `ShortenFilePath.ShortName` | bin/shorten_file_path.py:31-51 | the value the main block computes: the join of the chosen suffix of path A's components; whenever it is a path, it ends with path A's last component, the file name |
| `ShortenFilePath.Shorten` | bin/shorten_file_path.py:31-51 | the main block, built from the `SplitAll` and `FindDivergence` loops and the widening `if`, returns exactly `ShortName` |
| `ShortenFilePath.ShortNameFails` | bin/shorten_file_path.py:43-51 | the final `join()` fails exactly when the components of path A all match those of path B: identical paths, or A a prefix of B |
| `ShortenFilePath.StartAtEnd` | bin/shorten_file_path.py:43-50 | the start index is the end of `parts_a`, leaving nothing to print, exactly when `parts_a` is a prefix of `parts_b` |
| `ShortenFilePath.ChosenSuffix` | bin/shorten_file_path.py:45-50 | the printed components are a contiguous suffix of `parts_a` that ends with the whole naive remainder `parts_a[short:]`; it has one component only when `parts_a` does; a widened output is exactly the last two components |
| `ShortenFilePath.ExampleWidened` | bin/shorten_file_path.py:48-51 | `/d/f` against `/d/g` gives `d/f`, not the bare file name |
| `ShortenFilePath.ExampleNoWidening` | bin/shorten_file_path.py:39-51 | `/d/f` against `/e/g` gives `d/f` |
| `ShortenFilePath.ExampleIdentical` | bin/shorten_file_path.py:43-51 | identical paths leave nothing to join, and `join()` fails |
| `RemoveLastComma.IsSeparator` | bin/remove_last_comma.py:20 | `ch in ",\n\r\f "` holds for exactly comma, newline, carriage return, form feed and space |
| `RemoveLastComma.Reverse` | bin/remove_last_comma.py:17 | `all_lines[::-1]`: the same length, and element `i` is the original's element `len - 1 - i` |
| `RemoveLastComma.ReverseReverse` | bin/remove_last_comma.py:17 | reversing twice gives the content back |
| `RemoveLastComma.TrailingRun` | bin/remove_last_comma.py:17-23 | `n` is at most the content length; the last `n` characters are all separators; the one before them, if any, is not |
| `RemoveLastComma.DescendingSlice` | bin/remove_last_comma.py:25 | `r[:stop:-1]` has `len - 1 - stop` elements, at least 0, and element `k` is `r[len-1-k]` |
| `RemoveLastComma.SliceDropsRun` | bin/remove_last_comma.py:25 | for `0 < n <= len`, slicing the reversed content with `[:n-1:-1]` gives `content[..len-n]`: all `n` trailing separators are removed |
| `RemoveLastComma.Stripped` | bin/remove_last_comma.py:17-25 | the result is a prefix of the input; every removed character is a separator; the result is empty or does not end in a separator |
| `RemoveLastComma.RemoveLastComma` | bin/remove_last_comma.py:17-27 | the loop over the reversed content computes `n = TrailingRun(content)`; the new content is `Stripped(content)`; the file is rewritten exactly when `n > 0`; with no rewrite the content is unchanged |
| `RemoveLastComma.Idempotent` | bin/remove_last_comma.py:19-25 | stripped content has no trailing run, so a second run changes nothing and does not rewrite |
| `RemoveLastComma.StrippedEmpty` | bin/remove_last_comma.py:20-25 | content is stripped to nothing exactly when it is all separators, the empty content included |
| `RemoveLastComma.NonSeparatorStops` | bin/remove_last_comma.py:20-23 | a final character outside the set stops the scan at once and nothing is removed |
| `RemoveLastComma.TabStops` | bin/remove_last_comma.py:20-23 | a tab is outside the set: a final tab stops the scan and nothing is removed |
| `RemoveLastComma.ExampleCommasAndNewline` | bin/remove_last_comma.py:17-25 | `"abc,,,\n"` has a trailing run of 4 and becomes `"abc"` |

## Left out

- Command-line arguments (`sys.argv`) are not modelled. The content to strip and the two paths are parameters.
- Opening, reading and writing the file are not modelled. The write becomes the `rewrite` flag and the new content the method returns.
- The `print` of the shortened path is not modelled. `Shorten` returns the value instead.
- Text decoding and newline translation by `open(..., "r")` are not modelled. Content is a plain sequence of characters.
- Windows (`ntpath`) semantics are not modelled. Drive letters and backslashes are outside the fixed POSIX convention.
- The module docstring says the stripper "outputs to standard out". The code prints nothing, so there is nothing to model.
- DescendingSlice: covers only a non-negative `stop`. Line 25 runs only when `n > 0`, so its `n - 1` is never negative, and the negative-index rules of Python slices are not needed.
- PosixPath.JoinSplit and ShortenFilePath.JoinComponents: proved only for paths without doubled separators. `split` collapses a run of slashes, so `a//b` joins back as `a/b`.
