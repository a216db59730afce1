/** The path shortener: split two paths into their components, find where
    they first differ, and print the rest of the first path, widened to its
    last two components when only the file name would be left. */
module ShortenFilePath {

  import opened PosixPath

  datatype Option<T> = None | Some(value: T)

  /** A first component that `splitall` stops at: all slashes (the root,
      or the empty path) or a single name without any separator. */
  predicate IsSentinel(c: string) {
    AllSep(c) || NoSep(c)
  }

  /** The components `splitall` produces, stated recursively: split off the
      tail until `split` returns the path itself as its head (absolute
      sentinel) or as its tail (relative sentinel). Every other step
      replaces the path with a strictly shorter head. */
  function Components(path: string): (parts: seq<string>)
    ensures |parts| >= 1
    decreases |path|
  {
    var (head, tail) := Split(path);
    if head == path then [head]
    else if tail == path then [tail]
    else Components(head) + [tail]
  }

  /** Shape of the decomposition: the first component is a sentinel and
      every later one is a name without any separator. */
  lemma {:induction false} ComponentsShape(path: string)
    ensures IsSentinel(Components(path)[0])
    ensures forall i :: 1 <= i < |Components(path)| ==> NoSep(Components(path)[i])
    decreases |path|
  {
    var (head, tail) := Split(path);
    if head == path {
      SplitHeadFixpoint(path);
    } else if tail == path {
    } else {
      ComponentsShape(head);
      var parts := Components(head);
      assert Components(path) == parts + [tail];
      assert Components(path)[0] == parts[0];
    }
  }

  /** Joining the components gives the path back, for every path without
      doubled separators (splitall and join are inverse there). */
  lemma {:induction false} JoinComponents(path: string)
    requires NoDoubleSep(path)
    ensures Join(Components(path)) == Joined(path)
    decreases |path|
  {
    var (head, tail) := Split(path);
    if head == path || tail == path {
    } else {
      assert NoDoubleSep(head) by {
        forall i | 0 <= i < |head| - 1 && head[i] == Sep ensures head[i + 1] != Sep {
          assert head[i] == path[i] && head[i + 1] == path[i + 1];
        }
      }
      JoinComponents(head);
      JoinSnoc(Components(head), tail);
      JoinSplit(path);
    }
  }

  /** `splitall` (lines 10-23): the `while 1` loop that inserts each tail at
      the front of `allparts`. */
  method SplitAll(path: string) returns (allparts: seq<string>)
    ensures allparts == Components(path)
    ensures |allparts| >= 1
  {
    var p := path;
    allparts := [];
    while true
      invariant Components(path) == Components(p) + allparts
      decreases |p|
    {
      var parts := Split(p);
      if parts.0 == p {
        allparts := [parts.0] + allparts;
        break;
      } else if parts.1 == p {
        allparts := [parts.1] + allparts;
        break;
      } else {
        p := parts.0;
        allparts := [parts.1] + allparts;
      }
    }
  }

  /** The divergence index: the length of the longest common prefix of the
      two component sequences. */
  function DivergenceIndex(a: seq<string>, b: seq<string>): (short: nat)
    ensures short <= |a| && short <= |b|
    ensures forall i :: 0 <= i < short ==> a[i] == b[i]
    ensures short < |a| && short < |b| ==> a[short] != b[short]
  {
    if |a| == 0 || |b| == 0 || a[0] != b[0] then 0
    else 1 + DivergenceIndex(a[1..], b[1..])
  }

  /** The search of lines 35-44: the first index below the shorter length
      where the components differ, or that length when there is none. */
  method FindDivergence(partsA: seq<string>, partsB: seq<string>) returns (short: nat)
    ensures short <= |partsA| && short <= |partsB|
    ensures forall i :: 0 <= i < short ==> partsA[i] == partsB[i]
    ensures short < |partsA| && short < |partsB| ==> partsA[short] != partsB[short]
    ensures short == DivergenceIndex(partsA, partsB)
  {
    var n := Min(|partsA|, |partsB|);
    var found: Option<nat> := None;
    var ii := 0;
    while ii < n
      invariant 0 <= ii <= n
      invariant forall j :: 0 <= j < ii ==> partsA[j] == partsB[j]
      invariant found == None
    {
      if partsA[ii] != partsB[ii] {
        found := Some(ii);
        break;
      }
      ii := ii + 1;
    }
    if found.None? {
      short := n;
    } else {
      short := found.value;
    }
    DivergenceUnique(partsA, partsB, short);
  }

  /** The three properties in the contract of DivergenceIndex determine it. */
  lemma DivergenceUnique(a: seq<string>, b: seq<string>, k: nat)
    requires k <= |a| && k <= |b|
    requires forall i :: 0 <= i < k ==> a[i] == b[i]
    requires k < |a| && k < |b| ==> a[k] != b[k]
    ensures k == DivergenceIndex(a, b)
  {
  }

  function Min(x: int, y: int): int { if x <= y then x else y }

  function Max(x: int, y: int): int { if x >= y then x else y }

  /** Lines 45-50: the index from which `parts_a` is printed. The
      remainder after the divergence index is kept, unless it is a single
      component of a longer path, in which case the last two components are
      kept. The `max(0, min(...))` clamp never changes the index. */
  function StartIndex(partsA: seq<string>, partsB: seq<string>): (start: nat)
    ensures start <= DivergenceIndex(partsA, partsB)
    ensures |partsA| - DivergenceIndex(partsA, partsB) == 1 && |partsA| > 1 ==>
      start == |partsA| - 2
    ensures |partsA| - DivergenceIndex(partsA, partsB) != 1 || |partsA| <= 1 ==>
      start == DivergenceIndex(partsA, partsB)
    ensures |partsA| - start == 1 ==> |partsA| == 1
  {
    var short := DivergenceIndex(partsA, partsB);
    var remainder := partsA[short..];
    if |remainder| == 1 && |partsA| > 1 then
      Max(0, Min(|partsA|, |partsA| - 2))
    else
      short
  }

  /** What the shortener prints for `strA` relative to `strB`: the join of
      the chosen suffix of `strA`'s components, or the error `join` raises
      when that suffix is empty. A printed path always ends with the last
      component of `strA`, its file name. */
  function ShortName(strA: string, strB: string): (r: JoinResult)
    ensures r.Joined? ==> EndsWith(r.path, Components(strA)[|Components(strA)| - 1])
  {
    var partsA := Components(strA);
    var suffix := partsA[StartIndex(partsA, Components(strB))..];
    assert suffix != [] ==> suffix[|suffix| - 1] == partsA[|partsA| - 1];
    Join(suffix)
  }

  /** The main block (lines 31-51). */
  method Shorten(strA: string, strB: string) returns (shortName: JoinResult)
    ensures shortName == ShortName(strA, strB)
  {
    var partsA := SplitAll(strA);
    var partsB := SplitAll(strB);
    var short := FindDivergence(partsA, partsB);
    var remainder := partsA[short..];
    if |remainder| == 1 {
      if |partsA| > 1 {
        short := Max(0, Min(|partsA|, |partsA| - 2));
      }
    }
    assert short == StartIndex(partsA, partsB);
    shortName := Join(partsA[short..]);
  }

  /** Line 51 calls `join()` with no argument, and fails, exactly when the
      first path's components all match the second path's: identical paths,
      or a first path that is a prefix of the second. */
  lemma ShortNameFails(strA: string, strB: string)
    ensures ShortName(strA, strB).NoArgumentError? <==>
      |Components(strA)| <= |Components(strB)| &&
      Components(strA) == Components(strB)[..|Components(strA)|]
  {
    StartAtEnd(Components(strA), Components(strB));
  }

  /** Nothing is left to print exactly when `parts_a` is a prefix of
      `parts_b`. */
  lemma StartAtEnd(partsA: seq<string>, partsB: seq<string>)
    ensures StartIndex(partsA, partsB) == |partsA| <==>
      |partsA| <= |partsB| && partsA == partsB[..|partsA|]
  {
  }

  /** The printed suffix is a contiguous suffix of the first path's
      components that contains the whole naive remainder, and it is a single
      component only when the first path has a single component. */
  lemma ChosenSuffix(partsA: seq<string>, partsB: seq<string>)
    ensures
      var suffix := partsA[StartIndex(partsA, partsB)..];
      var remainder := partsA[DivergenceIndex(partsA, partsB)..];
      |remainder| <= |suffix| &&
      suffix[|suffix| - |remainder|..] == remainder &&
      (|suffix| == 1 ==> |partsA| == 1) &&
      (|remainder| == 1 && |partsA| > 1 ==> suffix == partsA[|partsA| - 2..])
  {
  }

  /** `split` and `splitall` on an absolute path `/d/f` with one-letter
      names. */
  lemma SplitTwoLevels(d: char, f: char)
    requires d != Sep && f != Sep
    ensures Split(['/', d, '/', f]) == (['/', d], [f])
  {
    var p := ['/', d, '/', f];
    assert AfterLastSep(p) == 3;
    assert p[..3] == ['/', d, '/'] && p[3..] == [f];
    assert ['/', d, '/'][1] != Sep;
    assert ['/', d, '/'][..2] == ['/', d];
  }

  lemma ComponentsTwoLevels(d: char, f: char)
    requires d != Sep && f != Sep
    ensures Components(['/', d, '/', f]) == ["/", [d], [f]]
  {
    SplitTwoLevels(d, f);
    assert AfterLastSep(['/', d]) == 1;
    assert ['/', d][..1] == "/" && ['/', d][1..] == [d];
    assert Split(['/', d]) == ("/", [d]);
    assert AfterLastSep("/") == 1;
    assert "/"[..1] == "/" && "/"[1..] == "";
    assert Components("/") == ["/"];
    assert Components(['/', d]) == ["/", [d]];
  }

  /** Same directory, different file names: the result is widened from
      the file name alone to the directory and the file name, as in
      `/a/b` against `/a/c` giving `a/b`. */
  lemma ExampleWidened(d: char, f: char, g: char)
    requires d != Sep && f != Sep && g != Sep && f != g
    ensures ShortName(['/', d, '/', f], ['/', d, '/', g]) == Joined([d, '/', f])
  {
    ComponentsTwoLevels(d, f);
    ComponentsTwoLevels(d, g);
    var partsA: seq<string> := ["/", [d], [f]];
    var partsB: seq<string> := ["/", [d], [g]];
    DivergenceUnique(partsA, partsB, 2);
    assert StartIndex(partsA, partsB) == 1;
    assert partsA[1..] == [[d], [f]];
    assert JoinFold([d], [[f]]) == [d, '/', f] by {
      assert [[f]][..0] == [];
    }
  }

  /** Different directories: the remainder already has two components, as
      in `/x/f` against `/y/g` giving `x/f`. */
  lemma ExampleNoWidening(d: char, e: char, f: char, g: char)
    requires d != Sep && e != Sep && f != Sep && g != Sep && d != e
    ensures ShortName(['/', d, '/', f], ['/', e, '/', g]) == Joined([d, '/', f])
  {
    ComponentsTwoLevels(d, f);
    ComponentsTwoLevels(e, g);
    var partsA: seq<string> := ["/", [d], [f]];
    var partsB: seq<string> := ["/", [e], [g]];
    DivergenceUnique(partsA, partsB, 1);
    assert StartIndex(partsA, partsB) == 1;
    assert partsA[1..] == [[d], [f]];
    assert JoinFold([d], [[f]]) == [d, '/', f] by {
      assert [[f]][..0] == [];
    }
  }

  /** Identical paths leave nothing to join: `join()` fails. */
  lemma ExampleIdentical(d: char, f: char)
    requires d != Sep && f != Sep
    ensures ShortName(['/', d, '/', f], ['/', d, '/', f]) == NoArgumentError
  {
    ComponentsTwoLevels(d, f);
  }
}
