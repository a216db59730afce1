/** The two path primitives the path shortener relies on, `os.path.split`
    and `os.path.join`, under the POSIX convention of CPython's `posixpath`:
    the separator is '/', there are no drive letters and no backslashes. */
module PosixPath {

  const Sep: char := '/'

  /** The outcome of `join`: a path, or the TypeError raised when it is
      called with no argument at all. */
  datatype JoinResult = Joined(path: string) | NoArgumentError

  predicate NoSep(s: string) {
    forall i :: 0 <= i < |s| ==> s[i] != Sep
  }

  predicate AllSep(s: string) {
    forall i :: 0 <= i < |s| ==> s[i] == Sep
  }

  /** No two separators next to each other: the paths `split` and `join`
      take apart and put back together unchanged. */
  predicate NoDoubleSep(p: string) {
    forall i :: 0 <= i < |p| - 1 && p[i] == Sep ==> p[i + 1] != Sep
  }

  /** `p.rfind('/') + 1`: the position just after the last separator, 0 when
      there is none. */
  function AfterLastSep(p: string): (i: nat)
    ensures i <= |p|
    ensures 0 < i ==> p[i - 1] == Sep
    ensures NoSep(p[i..])
  {
    if |p| == 0 then 0
    else if p[|p| - 1] == Sep then |p|
    else
      var i := AfterLastSep(p[..|p| - 1]);
      assert p[i..] == p[..|p| - 1][i..] + [p[|p| - 1]];
      i
  }

  /** `s.rstrip('/')`. */
  function RStripSep(s: string): (r: string)
    ensures |r| <= |s| && r == s[..|r|]
    ensures AllSep(s[|r|..])
    ensures r == [] || r[|r| - 1] != Sep
  {
    if |s| > 0 && s[|s| - 1] == Sep then
      var r := RStripSep(s[..|s| - 1]);
      assert s[|r|..] == s[..|s| - 1][|r|..] + [Sep];
      r
    else s
  }

  /** `posixpath.split(p)`: the tail is everything after the last '/', the
      head everything before it with its trailing slashes removed, unless the
      head consists of slashes only. The head is the path itself or strictly
      shorter; SplitParts states the rest. */
  function Split(p: string): (r: (string, string))
    ensures r.0 == p || |r.0| < |p|
  {
    var i := AfterLastSep(p);
    var head, tail := p[..i], p[i..];
    if |head| > 0 && !AllSep(head) then (RStripSep(head), tail) else (head, tail)
  }

  /** What `split` returns, determined completely: the tail is the longest
      suffix without a separator, and the head is either the whole rest
      (when that rest is all slashes) or the rest without its trailing
      slashes. */
  lemma SplitParts(p: string)
    ensures var (h, t) := Split(p);
      |t| <= |p| && NoSep(t) && t == p[|p| - |t|..] &&
      (|t| < |p| ==> p[|p| - |t| - 1] == Sep) &&
      |h| <= |p| - |t| && h == p[..|h|] &&
      (forall k :: |h| <= k < |p| - |t| ==> p[k] == Sep) &&
      (AllSep(h) ==> |h| == |p| - |t|) &&
      (!AllSep(h) ==> h[|h| - 1] != Sep)
  {
  }

  predicate StartsWithSep(s: string) {
    |s| > 0 && s[0] == Sep
  }

  predicate EndsWith(s: string, suffix: string) {
    |suffix| <= |s| && s[|s| - |suffix|..] == suffix
  }

  /** One step of the loop in `posixpath.join`: a component that starts with
      '/' replaces the path; otherwise it is appended, with a '/' in between
      unless the path is empty or already ends in '/'. Either way the result
      ends with the component. */
  function JoinTwo(path: string, b: string): (r: string)
    ensures EndsWith(r, b)
    ensures StartsWithSep(b) ==> r == b
    ensures !StartsWithSep(b) ==>
      |path| + |b| <= |r| <= |path| + |b| + 1 && r[..|path|] == path &&
      AllSep(r[|path|..|r| - |b|]) &&
      (|r| == |path| + |b| + 1 <==> path != [] && path[|path| - 1] != Sep)
  {
    if |b| > 0 && b[0] == Sep then b
    else if path == [] || path[|path| - 1] == Sep then path + b
    else path + [Sep] + b
  }

  /** The loop of `join(a, *p)`: the components of `rest` are added to
      `first` from left to right. The result ends with the last component,
      and keeps `first` in front when no component restarts the path. */
  function JoinFold(first: string, rest: seq<string>): (r: string)
    ensures rest != [] ==> EndsWith(r, rest[|rest| - 1])
    ensures (forall i :: 0 <= i < |rest| ==> !StartsWithSep(rest[i])) ==>
      |first| <= |r| && r[..|first|] == first
    decreases |rest|
  {
    if rest == [] then first
    else
      var prev := JoinFold(first, rest[..|rest| - 1]);
      JoinTwo(prev, rest[|rest| - 1])
  }

  /** `os.path.join(*parts)`. */
  function Join(parts: seq<string>): (r: JoinResult)
    ensures r.NoArgumentError? <==> parts == []
    ensures |parts| == 1 ==> r == Joined(parts[0])
    ensures parts != [] ==> EndsWith(r.path, parts[|parts| - 1])
  {
    if parts == [] then NoArgumentError else Joined(JoinFold(parts[0], parts[1..]))
  }

  /** Adding one more component at the end of a join is one more step of
      the loop. */
  lemma JoinSnoc(parts: seq<string>, b: string)
    requires parts != []
    ensures Join(parts + [b]) == Joined(JoinTwo(Join(parts).path, b))
  {
    assert (parts + [b])[0] == parts[0];
    assert (parts + [b])[1..] == parts[1..] + [b];
    assert (parts[1..] + [b])[..|parts[1..] + [b]| - 1] == parts[1..];
  }

  /** `split` keeps the whole path as its head exactly when the path is
      made of slashes only (the root, or the empty path). */
  lemma SplitHeadFixpoint(p: string)
    ensures Split(p).0 == p <==> AllSep(p)
  {
  }

  /** `split` keeps the whole path as its tail exactly when the path has no
      separator (a single relative name, or the empty path). */
  lemma SplitTailFixpoint(p: string)
    ensures Split(p).1 == p <==> NoSep(p)
  {
  }

  /** Round trip: joining the two halves of `split` gives the path back,
      for every path without doubled separators. */
  lemma JoinSplit(p: string)
    requires NoDoubleSep(p)
    ensures JoinTwo(Split(p).0, Split(p).1) == p
  {
    SplitParts(p);
    var (h, t) := Split(p);
    JoinHalves(p, h, t);
  }

  /** The case analysis of JoinSplit, on the facts `split` guarantees. */
  lemma JoinHalves(p: string, h: string, t: string)
    requires NoDoubleSep(p)
    requires |t| <= |p| && NoSep(t) && t == p[|p| - |t|..]
    requires |t| < |p| ==> p[|p| - |t| - 1] == Sep
    requires |h| <= |p| - |t| && h == p[..|h|]
    requires forall k :: |h| <= k < |p| - |t| ==> p[k] == Sep
    requires AllSep(h) ==> |h| == |p| - |t|
    requires !AllSep(h) ==> h[|h| - 1] != Sep
    ensures JoinTwo(h, t) == p
  {
    var m := |p| - |t|;
    assert t == [] || t[0] != Sep;
    if AllSep(h) {
      assert h == p[..m];
      assert p == h + t;
      assert h == [] || h[|h| - 1] == Sep;
    } else {
      assert |h| > 0 && h[|h| - 1] != Sep;
      assert m != |h|;
      assert p[|h|] == Sep;
      assert |h| + 1 < |p| ==> p[|h| + 1] != Sep;
      assert p == h + [Sep] + t;
    }
  }
}
