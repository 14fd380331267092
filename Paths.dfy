/** The folder an archive's relative paths start from. Both
    UltraModeManager.GetCommonDirectory and ChunkCompressor.GetCommonDirectory
    take the longest case-insensitive common prefix of the full paths and cut
    it back to a directory separator; they differ in where that backward
    search starts and in the trimming of separators. The paths are taken as
    already full (Path.GetFullPath is not part of this model) and
    Path.GetPathRoot is a parameter. */
module Paths {
  import opened Common

  /** Path.GetPathRoot, left abstract. */
  type PathRoot = string -> string

  /** char.ToLowerInvariant(a) == char.ToLowerInvariant(b). */
  predicate SameChar(a: char, b: char)
  {
    LowerChar(a) == LowerChar(b)
  }

  /** Only a separator folds to a separator. */
  lemma SameAsSeparator(c: char)
    requires SameChar(DirectorySeparator, c)
    ensures c == DirectorySeparator
  {
  }

  /** a and b agree case-insensitively on positions lo up to hi. */
  predicate Agree(a: string, b: string, lo: nat, hi: nat)
  {
    hi <= |a| && hi <= |b| && forall k :: lo <= k < hi ==> SameChar(a[k], b[k])
  }

  lemma AgreeExtend(a: string, b: string, i: nat, n: nat)
    requires i < |a| && i < |b| && SameChar(a[i], b[i]) && Agree(a, b, i + 1, n) && i < n
    ensures Agree(a, b, i, n)
  {
  }

  lemma AgreeShorter(a: string, b: string, n: nat, m: nat)
    requires Agree(a, b, 0, m) && n <= m
    ensures Agree(a, b, 0, n)
  {
  }

  /** How far, from i, a and b agree case-insensitively, never past bound:
      the inner while loop of both versions. */
  function MatchFrom(a: string, b: string, bound: nat, i: nat): (n: nat)
    requires i <= bound && i <= |a| && i <= |b|
    ensures i <= n <= bound
    ensures Agree(a, b, i, n)
    ensures n < bound ==> n == |a| || n == |b| || !SameChar(a[n], b[n])
    decreases bound - i
  {
    if i < bound && i < |a| && i < |b| && SameChar(a[i], b[i]) then
      var n := MatchFrom(a, b, bound, i + 1);
      AgreeExtend(a, b, i, n);
      n
    else i
  }

  /** The inner while loop of both versions: the length of the
      case-insensitive common prefix of a and b, at most bound (the loop of
      ChunkCompressor also stops at the end of a; that of UltraModeManager
      never reaches it, as its bound is at most the length of a). */
  method MatchLength(a: string, b: string, bound: nat) returns (n: nat)
    ensures n == MatchFrom(a, b, bound, 0)
  {
    n := 0;
    while n < bound && n < |a| && n < |b| && SameChar(a[n], b[n])
      invariant n <= bound && n <= |a| && n <= |b|
      invariant MatchFrom(a, b, bound, n) == MatchFrom(a, b, bound, 0)
    {
      n := n + 1;
    }
  }

  /** first agrees with every path of ps up to n. */
  predicate AllAgree(first: string, ps: seq<string>, n: nat)
    decreases |ps|
  {
    |ps| == 0 || (Agree(first, ps[0], 0, n) && AllAgree(first, ps[1..], n))
  }

  lemma {:induction false} AllAgreeAt(first: string, ps: seq<string>, n: nat, j: nat)
    requires AllAgree(first, ps, n) && j < |ps|
    ensures Agree(first, ps[j], 0, n)
    decreases j
  {
    if j > 0 {
      AllAgreeAt(first, ps[1..], n, j - 1);
      assert ps[1..][j - 1] == ps[j];
    }
  }

  /** d names a folder above p: p starts with d, up to case, followed by a
      separator. */
  predicate IsAncestor(d: string, p: string)
  {
    |d| < |p| && (forall k :: 0 <= k < |d| ==> SameChar(d[k], p[k])) && p[|d|] == DirectorySeparator
  }

  /** String.LastIndexOf(c, start): the last position at or before start
      holding c, or -1. */
  function LastIndexAtOrBefore(s: string, c: char, start: int): (r: int)
    requires -1 <= start < |s|
    ensures -1 <= r <= start
    ensures r >= 0 ==> s[r] == c
    ensures forall k :: r < k <= start ==> s[k] != c
    decreases start + 1
  {
    if start < 0 then -1 else if s[start] == c then start else LastIndexAtOrBefore(s, c, start - 1)
  }

  // -------------------------------------------------- UltraModeManager

  /** The common prefix length after the loop over ps: each path shortens
      the bound to how far it agrees with first. */
  function Shared(first: string, ps: seq<string>, bound: nat): (n: nat)
    requires bound <= |first|
    ensures n <= bound
    decreases |ps|
  {
    if |ps| == 0 then bound
    else Shared(first, ps[1..], MatchFrom(first, ps[0], bound, 0))
  }

  /** first agrees with every path up to the shared length. */
  lemma {:induction false} SharedAgrees(first: string, ps: seq<string>, bound: nat)
    requires bound <= |first|
    ensures AllAgree(first, ps, Shared(first, ps, bound))
    decreases |ps|
  {
    if |ps| > 0 {
      var m := MatchFrom(first, ps[0], bound, 0);
      SharedAgrees(first, ps[1..], m);
      AgreeShorter(first, ps[0], Shared(first, ps, bound), m);
    }
  }

  /** UltraModeManager.GetCommonDirectory as written: null for no paths;
      otherwise the last separator at or before the common length, searched
      with String.LastIndexOf, which throws when the common length is the
      whole first path (a single path, or paths that all extend the first). */
  function UltraCommonDirectory(paths: seq<string>, root: PathRoot): (r: Result<Option<string>>)
    ensures r == Ok(None) <==> |paths| == 0
    ensures r.Err? <==> |paths| > 0 && |paths[0]| > 0 && Shared(paths[0], paths[1..], |paths[0]|) == |paths[0]|
    ensures r.Ok? && r.value.Some? && r.value.value != root(paths[0]) ==>
              var d := r.value.value;
              0 < |d| <= Shared(paths[0], paths[1..], |paths[0]|) && d == paths[0][..|d|] && paths[0][|d|] == DirectorySeparator
  {
    if |paths| == 0 then Ok(None)
    else
      var first := paths[0];
      var len := Shared(first, paths[1..], |first|);
      if |first| == 0 then Ok(Some(root(first)))
      else if len >= |first| then Err(StartIndexOutOfRange)
      else
        var sep := LastIndexAtOrBefore(first, DirectorySeparator, len);
        Ok(Some(if sep > 0 then first[..sep] else root(first)))
  }

  /** The loops of UltraModeManager.GetCommonDirectory. */
  method UltraGetCommonDirectory(paths: seq<string>, root: PathRoot) returns (r: Result<Option<string>>)
    ensures r == UltraCommonDirectory(paths, root)
  {
    if |paths| == 0 {
      return Ok(None);
    }
    var first := paths[0];
    var len: nat := |first|;
    for j := 1 to |paths|
      invariant len <= |first|
      invariant Shared(first, paths[j..], len) == Shared(first, paths[1..], |first|)
    {
      var i := MatchLength(first, paths[j], len);
      assert paths[j..][1..] == paths[j + 1..];
      len := i;
    }
    assert paths[|paths|..] == [];
    if |first| == 0 {
      return Ok(Some(root(first)));
    }
    if len >= |first| {
      return Err(StartIndexOutOfRange);
    }
    var sep := LastIndexAtOrBefore(first, DirectorySeparator, len);
    r := Ok(Some(if sep > 0 then first[..sep] else root(first)));
  }

  /** A single non-empty path makes the search start past its end, and
      String.LastIndexOf throws. */
  lemma UltraSinglePathThrows(p: string, root: PathRoot)
    requires |p| > 0
    ensures UltraCommonDirectory([p], root) == Err(StartIndexOutOfRange)
  {
    assert [p][1..] == [];
  }

  /** The search also looks at the position right after the common prefix:
      C:\ab\x.txt and C:\abc.txt share C:\ab, the separator after it is
      found, and C:\ab is not a folder above C:\abc.txt. */
  lemma UltraPicksNonAncestor(root: PathRoot)
    ensures var a, b := "C:\\ab\\x.txt", "C:\\abc.txt";
            UltraCommonDirectory([a, b], root) == Ok(Some("C:\\ab")) &&
            !IsAncestor("C:\\ab", b)
  {
    var a, b := "C:\\ab\\x.txt", "C:\\abc.txt";
    assert !SameChar(a[5], b[5]);
    assert MatchFrom(a, b, |a|, 5) == 5;
    assert MatchFrom(a, b, |a|, 4) == 5;
    assert MatchFrom(a, b, |a|, 3) == 5;
    assert MatchFrom(a, b, |a|, 2) == 5;
    assert MatchFrom(a, b, |a|, 1) == 5;
    assert MatchFrom(a, b, |a|, 0) == 5;
    assert [a, b][1..] == [b];
    assert Shared(a, [b][1..], 5) == 5;
    assert Shared(a, [b], |a|) == 5;
    assert LastIndexAtOrBefore(a, DirectorySeparator, 5) == 5;
    assert UltraCommonDirectory([a, b], root) == Ok(Some(a[..5]));
    assert a[..5] == "C:\\ab";
  }

  /** The search corrected to start before the common length, as
      ChunkCompressor does: it never throws. */
  function UltraCommonDirectoryCorrected(paths: seq<string>, root: PathRoot): (r: Option<string>)
    ensures r.None? <==> |paths| == 0
  {
    if |paths| == 0 then None
    else
      var first := paths[0];
      var len := Shared(first, paths[1..], |first|);
      var sep := LastIndexAtOrBefore(first, DirectorySeparator, len as int - 1);
      Some(if sep > 0 then first[..sep] else root(first))
  }

  /** The corrected search gives the root or a folder above every path. */
  lemma UltraCorrectedIsAncestor(paths: seq<string>, root: PathRoot)
    requires |paths| > 0
    ensures var d := UltraCommonDirectoryCorrected(paths, root).value;
            d == root(paths[0]) || forall j :: 0 <= j < |paths| ==> IsAncestor(d, paths[j])
  {
    var first := paths[0];
    var len := Shared(first, paths[1..], |first|);
    var sep := LastIndexAtOrBefore(first, DirectorySeparator, len as int - 1);
    if sep > 0 {
      SharedAgrees(first, paths[1..], |first|);
      var d := first[..sep];
      forall j | 0 <= j < |paths|
        ensures IsAncestor(d, paths[j])
      {
        if j > 0 {
          AllAgreeAt(first, paths[1..], len, j - 1);
          assert paths[1..][j - 1] == paths[j];
          SameAsSeparator(paths[j][sep]);
        }
      }
    }
  }

  // -------------------------------------------------- ChunkCompressor

  /** The length of s[..n] without its trailing run of c. */
  function KeptLength(s: string, c: char, n: nat): (m: nat)
    requires n <= |s|
    ensures m <= n
    ensures m > 0 ==> s[m - 1] != c
    ensures forall k :: m <= k < n ==> s[k] == c
  {
    if n > 0 && s[n - 1] == c then KeptLength(s, c, n - 1) else n
  }

  /** String.TrimEnd(c): s without its trailing run of c. */
  function TrimEnd(s: string, c: char): (t: string)
    ensures |t| <= |s| && t == s[..|t|]
    ensures |t| > 0 ==> t[|t| - 1] != c
    ensures forall k :: |t| <= k < |s| ==> s[k] == c
  {
    s[..KeptLength(s, c, |s|)]
  }

  /** Every path made full and stripped of trailing separators. */
  function Trimmed(paths: seq<string>): (full: seq<string>)
    ensures |full| == |paths|
    ensures forall i :: 0 <= i < |paths| ==> full[i] == TrimEnd(paths[i], DirectorySeparator)
  {
    if |paths| == 0 then [] else [TrimEnd(paths[0], DirectorySeparator)] + Trimmed(paths[1..])
  }

  /** The common prefix length after the loop over ps: the smallest of idx
      and how far each path agrees with first. */
  function Smallest(first: string, ps: seq<string>, idx: nat): (n: nat)
    requires idx <= |first|
    ensures n <= idx
    decreases |ps|
  {
    if |ps| == 0 then idx
    else
      var m := MatchFrom(first, ps[0], |first|, 0);
      Smallest(first, ps[1..], if m < idx then m else idx)
  }

  /** first agrees with every path up to the smallest length. */
  lemma {:induction false} SmallestAgrees(first: string, ps: seq<string>, idx: nat)
    requires idx <= |first|
    ensures AllAgree(first, ps, Smallest(first, ps, idx))
    decreases |ps|
  {
    if |ps| > 0 {
      var m := MatchFrom(first, ps[0], |first|, 0);
      SmallestAgrees(first, ps[1..], if m < idx then m else idx);
      AgreeShorter(first, ps[0], Smallest(first, ps, idx), m);
    }
  }

  /** The folder of first kept for a common prefix of length idx: the root
      when the prefix is empty or holds no separator; otherwise first up to
      its last separator inside the prefix, with trailing separators
      trimmed. */
  function PrefixFolder(first: string, idx: nat, root: PathRoot): (d: string)
    requires idx <= |first|
    ensures d == root(first) || (|d| < idx && d == first[..|d|] && first[|d|] == DirectorySeparator)
  {
    if idx == 0 then root(first)
    else
      var lastSep := LastIndexAtOrBefore(first, DirectorySeparator, idx - 1);
      if lastSep < 0 then root(first)
      else
        var d := TrimEnd(first[..lastSep + 1], DirectorySeparator);
        TrimmedEndsBefore(first[..lastSep + 1], DirectorySeparator);
        d
  }

  /** ChunkCompressor.GetCommonDirectory: null for no paths; otherwise the
      folder of the first trimmed path for the common prefix of all of
      them. */
  function BatchCommonDirectory(paths: seq<string>, root: PathRoot): (r: Option<string>)
    ensures r.None? <==> |paths| == 0
  {
    if |paths| == 0 then None
    else
      var full := Trimmed(paths);
      Some(PrefixFolder(full[0], Smallest(full[0], full[1..], |full[0]|), root))
  }

  /** One pass of the outer loop of ChunkCompressor.GetCommonDirectory. */
  lemma SmallestStep(first: string, full: seq<string>, i: nat, idx: nat, j: nat)
    requires i < |full| && idx <= |first| && j == MatchFrom(first, full[i], |first|, 0)
    ensures Smallest(first, full[i + 1..], if idx < j then idx else j) == Smallest(first, full[i..], idx)
  {
    assert full[i..][1..] == full[i + 1..];
  }

  /** The loops of ChunkCompressor.GetCommonDirectory. */
  method BatchGetCommonDirectory(paths: seq<string>, root: PathRoot) returns (r: Option<string>)
    ensures r == BatchCommonDirectory(paths, root)
  {
    if |paths| == 0 {
      return None;
    }
    var full := Trimmed(paths);
    var first := full[0];
    ghost var goal := Smallest(first, full[1..], |first|);
    var idx: nat := |first|;
    for i := 1 to |full|
      invariant idx <= |first|
      invariant Smallest(first, full[i..], idx) == goal
    {
      var j := MatchLength(first, full[i], |first|);
      SmallestStep(first, full, i, idx, j);
      idx := if idx < j then idx else j;
    }
    assert full[|full|..] == [];
    r := Some(PrefixFolder(first, idx, root));
  }

  /** The folder kept for a prefix that first shares with the others is
      the root or a folder above all of them. */
  lemma PrefixFolderIsAncestor(first: string, others: seq<string>, idx: nat, root: PathRoot)
    requires idx <= |first| && AllAgree(first, others, idx)
    ensures var d := PrefixFolder(first, idx, root);
            d == root(first) || (IsAncestor(d, first) && forall j :: 0 <= j < |others| ==> IsAncestor(d, others[j]))
  {
    var d := PrefixFolder(first, idx, root);
    if d != root(first) {
      forall j | 0 <= j < |others|
        ensures IsAncestor(d, others[j])
      {
        AllAgreeAt(first, others, idx, j);
        SameAsSeparator(others[j][|d|]);
      }
    }
  }

  /** The result is the root or a folder above every (trimmed) path. */
  lemma BatchIsAncestor(paths: seq<string>, root: PathRoot)
    requires |paths| > 0
    ensures var d := BatchCommonDirectory(paths, root).value;
            var full := Trimmed(paths);
            d == root(full[0]) || forall j :: 0 <= j < |paths| ==> IsAncestor(d, full[j])
  {
    var full := Trimmed(paths);
    var idx := Smallest(full[0], full[1..], |full[0]|);
    SmallestAgrees(full[0], full[1..], |full[0]|);
    PrefixFolderIsAncestor(full[0], full[1..], idx, root);
    var d := PrefixFolder(full[0], idx, root);
    if d != root(full[0]) {
      forall j | 1 <= j < |paths|
        ensures IsAncestor(d, full[j])
      {
        assert full[1..][j - 1] == full[j];
      }
    }
  }

  /** Trimming a string that ends in c removes at least that c. */
  lemma TrimmedEndsBefore(s: string, c: char)
    requires |s| > 0 && s[|s| - 1] == c
    ensures |TrimEnd(s, c)| < |s| && s[|TrimEnd(s, c)|] == c
  {
  }

  /** i is the position of the last separator of q. */
  predicate LastSeparator(q: string, i: int)
  {
    0 <= i < |q| && q[i] == DirectorySeparator && forall k :: i < k < |q| ==> q[k] != DirectorySeparator
  }

  /** q holds no separator. */
  predicate NoSeparator(q: string)
  {
    forall k :: 0 <= k < |q| ==> q[k] != DirectorySeparator
  }

  /** One path gives its parent folder: the part before its last separator,
      trimmed, or the root when it holds none. */
  lemma BatchSinglePathParent(p: string, root: PathRoot)
    ensures var q := TrimEnd(p, DirectorySeparator);
            var r := BatchCommonDirectory([p], root);
            (NoSeparator(q) ==> r == Some(root(q))) &&
            (forall i :: LastSeparator(q, i) ==> r == Some(TrimEnd(q[..i + 1], DirectorySeparator)))
  {
    var full := Trimmed([p]);
    assert full[1..] == [];
    var q := full[0];
    assert BatchCommonDirectory([p], root) == Some(PrefixFolder(q, |q|, root));
    if |q| > 0 {
      var lastSep := LastIndexAtOrBefore(q, DirectorySeparator, |q| - 1);
      forall i | LastSeparator(q, i)
        ensures lastSep == i
      {
      }
    }
  }
}
