/** Form1.GenerateUniqueFileName: the archive is written next to its input
    as name_suffix.ext, or name_suffix(1).ext, name_suffix(2).ext, ... when
    that file already exists. The file system is a finite set of existing
    paths; Path.GetDirectoryName and the current directory are parameters. */
module UniqueNames {
  import opened Common

  // ------------------------------------------------------------ file names

  /** Where the file name of path[..i] starts: just after its last
      separator, or 0. */
  function NameStart(path: string, i: nat): (start: nat)
    requires i <= |path|
    ensures start <= i
    ensures start > 0 ==> IsDirectorySeparator(path[start - 1])
    ensures forall k :: start <= k < i ==> !IsDirectorySeparator(path[k])
  {
    if i == 0 then 0
    else if IsDirectorySeparator(path[i - 1]) then i
    else NameStart(path, i - 1)
  }

  /** Path.GetFileName: the part of path after its last separator. */
  function FileName(path: string): (name: string)
    ensures |name| <= |path| && name == path[|path| - |name|..]
    ensures forall k :: 0 <= k < |name| ==> !IsDirectorySeparator(name[k])
    ensures |name| < |path| ==> IsDirectorySeparator(path[|path| - |name| - 1])
  {
    path[NameStart(path, |path|)..]
  }

  /** The position of the last '.' of s[..i], or -1. */
  function LastDot(s: string, i: nat): (r: int)
    requires i <= |s|
    ensures -1 <= r < i
    ensures r >= 0 ==> s[r] == '.'
    ensures forall k :: r < k < i ==> s[k] != '.'
  {
    if i == 0 then -1
    else if s[i - 1] == '.' then i - 1
    else LastDot(s, i - 1)
  }

  /** Path.GetFileNameWithoutExtension: the file name cut before its last
      '.', when it has one. */
  function NameWithoutExtension(path: string): (stem: string)
    ensures var name := FileName(path);
            stem <= name &&
            ((stem == name && forall k :: 0 <= k < |name| ==> name[k] != '.') ||
             (|stem| < |name| && name[|stem|] == '.' && forall k :: |stem| < k < |name| ==> name[k] != '.'))
  {
    var name := FileName(path);
    var dot := LastDot(name, |name|);
    if dot < 0 then name else name[..dot]
  }

  /** Path.Combine(dir, name) for a name that is not itself rooted: a
      separator is put between them unless dir is empty or already ends in
      one. */
  function Combine(dir: string, name: string): (path: string)
    ensures exists glue: string :: path == dir + glue + name && |glue| <= 1
  {
    if |dir| == 0 then
      assert name == dir + [] + name;
      name
    else if IsDirectorySeparator(dir[|dir| - 1]) then
      assert dir + name == dir + [] + name;
      dir + name
    else dir + [DirectorySeparator] + name
  }

  /** Combining with the same folder keeps different names apart. */
  lemma CombineInjective(dir: string, a: string, b: string)
    requires Combine(dir, a) == Combine(dir, b)
    ensures a == b
  {
    var pa, pb := Combine(dir, a), Combine(dir, b);
    var n := |pa| - |a|;
    assert a == pa[n..];
    assert b == pb[n..];
  }

  // ------------------------------------------------------------- counters

  /** The decimal digit of d < 10. */
  function Digit(d: nat): (c: char)
    requires d < 10
    ensures '0' <= c <= '9' && c as int - '0' as int == d
  {
    ('0' as int + d) as char
  }

  /** An int formatted in an interpolated string: its decimal digits, most
      significant first, with no leading zero. */
  function DecimalString(n: nat): (s: string)
    ensures |s| >= 1 && (|s| == 1 <==> n < 10)
    ensures s[|s| - 1] == Digit(n % 10)
  {
    if n < 10 then [Digit(n)] else DecimalString(n / 10) + [Digit(n % 10)]
  }

  /** Different numbers are written differently. */
  lemma {:induction false} DecimalStringInjective(a: nat, b: nat)
    requires DecimalString(a) == DecimalString(b)
    ensures a == b
    decreases a
  {
    var s := DecimalString(a);
    assert Digit(a % 10) == Digit(b % 10);
    if a >= 10 {
      assert DecimalString(a / 10) == s[..|s| - 1] == DecimalString(b / 10);
      DecimalStringInjective(a / 10, b / 10);
    }
  }

  /** The name tried after counter - 1 failures: name_suffix.ext first, then
      name_suffix(counter).ext. */
  function Candidate(stem: string, suffix: string, extension: string, counter: nat): (name: string)
    ensures counter == 0 ==> name == stem + "_" + suffix + extension
    ensures counter > 0 ==> name == stem + "_" + suffix + "(" + DecimalString(counter) + ")" + extension
  {
    if counter == 0 then stem + "_" + suffix + extension
    else stem + "_" + suffix + "(" + DecimalString(counter) + ")" + extension
  }

  /** Each counter gives its own name. */
  lemma CandidateInjective(stem: string, suffix: string, extension: string, a: nat, b: nat)
    requires Candidate(stem, suffix, extension, a) == Candidate(stem, suffix, extension, b)
    ensures a == b
  {
    var head := stem + "_" + suffix;
    var ca, cb := Candidate(stem, suffix, extension, a), Candidate(stem, suffix, extension, b);
    if a > 0 && b > 0 {
      var da, db := DecimalString(a), DecimalString(b);
      assert ca == head + "(" + da + ")" + extension;
      assert cb == head + "(" + db + ")" + extension;
      assert |da| == |db|;
      assert da == ca[|head| + 1..|head| + 1 + |da|];
      assert db == cb[|head| + 1..|head| + 1 + |db|];
      DecimalStringInjective(a, b);
    }
  }

  /** The full path tried for a counter. */
  function CandidatePath(dir: string, stem: string, suffix: string, extension: string, counter: nat): string
  {
    Combine(dir, Candidate(stem, suffix, extension, counter))
  }

  lemma CandidatePathInjective(dir: string, stem: string, suffix: string, extension: string, a: nat, b: nat)
    requires CandidatePath(dir, stem, suffix, extension, a) == CandidatePath(dir, stem, suffix, extension, b)
    ensures a == b
  {
    CombineInjective(dir, Candidate(stem, suffix, extension, a), Candidate(stem, suffix, extension, b));
    CandidateInjective(stem, suffix, extension, a, b);
  }

  /** counter is the first one whose path is free. */
  predicate FirstFree(existing: set<string>, dir: string, stem: string, suffix: string, extension: string, counter: nat)
  {
    CandidatePath(dir, stem, suffix, extension, counter) !in existing &&
    forall j: nat :: j < counter ==> CandidatePath(dir, stem, suffix, extension, j) in existing
  }

  // ------------------------------------------------------------ the search

  /** The paths of the first n counters. */
  ghost function Tried(dir: string, stem: string, suffix: string, extension: string, n: nat): set<string>
  {
    if n == 0 then {} else Tried(dir, stem, suffix, extension, n - 1) + {CandidatePath(dir, stem, suffix, extension, n - 1)}
  }

  /** n counters give n different paths. */
  lemma {:induction false} TriedSize(dir: string, stem: string, suffix: string, extension: string, n: nat)
    ensures |Tried(dir, stem, suffix, extension, n)| == n
  {
    if n > 0 {
      TriedSize(dir, stem, suffix, extension, n - 1);
      NotYetTried(dir, stem, suffix, extension, n - 1, n - 1);
    }
  }

  lemma {:induction false} NotYetTried(dir: string, stem: string, suffix: string, extension: string, n: nat, k: nat)
    requires n <= k
    ensures CandidatePath(dir, stem, suffix, extension, k) !in Tried(dir, stem, suffix, extension, n)
    decreases n
  {
    if n > 0 {
      NotYetTried(dir, stem, suffix, extension, n - 1, k);
      if CandidatePath(dir, stem, suffix, extension, k) == CandidatePath(dir, stem, suffix, extension, n - 1) {
        CandidatePathInjective(dir, stem, suffix, extension, k, n - 1);
      }
    }
  }

  lemma {:induction false} TriedExist(existing: set<string>, dir: string, stem: string, suffix: string, extension: string, n: nat)
    requires forall j: nat :: j < n ==> CandidatePath(dir, stem, suffix, extension, j) in existing
    ensures Tried(dir, stem, suffix, extension, n) <= existing
    decreases n
  {
    if n > 0 {
      TriedExist(existing, dir, stem, suffix, extension, n - 1);
    }
  }

  /** Form1.GenerateUniqueFileName. directoryName is
      Path.GetDirectoryName(basePath), None when it is null, and then the
      current directory cwd is used. The result is the path of the first
      free counter, so it names no existing file. */
  method GenerateUniqueFileName(existing: set<string>, directoryName: Option<string>, cwd: string,
                                baseName: string, suffix: string, extension: string) returns (fullPath: string)
    ensures fullPath !in existing
    ensures var dir := if directoryName.Some? then directoryName.value else cwd;
            exists counter: nat :: FirstFree(existing, dir, NameWithoutExtension(baseName), suffix, extension, counter) &&
                                  fullPath == CandidatePath(dir, NameWithoutExtension(baseName), suffix, extension, counter)
  {
    var dir := if directoryName.Some? then directoryName.value else cwd;
    var nameWithoutExt := NameWithoutExtension(baseName);
    var candidateName := nameWithoutExt + "_" + suffix + extension;
    fullPath := Combine(dir, candidateName);
    var counter: nat := 1;
    while fullPath in existing
      invariant counter >= 1
      invariant fullPath == CandidatePath(dir, nameWithoutExt, suffix, extension, counter - 1)
      invariant forall j: nat :: j < counter - 1 ==> CandidatePath(dir, nameWithoutExt, suffix, extension, j) in existing
      decreases |existing| - (counter - 1)
    {
      TriedExist(existing, dir, nameWithoutExt, suffix, extension, counter);
      TriedSize(dir, nameWithoutExt, suffix, extension, counter);
      SubsetCard(Tried(dir, nameWithoutExt, suffix, extension, counter), existing);
      candidateName := nameWithoutExt + "_" + suffix + "(" + DecimalString(counter) + ")" + extension;
      fullPath := Combine(dir, candidateName);
      counter := counter + 1;
    }
    assert FirstFree(existing, dir, nameWithoutExt, suffix, extension, counter - 1);
  }
}
