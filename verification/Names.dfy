/** First-free naming: AvailableName in internal/files/service.go and uniqueArchiveName with the zip
    entry names of internal/server/bulk.go. */
module Names {
  import opened Strings
  import opened LogicalPaths

  const MAX_SUFFIXES := 10_000

  /** path.Ext: from the last dot of the name, "" without one. */
  function Ext(name: string): string {
    if name == "" then ""
    else if name[|name|-1] == '.' then "."
    else
      var e := Ext(name[..|name|-1]);
      if e == "" then "" else e + [name[|name|-1]]
  }

  lemma {:induction false} ExtIsSuffix(name: string)
    ensures |Ext(name)| <= |name| && name[|name|-|Ext(name)|..] == Ext(name)
  {
    if name != "" && name[|name|-1] != '.' {
      ExtIsSuffix(name[..|name|-1]);
    }
  }

  /** The extension is the last dot with what follows it, and empty exactly when there is no dot. */
  lemma {:induction false} ExtIff(name: string)
    ensures Ext(name) == "" <==> '.' !in name
    ensures Ext(name) != "" ==> Ext(name)[0] == '.' && '.' !in Ext(name)[1..]
  {
    if name != "" && name[|name|-1] != '.' {
      var front := name[..|name|-1];
      ExtIff(front);
      assert name == front + [name[|name|-1]];
      if Ext(front) != "" { assert Ext(name)[1..] == Ext(front)[1..] + [name[|name|-1]]; }
    }
  }

  /** The suffix number of a candidate: at least two digits, in decimal. */
  lemma TwoDigitIs(n: nat)
    ensures |TwoDigit(n)| >= 2 && Value(TwoDigit(n)) == n && (n < 100 ==> |TwoDigit(n)| == 2)
    ensures forall c :: c in TwoDigit(n) ==> IsDigit(c)
  {
    ValueOfItoa(n);
    if n < 10 {
      var s := TwoDigit(n);
      assert s[..1] == "0" && "0"[..0] == "";
      assert Value("0") == 0;
    } else {
      assert n / 10 >= 1;
      ValueOfItoa(n / 10);
      if n < 100 { assert Itoa(n / 10) == [Digit(n / 10)]; }
    }
  }

  /** strings.TrimSuffix(name, Ext(name)). */
  function Stem(name: string): string {
    ExtIsSuffix(name);
    name[..|name|-|Ext(name)|]
  }

  /** twoDigit, and the %02d verb: at least two digits. */
  function TwoDigit(n: nat): string {
    if n < 10 then "0" + [Digit(n)] else Itoa(n)
  }

  lemma TwoDigitDistinct(a: nat, b: nat)
    requires 0 < a < b
    ensures TwoDigit(a) != TwoDigit(b)
  {
    if a >= 10 {
      ValueOfItoa(a);
      ValueOfItoa(b);
    } else if b < 10 {
      assert TwoDigit(a)[1] == Digit(a) && TwoDigit(b)[1] == Digit(b);
    } else {
      ItoaFirstDigit(b);
      assert TwoDigit(a)[0] == '0';
    }
  }

  /** The i-th candidate: the name itself, then stem_01.ext, stem_02.ext, ... */
  function Candidate(name: string, i: nat): string {
    if i == 0 then name else Stem(name) + "_" + TwoDigit(i) + Ext(name)
  }

  lemma MiddleDiffers(front: string, x: string, y: string, back: string)
    requires x != y
    ensures front + x + back != front + y + back
  {
    if |x| == |y| {
      assert (front + x + back)[|front|..|front|+|x|] == x;
      assert (front + y + back)[|front|..|front|+|y|] == y;
    } else {
      assert |front + x + back| != |front + y + back|;
    }
  }

  /** What the i-th candidate puts between stem and extension. */
  function Middle(i: nat): string { if i == 0 then "" else "_" + TwoDigit(i) }

  lemma MiddleDistinct(i: nat, j: nat)
    requires i < j
    ensures Middle(i) != Middle(j)
  {
    if i > 0 {
      TwoDigitDistinct(i, j);
      assert Middle(i)[1..] == TwoDigit(i) && Middle(j)[1..] == TwoDigit(j);
    }
  }

  lemma CandidateShape(name: string, i: nat)
    ensures Candidate(name, i) == Stem(name) + Middle(i) + Ext(name)
  {
    ExtIsSuffix(name);
    var stem, ext := Stem(name), Ext(name);
    assert name == stem + ext;
    assert stem + "" == stem;
    if i > 0 { assert stem + "_" + TwoDigit(i) == stem + ("_" + TwoDigit(i)); }
  }

  /** No candidate repeats. */
  lemma CandidateDistinct(name: string, i: nat, j: nat)
    requires i < j
    ensures Candidate(name, i) != Candidate(name, j)
  {
    CandidateShape(name, i);
    CandidateShape(name, j);
    MiddleDistinct(i, j);
    MiddleDiffers(Stem(name), Middle(i), Middle(j), Ext(name));
  }

  lemma {:induction false} ExtOf(stem: string, ext: string)
    requires '.' !in ext
    ensures Ext(stem + "." + ext) == "." + ext
  {
    var name := stem + "." + ext;
    if ext != "" {
      ExtOf(stem, ext[..|ext|-1]);
      assert name[..|name|-1] == stem + "." + ext[..|ext|-1];
      assert name[|name|-1] == ext[|ext|-1] && ext[|ext|-1] in ext;
      assert ext == ext[..|ext|-1] + [ext[|ext|-1]];
    }
  }

  /** Candidates in terms of the name: "a.txt" gives "a_01.txt", and a name without a dot gets the
      number at its end. */
  lemma CandidateOf(stem: string, ext: string, i: nat)
    requires i > 0 && '.' !in ext
    ensures Candidate(stem + "." + ext, i) == stem + "_" + TwoDigit(i) + "." + ext
    ensures '.' !in stem ==> Candidate(stem, i) == stem + "_" + TwoDigit(i)
  {
    var name := stem + "." + ext;
    ExtOf(stem, ext);
    assert name[..|name|-|Ext(name)|] == stem;
    assert stem + "_" + TwoDigit(i) + ("." + ext) == stem + "_" + TwoDigit(i) + "." + ext;
    ExtIff(stem);
    assert stem[..|stem|] == stem;
    assert stem + "_" + TwoDigit(i) + "" == stem + "_" + TwoDigit(i);
  }

  /** Suffixing keeps a name valid. */
  lemma CandidateValid(name: string, i: nat)
    requires ValidBaseName(name)
    ensures ValidBaseName(Candidate(name, i))
  {
    if i > 0 {
      ExtIsSuffix(name);
      var c := Candidate(name, i);
      var stem, ext := Stem(name), Ext(name);
      assert name == stem + ext;
      assert forall ch :: ch in c ==> ch in name || ch == '_' || IsDigit(ch);
      assert c[|stem|] == '_';
    }
  }

  /** AvailableName over the names already in the folder. */
  method AvailableName(taken: set<string>, filename: string) returns (r: Option<string>)
    ensures r.None? <==> !ValidBaseName(filename) ||
                         forall i :: 0 <= i < MAX_SUFFIXES ==> Candidate(filename, i) in taken
    ensures r.Some? ==> r.value !in taken && ValidBaseName(r.value)
    ensures r.Some? ==> exists i: nat :: i < MAX_SUFFIXES && r.value == Candidate(filename, i) &&
                                         forall j: nat :: j < i ==> Candidate(filename, j) in taken
  {
    if !ValidBaseName(filename) {
      return None;
    }
    for i := 0 to MAX_SUFFIXES
      invariant forall j :: 0 <= j < i ==> Candidate(filename, j) in taken
    {
      var name := Candidate(filename, i);
      if name !in taken {
        CandidateValid(filename, i);
        return Some(name);
      }
    }
    return None;
  }

  // ---------------------------------------------------------------- zip archives

  /** The first n suffixed candidates. */
  function Suffixed(name: string, n: nat): set<string> {
    if n == 0 then {} else Suffixed(name, n - 1) + {Candidate(name, n)}
  }

  lemma {:induction false} NotAmongFirst(name: string, n: nat, m: nat)
    requires n < m
    ensures Candidate(name, m) !in Suffixed(name, n)
  {
    if n > 0 {
      NotAmongFirst(name, n - 1, m);
      CandidateDistinct(name, n, m);
    }
  }

  lemma {:induction false} SuffixedSize(name: string, n: nat)
    ensures |Suffixed(name, n)| == n
  {
    if n > 0 {
      SuffixedSize(name, n - 1);
      NotAmongFirst(name, n - 1, n);
    }
  }

  lemma {:induction false} SuffixedWithin(name: string, used: set<string>, n: nat)
    requires forall i :: 1 <= i <= n ==> Candidate(name, i) in used
    ensures Suffixed(name, n) <= used
  {
    if n > 0 {
      SuffixedWithin(name, used, n - 1);
    }
  }

  lemma {:induction false} SubsetSize<T>(a: set<T>, b: set<T>)
    requires a <= b
    ensures |a| <= |b|
  {
    if a != {} {
      var x :| x in a;
      SubsetSize(a - {x}, b - {x});
    }
  }

  /** Pigeonhole: among n+1 suffixes one is not in a used set of size n. */
  lemma SomeSuffixFree(name: string, used: set<string>, n: nat)
    requires forall i :: 1 <= i <= n ==> Candidate(name, i) in used
    ensures n <= |used|
  {
    SuffixedWithin(name, used, n);
    SuffixedSize(name, n);
    SubsetSize(Suffixed(name, n), used);
  }

  /** uniqueArchiveName: the search has no bound of its own and still ends for every finite set. */
  method UniqueArchiveName(name: string, used: set<string>) returns (r: string, used': set<string>)
    ensures r !in used && used' == used + {r}
    ensures exists i: nat :: r == Candidate(name, i) && forall j: nat :: j < i ==> Candidate(name, j) in used
  {
    if name !in used {
      assert Candidate(name, 0) == name;
      return name, used + {name};
    }
    var i: nat := 1;
    while true
      invariant i >= 1
      invariant forall j: nat :: j < i ==> Candidate(name, j) in used
      decreases |used| + 1 - i
    {
      SomeSuffixFree(name, used, i - 1);
      var candidate := Candidate(name, i);
      if candidate !in used {
        return candidate, used + {candidate};
      }
      i := i + 1;
    }
  }

  ghost predicate IsCandidate(base: string, name: string) {
    exists k: nat :: name == Candidate(base, k)
  }

  /** The top-level names bulkDownload gives its sources, in order. */
  method ArchiveNames(bases: seq<string>) returns (names: seq<string>)
    ensures |names| == |bases|
    ensures forall i, j :: 0 <= i < j < |names| ==> names[i] != names[j]
    ensures forall i :: 0 <= i < |names| ==> IsCandidate(bases[i], names[i])
    ensures forall i :: 0 <= i < |names| && ValidBaseName(bases[i]) ==> ValidBaseName(names[i])
  {
    names := [];
    var used: set<string> := {};
    for n := 0 to |bases|
      invariant |names| == n
      invariant forall x :: x in used <==> x in names
      invariant forall i, j :: 0 <= i < j < |names| ==> names[i] != names[j]
      invariant forall i :: 0 <= i < |names| ==> IsCandidate(bases[i], names[i])
    {
      var name;
      name, used := UniqueArchiveName(bases[n], used);
      names := names + [name];
    }
    forall i | 0 <= i < |names| && ValidBaseName(bases[i]) ensures ValidBaseName(names[i]) {
      assert IsCandidate(bases[i], names[i]);
      var k: nat :| names[i] == Candidate(bases[i], k);
      CandidateValid(bases[i], k);
    }
  }

  /** The name of a zip entry: source name, relative path below it, trailing slash for folders. */
  function EntryName(top: string, rel: Comps, isDir: bool): string {
    Join([top] + rel, '/') + if isDir then "/" else ""
  }

  /** Between its slashes an entry name holds the source name and the path below it, and nothing more but
      the empty piece after a folder's slash. */
  lemma EntryNameSplits(top: string, rel: Comps, isDir: bool)
    requires Plain(top) && AllPlain(rel)
    ensures Split(EntryName(top, rel, isDir), '/') == [top] + rel + (if isDir then [""] else [])
  {
    var cs := [top] + rel;
    assert AllPlain(cs);
    SplitJoined(cs);
    if isDir {
      SplitConcat(Join(cs, '/'), "", '/');
      assert Join(cs, '/') + ['/'] + "" == EntryName(top, rel, true);
    } else {
      assert EntryName(top, rel, false) == Join(cs, '/') && cs + [] == cs;
    }
  }

  /** Entry names determine source, relative path and kind: no two entries of one archive collide. */
  lemma EntryNamesDistinct(top1: string, rel1: Comps, dir1: bool, top2: string, rel2: Comps, dir2: bool)
    requires Plain(top1) && Plain(top2) && AllPlain(rel1) && AllPlain(rel2)
    requires EntryName(top1, rel1, dir1) == EntryName(top2, rel2, dir2)
    ensures top1 == top2 && rel1 == rel2 && dir1 == dir2
  {
    var a, b := [top1] + rel1, [top2] + rel2;
    RenderEndsPlain(a);
    RenderEndsPlain(b);
    var ja, jb := Join(a, '/'), Join(b, '/');
    JoinNonEmpty(a);
    JoinNonEmpty(b);
    assert Render(a)[|Render(a)|-1] == ja[|ja|-1];
    assert Render(b)[|Render(b)|-1] == jb[|jb|-1];
    var ea, eb := EntryName(top1, rel1, dir1), EntryName(top2, rel2, dir2);
    assert dir1 <==> ea[|ea|-1] == '/';
    assert dir2 <==> eb[|eb|-1] == '/';
    assert ja == ea[..|ja|] && jb == eb[..|jb|];
    JoinInjective(a, b, '/');
    assert a[0] == top1 && b[0] == top2 && a[1..] == rel1 && b[1..] == rel2;
  }

  /** All entries of one bulk download are named apart: sources get distinct top names and the paths
      below one source are distinct. */
  lemma ArchiveHasNoCollision(names: seq<string>, i: nat, j: nat, rel1: Comps, dir1: bool, rel2: Comps, dir2: bool)
    requires i < |names| && j < |names| && Plain(names[i]) && Plain(names[j])
    requires forall a, b :: 0 <= a < b < |names| ==> names[a] != names[b]
    requires AllPlain(rel1) && AllPlain(rel2)
    requires (i, rel1, dir1) != (j, rel2, dir2)
    ensures EntryName(names[i], rel1, dir1) != EntryName(names[j], rel2, dir2)
  {
    if EntryName(names[i], rel1, dir1) == EntryName(names[j], rel2, dir2) {
      EntryNamesDistinct(names[i], rel1, dir1, names[j], rel2, dir2);
    }
  }
}
