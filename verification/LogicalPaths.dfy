/** Logical paths: internal/files/paths.go and the lexical parts of Go's path packages it leans on.
    A clean rooted path is tied to the sequence of its components by Render and Parts. */
module LogicalPaths {
  import opened Strings

  type Comps = seq<string>

  /** A path element that path.Clean leaves alone. */
  predicate Plain(c: string) {
    c != "" && c != "." && c != ".." && '/' !in c
  }

  predicate AllPlain(cs: Comps) {
    forall i :: 0 <= i < |cs| ==> Plain(cs[i])
  }

  /** The clean rooted path with these components. */
  function Render(cs: Comps): string { "/" + Join(cs, '/') }

  /** The components of a clean rooted path. */
  function Parts(s: string): Comps {
    if |s| <= 1 then [] else Split(s[1..], '/')
  }

  predicate IsPrefix(a: Comps, b: Comps) { |a| <= |b| && b[..|a|] == a }

  lemma {:induction false} JoinNonEmpty(cs: Comps)
    requires AllPlain(cs) && cs != []
    ensures Join(cs, '/') != "" && Join(cs, '/')[0] == cs[0][0]
  {}

  lemma PartsRender(cs: Comps)
    requires AllPlain(cs)
    ensures Parts(Render(cs)) == cs
  {
    if cs != [] {
      JoinNonEmpty(cs);
      SplitJoin(cs, '/');
      assert Render(cs)[1..] == Join(cs, '/');
    }
  }

  lemma RenderInjective(a: Comps, b: Comps)
    requires AllPlain(a) && AllPlain(b) && Render(a) == Render(b)
    ensures a == b
  {
    PartsRender(a);
    PartsRender(b);
  }

  // ---------------------------------------------------------------- path.Clean, path.Base, path.Dir

  /** One left-to-right pass over the elements: "" and "." vanish, ".." pops. */
  function Resolve(parts: seq<string>, acc: Comps, rooted: bool): Comps
    decreases |parts|
  {
    if parts == [] then acc
    else
      var p := parts[0];
      if p == "" || p == "." then Resolve(parts[1..], acc, rooted)
      else if p == ".." then
        if acc != [] && acc[|acc|-1] != ".." then Resolve(parts[1..], acc[..|acc|-1], rooted)
        else if rooted then Resolve(parts[1..], acc, rooted)
        else Resolve(parts[1..], acc + [".."], rooted)
      else Resolve(parts[1..], acc + [p], rooted)
  }

  /** path.Clean (and filepath.Clean on Unix). */
  function Clean(s: string): string {
    if s == "" then "."
    else
      var rooted := s[0] == '/';
      var cs := Resolve(Split(s, '/'), [], rooted);
      if rooted then Render(cs) else if cs == [] then "." else Join(cs, '/')
  }

  // ---------------------------------------------------------------- what cleaning means

  /** Read from the end: the elements that stay, and how many ".." are still to be answered. "" and "."
      count for nothing, and each ".." takes the nearest name before it. */
  function Kept(parts: seq<string>): (Comps, nat) {
    if parts == [] then ([], 0)
    else
      var (later, ups) := Kept(parts[1..]);
      if parts[0] == "" || parts[0] == "." then (later, ups)
      else if parts[0] == ".." then (later, ups + 1)
      else if ups > 0 then (later, ups - 1)
      else ([parts[0]] + later, 0)
  }

  predicate NoDots(cs: Comps) { forall i :: 0 <= i < |cs| ==> cs[i] != ".." }

  function Ups(n: nat): Comps { seq(n, i => "..") }

  /** The pass from the front against the reading from the end. */
  lemma {:induction false} ResolveIsKept(parts: seq<string>, acc: Comps)
    requires NoDots(acc)
    ensures var (kept, ups) := Kept(parts);
            Resolve(parts, acc, true) == (if ups <= |acc| then acc[..|acc|-ups] else []) + kept
    decreases |parts|
  {
    if parts == [] {
      assert acc[..|acc|] == acc;
    } else if parts[0] == "" || parts[0] == "." {
      ResolveIsKept(parts[1..], acc);
    } else if parts[0] == ".." {
      ResolveIsKept(parts[1..], if acc == [] then acc else acc[..|acc|-1]);
    } else {
      ResolveIsKept(parts[1..], acc + [parts[0]]);
      KeepOne(acc, parts[0], Kept(parts[1..]).0, Kept(parts[1..]).1);
    }
  }

  lemma KeepOne(acc: Comps, p: string, later: Comps, ups: nat)
    ensures var more := acc + [p];
            (if ups <= |more| then more[..|more|-ups] else []) + later ==
            if ups == 0 then acc[..|acc|] + ([p] + later)
            else (if ups - 1 <= |acc| then acc[..|acc|-(ups-1)] else []) + later
  {
    var more := acc + [p];
    if ups == 0 { assert more[..|more|] == acc + [p]; }
    if 0 < ups <= |more| { assert more[..|more|-ups] == acc[..|acc|-(ups-1)]; }
  }

  lemma UpsPush(dots: nat)
    ensures Ups(dots) + [".."] == Ups(dots + 1)
  {}

  lemma PopName(dots: nat, acc: Comps)
    requires NoDots(acc) && acc != []
    ensures var all := Ups(dots) + acc;
            all != [] && all[|all|-1] != ".." && all[..|all|-1] == Ups(dots) + acc[..|acc|-1]
  {}

  lemma NoNameToPop(dots: nat)
    ensures var all := Ups(dots); !(all != [] && all[|all|-1] != "..")
  {}

  /** What an unrooted pass makes of the dots and names so far, and of what is still to come. */
  function AfterPass(dots: nat, acc: Comps, kept: Comps, ups: nat): Comps {
    if ups <= |acc| then Ups(dots) + (acc[..|acc|-ups] + kept) else Ups(dots + ups - |acc|) + kept
  }

  lemma AfterName(dots: nat, acc: Comps, p: string, later: Comps, ups: nat)
    ensures AfterPass(dots, acc + [p], later, ups) ==
            if ups > 0 then AfterPass(dots, acc, later, ups - 1) else AfterPass(dots, acc, [p] + later, 0)
  {
    var more := acc + [p];
    if ups == 0 {
      assert more[..|more|] + later == acc[..|acc|] + ([p] + later);
    } else if ups <= |more| {
      assert more[..|more|-ups] == acc[..|acc|-(ups-1)];
    }
  }

  lemma AfterUp(dots: nat, acc: Comps, later: Comps, ups: nat)
    ensures acc != [] ==> AfterPass(dots, acc[..|acc|-1], later, ups) == AfterPass(dots, acc, later, ups + 1)
    ensures acc == [] ==> AfterPass(dots + 1, [], later, ups) == AfterPass(dots, [], later, ups + 1)
  {
    if acc != [] {
      var less := acc[..|acc|-1];
      if ups <= |less| { assert less[..|less|-ups] == acc[..|acc|-(ups+1)]; }
    } else if ups == 0 {
      assert acc[..0] + later == later;
    }
  }

  /** Unrooted, the unanswered ".." stay in front. */
  lemma {:induction false} ResolveUnrooted(parts: seq<string>, dots: nat, acc: Comps)
    requires NoDots(acc)
    ensures Resolve(parts, Ups(dots) + acc, false) == AfterPass(dots, acc, Kept(parts).0, Kept(parts).1)
    decreases |parts|
  {
    if parts == [] {
      assert acc[..|acc|] + [] == acc;
    } else {
      var p, rest := parts[0], parts[1..];
      var (later, ups) := Kept(rest);
      if p == "" || p == "." {
        ResolveUnrooted(rest, dots, acc);
      } else if p == ".." {
        AfterUp(dots, acc, later, ups);
        if acc != [] {
          PopName(dots, acc);
          ResolveUnrooted(rest, dots, acc[..|acc|-1]);
        } else {
          NoNameToPop(dots);
          UpsPush(dots);
          assert Ups(dots) + acc == Ups(dots) && Ups(dots + 1) + [] == Ups(dots + 1);
          ResolveUnrooted(rest, dots + 1, []);
        }
      } else {
        AfterName(dots, acc, p, later, ups);
        assert (Ups(dots) + acc) + [p] == Ups(dots) + (acc + [p]);
        ResolveUnrooted(rest, dots, acc + [p]);
      }
    }
  }

  /** path.Clean of a rooted path: what stays of its elements. */
  lemma CleanRooted(s: string)
    requires s != "" && s[0] == '/'
    ensures Clean(s) == Render(Kept(Split(s, '/')).0)
  {
    ResolveIsKept(Split(s, '/'), []);
    assert [] + Kept(Split(s, '/')).0 == Kept(Split(s, '/')).0;
  }

  /** path.Clean of another path: the same after the unanswered "..", and "." for nothing. */
  lemma CleanUnrooted(s: string)
    requires s == "" || s[0] != '/'
    ensures var (kept, ups) := Kept(Split(s, '/'));
            Clean(s) == if Ups(ups) + kept == [] then "." else Join(Ups(ups) + kept, '/')
  {
    var (kept, ups) := Kept(Split(s, '/'));
    if s != "" {
      ResolveUnrooted(Split(s, '/'), 0, []);
      assert Ups(0) + [] == [];
      assert AfterPass(0, [], kept, ups) == Ups(ups) + kept by {
        var none: Comps := [];
        if ups == 0 { assert none[..0] + kept == kept; }
      }
    } else {
      assert [""][1..] == [];
    }
  }

  /** The elements other than "". */
  function NonEmpty(parts: seq<string>): seq<string> {
    if parts == [] then []
    else (if parts[0] == "" then [] else [parts[0]]) + NonEmpty(parts[1..])
  }

  lemma {:induction false} NonEmptyConcat(a: seq<string>, b: seq<string>)
    ensures NonEmpty(a + b) == NonEmpty(a) + NonEmpty(b)
  {
    if a == [] {
      assert a + b == b;
    } else {
      assert (a + b)[1..] == a[1..] + b;
      NonEmptyConcat(a[1..], b);
    }
  }

  lemma {:induction false} NonEmptyPlain(cs: Comps)
    requires AllPlain(cs)
    ensures NonEmpty(cs) == cs
  {
    if cs != [] {
      NonEmptyPlain(cs[1..]);
    }
  }

  predicate PlainOrEmpty(parts: seq<string>) {
    forall i :: 0 <= i < |parts| ==> parts[i] == "" || Plain(parts[i])
  }

  /** On plain and empty elements a rooted pass only drops the empty ones. */
  lemma {:induction false} ResolvePlain(parts: seq<string>, acc: Comps)
    requires PlainOrEmpty(parts)
    ensures Resolve(parts, acc, true) == acc + NonEmpty(parts)
    decreases |parts|
  {
    if parts == [] {
      assert acc + [] == acc;
    } else {
      ResolvePlain(parts[1..], if parts[0] == "" then acc else acc + [parts[0]]);
    }
  }

  /** What a rooted pass yields is made of plain elements, taken from the input. */
  lemma {:induction false} ResolveRooted(parts: seq<string>, acc: Comps)
    requires forall i :: 0 <= i < |parts| ==> '/' !in parts[i]
    requires AllPlain(acc)
    ensures AllPlain(Resolve(parts, acc, true))
    ensures forall c :: c in Resolve(parts, acc, true) ==> c in acc || c in parts
    decreases |parts|
  {
    if parts != [] {
      var p := parts[0];
      if p == "" || p == "." {
        ResolveRooted(parts[1..], acc);
      } else if p == ".." {
        ResolveRooted(parts[1..], if acc != [] && acc[|acc|-1] != ".." then acc[..|acc|-1] else acc);
      } else {
        ResolveRooted(parts[1..], acc + [p]);
      }
    }
  }

  lemma SplitJoined(cs: Comps)
    requires AllPlain(cs)
    ensures Split(Join(cs, '/'), '/') == if cs == [] then [""] else cs
    ensures Split(Render(cs), '/') == [""] + (if cs == [] then [""] else cs)
  {
    assert Render(cs) == "" + ['/'] + Join(cs, '/');
    SplitConcat("", Join(cs, '/'), '/');
    if cs != [] {
      SplitJoin(cs, '/');
    }
  }

  /** Cleaning a rooted string without dots keeps its non-empty elements. */
  lemma CleanOfSplit(s: string)
    requires s != "" && s[0] == '/'
    requires PlainOrEmpty(Split(s, '/'))
    ensures Clean(s) == Render(NonEmpty(Split(s, '/')))
  {
    ResolvePlain(Split(s, '/'), []);
    assert [] + NonEmpty(Split(s, '/')) == NonEmpty(Split(s, '/'));
  }

  lemma NonEmptyJoined(cs: Comps)
    requires AllPlain(cs)
    ensures NonEmpty(Split(Join(cs, '/'), '/')) == cs
    ensures NonEmpty(Split(Render(cs), '/')) == cs
  {
    SplitJoined(cs);
    NonEmptyPlain(cs);
    NonEmptyConcat([""], if cs == [] then [""] else cs);
  }

  /** Clean rooted paths are fixed points of path.Clean. */
  lemma CleanFixed(cs: Comps)
    requires AllPlain(cs)
    ensures Clean(Render(cs)) == Render(cs)
  {
    SplitJoined(cs);
    NonEmptyJoined(cs);
    CleanOfSplit(Render(cs));
  }

  lemma PartsOfFolder(a: Comps)
    requires AllPlain(a)
    ensures PlainOrEmpty(Split(Render(a), '/')) && PlainOrEmpty(Split(Join(a, '/'), '/'))
  {
    SplitJoined(a);
  }

  /** Cleaning a folder, a slash and a relative path concatenates the components. */
  lemma CleanConcat(a: Comps, b: Comps)
    requires AllPlain(a) && AllPlain(b)
    ensures Clean(Render(a) + "/" + Join(b, '/')) == Render(a + b)
  {
    var front, back := Render(a), Join(b, '/');
    var x, y := Split(front, '/'), Split(back, '/');
    PartsOfFolder(a);
    PartsOfFolder(b);
    NonEmptyJoined(a);
    NonEmptyJoined(b);
    NonEmptyConcat(x, y);
    SplitConcat(front, back, '/');
    assert front + ['/'] + back == front + "/" + back;
    assert Split(front + "/" + back, '/') == x + y;
    CleanOfSplit(front + "/" + back);
  }

  function StripSlashes(s: string): string {
    if s != "" && s[|s|-1] == '/' then StripSlashes(s[..|s|-1]) else s
  }

  /** path.Base. */
  function Base(s: string): string {
    if s == "" then "."
    else
      var t := StripSlashes(s);
      if t == "" then "/" else var parts := Split(t, '/'); parts[|parts|-1]
  }

  /** path.Dir: drop the last element, then clean. */
  function Dir(s: string): string {
    var parts := Split(s, '/');
    if |parts| == 1 then "." else Clean(Join(parts[..|parts|-1], '/') + "/")
  }

  /** Edges: nothing is ".", slashes alone are "/", closing slashes do not count, and a bare name is its own
      last element in the folder ".". */
  lemma BaseEdges(s: string)
    ensures Base("") == "." && Base("/") == "/"
    ensures s != "" ==> Base(s + "/") == Base(s)
    ensures s != "" && '/' !in s ==> Base(s) == s && Dir(s) == "."
  {
    assert StripSlashes("/") == StripSlashes("") == "" by { assert "/"[..0] == ""; }
    assert (s + "/")[..|s|] == s;
    if s != "" && '/' !in s {
      assert s[|s|-1] in s;
      SplitNoSep(s, '/');
    }
  }

  lemma {:induction false} JoinSnoc(cs: Comps, n: string, sep: char)
    requires cs != []
    ensures Join(cs + [n], sep) == Join(cs, sep) + [sep] + n
  {
    var all := cs + [n];
    assert all[1..] == cs[1..] + [n];
    if |cs| == 1 {
      assert Join(all[1..], sep) == n;
    } else {
      JoinSnoc(cs[1..], n, sep);
    }
  }

  /** The last character of a joined path is the last character of its last element. */
  lemma RenderEndsPlain(cs: Comps)
    requires AllPlain(cs) && cs != []
    ensures Render(cs)[|Render(cs)|-1] != '/'
  {
    var n := cs[|cs|-1];
    var front := cs[..|cs|-1];
    assert cs == front + [n];
    assert n[|n|-1] in n;
    if front == [] {
      assert Join(cs, '/') == n;
    } else {
      JoinSnoc(front, n, '/');
    }
  }

  lemma BaseAndDir(cs: Comps, n: string)
    requires AllPlain(cs) && Plain(n)
    ensures Base(Render(cs + [n])) == n
    ensures Dir(Render(cs + [n])) == Render(cs)
  {
    var all := cs + [n];
    RenderEndsPlain(all);
    SplitJoined(all);
    var parts := Split(Render(all), '/');
    assert parts == [""] + cs + [n];
    assert parts[..|parts|-1] == [""] + cs;
    var front := Join([""] + cs, '/');
    CleanConcat(cs, []);
    CleanFixed([]);
    assert cs + [] == cs;
    if cs == [] {
      assert front + "/" == Render([]);
    } else {
      assert ([""] + cs)[1..] == cs;
      assert front + "/" == Render(cs) + "/" + Join([], '/');
    }
  }

  // ---------------------------------------------------------------- CleanLogical, ValidateBaseName, JoinLogical

  function SlashFor(c: char): char { if c == '\\' then '/' else c }

  /** strings.ReplaceAll(input, "\\", "/"). */
  function Normalized(s: string): string {
    var slashed := seq(|s|, i requires 0 <= i < |s| => SlashFor(s[i]));
    if slashed != "" && slashed[0] == '/' then slashed else "/" + slashed
  }

  function CleanLogical(input: string): Option<string> {
    if input == "" then Some("/")
    else if '\0' in input then None
    else
      var normalized := Normalized(input);
      if ".." in Split(normalized, '/') then None else Some(Clean(normalized))
  }

  predicate ValidBaseName(name: string) {
    name != "" && name != "." && name != ".." && '\0' !in name && '/' !in name && '\\' !in name
  }

  /** Names CleanLogical keeps as they are: what ValidateBaseName accepts. */
  predicate AllNames(cs: Comps) {
    forall i :: 0 <= i < |cs| ==> ValidBaseName(cs[i])
  }

  function JoinLogical(parent: string, name: string): Option<string> {
    if !ValidBaseName(name) then None
    else
      match CleanLogical(parent)
      case None => None
      case Some(p) => Some(Clean(p + "/" + name))
  }

  lemma {:induction false} NoneIn(cs: Comps, ch: char)
    requires ch != '/' && forall i :: 0 <= i < |cs| ==> ch !in cs[i]
    ensures ch !in Join(cs, '/')
  {
    if |cs| > 1 {
      NoneIn(cs[1..], ch);
    }
  }

  lemma {:induction false} SplitPiecesFrom(s: string, sep: char, ch: char)
    requires ch !in s
    ensures forall i :: 0 <= i < |Split(s, sep)| ==> ch !in Split(s, sep)[i]
  {
    if s != "" {
      SplitPiecesFrom(s[1..], sep, ch);
    }
  }

  /** CleanLogical accepts exactly the inputs without NUL and without a ".." element, and what it
      returns is always the clean rooted path of valid names. */
  lemma CleanLogicalSound(input: string)
    ensures CleanLogical(input).None? <==>
            '\0' in input || (input != "" && ".." in Split(Normalized(input), '/'))
    ensures CleanLogical(input).Some? ==>
              var r := CleanLogical(input).value;
              AllNames(Parts(r)) && r == Render(Parts(r))
  {
    if CleanLogical(input).Some? {
      var r := CleanLogical(input).value;
      if input == "" {
        assert Join([], '/') == "";
        assert r == Render([]);
      } else {
        var n := Normalized(input);
        assert '\0' !in n && '\\' !in n;
        var parts := Split(n, '/');
        SplitPiecesFrom(n, '/', '\0');
        SplitPiecesFrom(n, '/', '\\');
        SplitPieces(n, '/');
        ResolveRooted(parts, []);
        var cs := Resolve(parts, [], true);
        PartsRender(cs);
        forall i | 0 <= i < |cs| ensures ValidBaseName(cs[i]) {
          assert cs[i] in cs;
        }
      }
    }
  }

  /** The pieces of a path as a client may write it, between slashes and backslashes. */
  function Pieces(s: string): (r: seq<string>)
    ensures |r| >= 1
  {
    if s == "" then [""]
    else if s[0] == '/' || s[0] == '\\' then [""] + Pieces(s[1..])
    else InFront(s[0], '/', Pieces(s[1..]))
  }

  /** The pieces that name something. */
  function Named(parts: seq<string>): Comps {
    if parts == [] then []
    else (if parts[0] == "" || parts[0] == "." then [] else [parts[0]]) + Named(parts[1..])
  }

  function Slashed(s: string): string { seq(|s|, i requires 0 <= i < |s| => SlashFor(s[i])) }

  lemma {:induction false} PiecesSplit(s: string)
    ensures Split(Slashed(s), '/') == Pieces(s)
  {
    if s != "" {
      PiecesSplit(s[1..]);
      assert Slashed(s) == [SlashFor(s[0])] + Slashed(s[1..]);
      SplitInFront(SlashFor(s[0]), Slashed(s[1..]), '/');
    }
  }

  lemma {:induction false} KeptIsNamed(parts: seq<string>)
    requires ".." !in parts
    ensures Kept(parts) == (Named(parts), 0)
  {
    if parts != [] {
      assert parts[0] in parts && forall p :: p in parts[1..] ==> p in parts;
      KeptIsNamed(parts[1..]);
      assert [] + Named(parts[1..]) == Named(parts[1..]);
    }
  }

  /** CleanLogical, outright: NUL and ".." pieces are refused, and otherwise every piece that names
      something is kept, in order. */
  lemma CleanLogicalMeaning(input: string)
    ensures CleanLogical(input) ==
            if '\0' in input || ".." in Pieces(input) then None else Some(Render(Named(Pieces(input))))
  {
    if input == "" {
      EmptyMeansRoot();
    } else if '\0' !in input {
      NormalizedPieces(input);
      if ".." !in Pieces(input) {
        KeptIsNamed(Split(Normalized(input), '/'));
        CleanRooted(Normalized(input));
      }
    }
  }

  lemma EmptyMeansRoot()
    ensures ".." !in Pieces("") && Named(Pieces("")) == [] && Render([]) == "/"
  {
    var pieces := Pieces("");
    assert pieces == [""] && pieces[1..] == [] && |pieces[0]| != |".."|;
  }

  lemma NormalizedPieces(input: string)
    requires input != ""
    ensures Normalized(input) != "" && Normalized(input)[0] == '/'
    ensures var parts := Split(Normalized(input), '/');
            (".." in parts <==> ".." in Pieces(input)) && Named(parts) == Named(Pieces(input))
  {
    PiecesSplit(input);
    var slashed := Slashed(input);
    if slashed[0] != '/' {
      SplitInFront('/', slashed, '/');
      assert Normalized(input) == ['/'] + slashed;
      var more := [""] + Pieces(input);
      assert Split(Normalized(input), '/') == more && more[1..] == Pieces(input);
      assert [] + Named(Pieces(input)) == Named(Pieces(input));
    }
  }

  lemma CleanLogicalFixed(cs: Comps)
    requires AllNames(cs)
    ensures CleanLogical(Render(cs)) == Some(Render(cs))
  {
    var s := Render(cs);
    assert AllPlain(cs);
    NoneIn(cs, '\0');
    NoneIn(cs, '\\');
    assert Normalized(s) == s;
    SplitJoined(cs);
    forall i | 0 <= i < |Split(s, '/')| ensures Split(s, '/')[i] != ".." {}
    CleanFixed(cs);
  }

  /** Cleaning is idempotent: the second call changes nothing and never fails. */
  lemma CleanLogicalIdempotent(input: string)
    requires CleanLogical(input).Some?
    ensures CleanLogical(CleanLogical(input).value) == CleanLogical(input)
  {
    CleanLogicalSound(input);
    CleanLogicalFixed(Parts(CleanLogical(input).value));
  }

  // ---------------------------------------------------------------- cleaning hardly lengthens

  /** Characters of the non-empty elements, each with its slash. */
  function Weight(parts: seq<string>): nat {
    if parts == [] then 0 else (if parts[0] == "" then 0 else |parts[0]| + 1) + Weight(parts[1..])
  }

  lemma {:induction false} WeightConcat(a: seq<string>, b: seq<string>)
    ensures Weight(a + b) == Weight(a) + Weight(b)
  {
    if a == [] {
      assert a + b == b;
    } else {
      assert (a + b)[1..] == a[1..] + b;
      WeightConcat(a[1..], b);
    }
  }

  lemma {:induction false} WeightOfSplit(s: string)
    ensures Weight(Split(s, '/')) <= |s| + 1
    ensures Split(s, '/')[0] == "" ==> Weight(Split(s, '/')) <= |s|
  {
    if s != "" {
      WeightOfSplit(s[1..]);
    }
  }

  lemma {:induction false} WeightOfRender(cs: Comps)
    requires AllPlain(cs) && cs != []
    ensures |Render(cs)| == Weight(cs)
  {
    if |cs| > 1 {
      WeightOfRender(cs[1..]);
    } else {
      assert cs[1..] == [];
    }
  }

  lemma {:induction false} ResolveWeight(parts: seq<string>, acc: Comps)
    ensures Weight(Resolve(parts, acc, true)) <= Weight(acc) + Weight(parts)
    decreases |parts|
  {
    if parts != [] {
      var p := parts[0];
      if p == "" || p == "." {
        ResolveWeight(parts[1..], acc);
      } else if p == ".." {
        if acc != [] && acc[|acc|-1] != ".." {
          WeightConcat(acc[..|acc|-1], [acc[|acc|-1]]);
          assert acc == acc[..|acc|-1] + [acc[|acc|-1]];
          ResolveWeight(parts[1..], acc[..|acc|-1]);
        } else {
          ResolveWeight(parts[1..], acc);
        }
      } else {
        WeightConcat(acc, [p]);
        ResolveWeight(parts[1..], acc + [p]);
      }
    }
  }

  /** Cleaning adds at most the leading slash. */
  lemma CleanLogicalShort(input: string)
    requires CleanLogical(input).Some?
    ensures |CleanLogical(input).value| <= |input| + 1
  {
    if input != "" {
      var n := Normalized(input);
      var parts := Split(n, '/');
      SplitPieces(n, '/');
      ResolveRooted(parts, []);
      ResolveWeight(parts, []);
      WeightOfSplit(n);
      var cs := Resolve(parts, [], true);
      if cs != [] {
        WeightOfRender(cs);
      }
    }
  }

  /** JoinLogical appends one component, and fails exactly on an invalid name. */
  lemma JoinLogicalAppends(cs: Comps, name: string)
    requires AllNames(cs)
    ensures JoinLogical(Render(cs), name) ==
            if ValidBaseName(name) then Some(Render(cs + [name])) else None
  {
    if ValidBaseName(name) {
      CleanLogicalFixed(cs);
      CleanConcat(cs, [name]);
      assert Join([name], '/') == name;
    }
  }

  // ---------------------------------------------------------------- filepath.Rel and containment tests

  function Common(a: Comps, b: Comps): (n: nat)
    ensures n <= |a| && n <= |b| && a[..n] == b[..n]
    ensures n < |a| && n < |b| ==> a[n] != b[n]
  {
    if a == [] || b == [] || a[0] != b[0] then 0
    else
      var n := Common(a[1..], b[1..]);
      assert a[..n+1] == [a[0]] + a[1..][..n] && b[..n+1] == [b[0]] + b[1..][..n];
      n + 1
  }

  /** filepath.Rel on two clean rooted paths: climb out of the base, then descend. */
  function Rel(base: string, target: string): string {
    if base == target then "."
    else
      var b, t := Parts(base), Parts(target);
      var n := Common(b, t);
      Join(seq(|b| - n, i => "..") + t[n..], '/')
  }

  predicate HasPrefix(s: string, p: string) { |p| <= |s| && s[..|p|] == p }

  /** filepath.Abs: relative paths are joined to the working directory. */
  function Abs(cwd: string, p: string): string {
    if HasPrefix(p, "/") then Clean(p) else Clean(cwd + "/" + p)
  }

  /** An absolute path is clean: it is the rendering of plain components. */
  lemma AbsIsClean(cwd: string, p: string)
    requires HasPrefix(cwd, "/")
    ensures var a := Abs(cwd, p); AllPlain(Parts(a)) && a == Render(Parts(a))
  {
    var s := if HasPrefix(p, "/") then p else cwd + "/" + p;
    assert cwd[..1][0] == '/';
    assert HasPrefix(p, "/") ==> p[..1][0] == '/';
    assert s[0] == '/';
    var parts := Split(s, '/');
    SplitPieces(s, '/');
    ResolveRooted(parts, []);
    PartsRender(Resolve(parts, [], true));
  }

  /** An absolute path stands by itself; a relative one is read after the working directory. */
  lemma AbsMeaning(cwd: string, p: string)
    requires HasPrefix(cwd, "/")
    ensures Abs(cwd, p) == Render(Kept(if HasPrefix(p, "/") then Split(p, '/') else Split(cwd, '/') + Split(p, '/')).0)
  {
    assert cwd[..1][0] == '/';
    assert HasPrefix(p, "/") ==> p[..1][0] == '/';
    CleanRooted(if HasPrefix(p, "/") then p else cwd + "/" + p);
    SplitConcat(cwd, p, '/');
    assert cwd + ['/'] + p == cwd + "/" + p;
  }

  /** config.pathContains on absolute clean arguments. */
  predicate RelContains(parent: string, child: string) {
    var rel := Rel(parent, child);
    rel == "." || (rel != ".." && !HasPrefix(rel, "../"))
  }

  /** files.ensureWithin: true where it returns nil. */
  predicate EnsureWithin(root: string, candidate: string) {
    var rel := Rel(root, candidate);
    rel == "." || !(HasPrefix(rel, "../") || rel == ".." || HasPrefix(rel, "/"))
  }

  /** watch.isWithin. */
  predicate IsWithin(root: string, target: string) {
    if target == root then true
    else
      var rel := Rel(root, target);
      rel != "." && rel != ".." && !HasPrefix(rel, "../")
  }

  /** The Rel string starts with ".." as an element exactly when the base is not a prefix. */
  lemma RelShape(b: Comps, t: Comps)
    requires AllPlain(b) && AllPlain(t) && b != t
    ensures var rel := Rel(Render(b), Render(t));
            var climbs := rel == ".." || HasPrefix(rel, "../");
            rel != "." && !HasPrefix(rel, "/") && (climbs <==> !IsPrefix(b, t))
  {
    PartsRender(b);
    PartsRender(t);
    var n := Common(b, t);
    var ups := seq(|b| - n, i => "..");
    var all := ups + t[n..];
    var rel := Join(all, '/');
    assert Rel(Render(b), Render(t)) == rel;
    if n < |b| {
      assert all[0] == "..";
      assert rel[..1] == ".";
      if |all| > 1 {
        assert rel == ".." + ['/'] + Join(all[1..], '/');
        Climbs(rel);
      }
      if |b| <= |t| {
        assert t[..|b|][n] == t[n];
      }
    } else {
      assert all == t[n..] && b == t[..n];
      assert t[..|t|] == t;
      var c := t[n];
      assert all[0] == c && Plain(c);
      FirstElement(all);
    }
  }

  /** A joined list of plain elements never reads as "." or as starting with "/" or "../". */
  lemma FirstElement(all: Comps)
    requires all != [] && AllPlain(all)
    ensures var s := Join(all, '/'); s != "." && s != ".." && !HasPrefix(s, "/") && !HasPrefix(s, "../")
  {
    var s := Join(all, '/');
    var c := all[0];
    JoinNonEmpty(all);
    NoSlash(c, 0);
    assert s[..|c|] == c;
    if |c| == 1 {
      assert c == [c[0]];
      assert s[0] != '.';
    } else if |c| == 2 {
      assert c == [c[0], c[1]];
    } else {
      NoSlash(c, 2);
    }
    Climbs(s);
  }

  lemma Climbs(s: string)
    ensures HasPrefix(s, "../") <==> |s| >= 3 && s[0] == '.' && s[1] == '.' && s[2] == '/'
  {
    if |s| >= 3 {
      assert s[..3] == [s[0], s[1], s[2]];
    }
  }

  lemma NoSlash(c: string, i: nat)
    requires Plain(c) && i < |c|
    ensures c[i] != '/'
  {
    assert c[i] in c;
  }

  /** All three Rel-string tests mean "component prefix". */
  lemma ContainmentIsPrefix(b: Comps, t: Comps)
    requires AllPlain(b) && AllPlain(t)
    ensures RelContains(Render(b), Render(t)) <==> IsPrefix(b, t)
    ensures EnsureWithin(Render(b), Render(t)) <==> IsPrefix(b, t)
    ensures IsWithin(Render(b), Render(t)) <==> IsPrefix(b, t)
  {
    if b != t {
      RelShape(b, t);
      if Render(b) == Render(t) { RenderInjective(b, t); }
    }
  }

  /** joinedPath: a logical path never leaves the root it is joined to. */
  function JoinedPath(root: string, logical: string): Option<string> {
    match CleanLogical(logical)
    case None => None
    case Some(clean) =>
      var rel := if HasPrefix(clean, "/") then clean[1..] else clean;
      var candidate := Clean(root + "/" + rel);
      if EnsureWithin(root, candidate) then Some(candidate) else None
  }

  /** The physical path is the root's components followed by the logical ones; the containment
      check never fires on a cleaned path. */
  lemma JoinedPathStaysInside(root: Comps, logical: Comps)
    requires AllPlain(root) && AllNames(logical)
    ensures JoinedPath(Render(root), Render(logical)) == Some(Render(root + logical))
  {
    CleanLogicalFixed(logical);
    assert AllPlain(logical);
    assert Render(logical)[1..] == Join(logical, '/');
    CleanConcat(root, logical);
    assert AllPlain(root + logical);
    assert (root + logical)[..|root|] == root;
    ContainmentIsPrefix(root, root + logical);
  }

  // ---------------------------------------------------------------- string prefixes and subtrees

  lemma JoinPrefix(b: Comps, t: Comps)
    requires AllPlain(b) && AllPlain(t) && b != []
    requires HasPrefix(Join(t, '/'), Join(b, '/') + "/")
    ensures |b| < |t| && t[..|b|] == b
  {
    var jb, jt := Join(b, '/'), Join(t, '/');
    var rest := jt[|jb|+1..];
    assert jt == jb + ['/'] + rest;
    SplitConcat(jb, rest, '/');
    SplitJoined(b);
    SplitJoined(t);
    assert |b + Split(rest, '/')| >= 2;
  }

  lemma {:induction false} JoinConcat(a: Comps, b: Comps)
    requires a != [] && b != []
    ensures Join(a + b, '/') == Join(a, '/') + "/" + Join(b, '/')
  {
    if |a| == 1 {
      assert (a + b)[1..] == b;
    } else {
      assert (a + b)[1..] == a[1..] + b;
      JoinConcat(a[1..], b);
    }
  }

  lemma JoinExtends(b: Comps, t: Comps)
    requires AllPlain(t) && b != [] && |b| < |t| && t[..|b|] == b
    ensures HasPrefix(Join(t, '/'), Join(b, '/') + "/")
  {
    var rest := t[|b|..];
    assert t == b + rest;
    JoinConcat(b, rest);
    var s := Join(b, '/') + "/";
    assert Join(t, '/') == s + Join(rest, '/');
  }

  /** Extending a folder's string by "/" is the same as lying strictly below it. */
  lemma SubtreeByString(b: Comps, t: Comps)
    requires AllPlain(b) && AllPlain(t) && b != []
    ensures HasPrefix(Render(t), Render(b) + "/") <==> |b| < |t| && IsPrefix(b, t)
  {
    var jb, jt := Join(b, '/'), Join(t, '/');
    if HasPrefix(Render(t), Render(b) + "/") {
      assert jt[..|jb|+1] == Render(t)[1..|jb|+2];
      assert Render(t)[..|jb|+2] == Render(b) + "/";
      assert Render(t)[1..|jb|+2] == (Render(b) + "/")[1..] == jb + "/";
      JoinPrefix(b, t);
    }
    if |b| < |t| && IsPrefix(b, t) {
      JoinExtends(b, t);
      assert Render(t)[..|jb|+2] == "/" + jt[..|jb|+1];
    }
  }
}
