/** The watcher's mapping from a physical path to a user: resolve in internal/watch/watch.go. */
module WatchRoots {
  import opened Strings
  import opened LogicalPaths

  /** A watched home root; the path is absolute and clean (filepath.Abs). */
  datatype Root = Root(user: int, comps: Comps)

  datatype Resolved = Resolved(user: int, logical: string)

  predicate Contains(r: Root, t: Comps) { IsWithin(Render(r.comps), Render(t)) }

  /** A root that contains t and is no shallower than any other that does. */
  predicate Deepest(roots: seq<Root>, t: Comps, r: Root) {
    r in roots && IsPrefix(r.comps, t) &&
    forall o :: o in roots && IsPrefix(o.comps, t) ==> |o.comps| <= |r.comps|
  }

  /** What the watcher makes of the path below a root. */
  function LogicalBelow(r: Root, t: Comps): Option<string>
    requires |r.comps| <= |t|
  {
    CleanLogical(Render(t[|r.comps|..]))
  }

  predicate DistinctPaths(roots: seq<Root>) {
    forall i, j :: 0 <= i < j < |roots| ==> roots[i].comps != roots[j].comps
  }

  /** Among prefixes of one path the longer string is the deeper root. */
  lemma PrefixLengths(a: Comps, b: Comps, t: Comps)
    requires AllPlain(t) && IsPrefix(a, t) && IsPrefix(b, t)
    ensures |Render(a)| < |Render(b)| <==> |a| < |b|
  {
    if |a| < |b| {
      LongerRender(a, b, t);
    } else if |b| < |a| {
      LongerRender(b, a, t);
    } else {
      assert a == b;
    }
  }

  lemma LongerRender(a: Comps, b: Comps, t: Comps)
    requires AllPlain(t) && IsPrefix(a, t) && IsPrefix(b, t) && |a| < |b|
    ensures |Render(a)| < |Render(b)|
  {
    assert t[..|b|][..|a|] == t[..|a|];
    assert forall i :: 0 <= i < |b| ==> b[i] == t[i];
    if a == [] {
      JoinNonEmpty(b);
    } else {
      JoinExtends(a, b);
    }
  }

  class Watcher {
    var roots: seq<Root>

    constructor (rs: seq<Root>)
      ensures roots == rs
    {
      roots := rs;
    }

    /** Finds the deepest containing root and cleans the rest of the path; the root itself and a rest
        CleanLogical refuses resolve to nothing. */
    method Resolve(t: Comps) returns (r: Option<Resolved>)
      requires AllPlain(t)
      requires forall i :: 0 <= i < |roots| ==> AllPlain(roots[i].comps)
      ensures r.None? <==> forall best :: Deepest(roots, t, best) ==> best.comps == t || LogicalBelow(best, t).None?
      ensures r.Some? ==> exists best :: Deepest(roots, t, best) && best.user == r.value.user &&
                                         LogicalBelow(best, t) == Some(r.value.logical)
    {
      var match_: Option<Root> := None;
      var i := 0;
      while i < |roots|
        invariant 0 <= i <= |roots|
        invariant match_.None? ==> forall o :: o in roots[..i] ==> !IsPrefix(o.comps, t)
        invariant match_.Some? ==> Deepest(roots[..i], t, match_.value)
      {
        var candidate := roots[i];
        ContainmentIsPrefix(candidate.comps, t);
        assert forall o :: o in roots[..i+1] <==> o in roots[..i] || o == candidate;
        if Contains(candidate, t) {
          if match_.None? {
            match_ := Some(candidate);
          } else {
            PrefixLengths(match_.value.comps, candidate.comps, t);
            if |Render(candidate.comps)| > |Render(match_.value.comps)| {
              match_ := Some(candidate);
            }
          }
        }
        i := i + 1;
      }
      assert roots[..i] == roots;
      if match_.None? {
        return None;
      }
      var best := match_.value;
      var rel := Rel(Render(best.comps), Render(t));
      SameRootUnique(roots, t, best);
      RelBelow(best.comps, t);
      if rel == "." {
        return None;
      }
      var logical := CleanLogical("/" + rel);
      if logical.None? {
        return None;
      }
      r := Some(Resolved(best.user, logical.value));
    }
  }

  /** All deepest roots of one path have the same components. */
  lemma SameRootUnique(roots: seq<Root>, t: Comps, best: Root)
    requires Deepest(roots, t, best)
    ensures forall o :: Deepest(roots, t, o) ==> o.comps == best.comps
  {}

  lemma RelBelow(b: Comps, t: Comps)
    requires AllPlain(b) && AllPlain(t) && IsPrefix(b, t)
    ensures Rel(Render(b), Render(t)) == "." <==> b == t
    ensures b != t ==> "/" + Rel(Render(b), Render(t)) == Render(t[|b|..])
  {
    PartsRender(b);
    PartsRender(t);
    if b != t {
      RelShape(b, t);
      if Render(b) == Render(t) { RenderInjective(b, t); }
      var n := Common(b, t);
      assert forall i :: 0 <= i < |b| ==> b[i] == t[..|b|][i] == t[i];
      assert n == |b|;
      assert seq(|b| - n, i => "..") + t[n..] == t[n..];
    }
  }

  /** The event path is the physical path below the root exactly when no name in it holds a backslash
      or NUL. */
  lemma ResolvesToItselfIff(rest: Comps)
    requires AllPlain(rest)
    ensures CleanLogical(Render(rest)) == Some(Render(rest)) <==> AllNames(rest)
  {
    if CleanLogical(Render(rest)) == Some(Render(rest)) {
      CleanLogicalSound(Render(rest));
      PartsRender(rest);
    }
    if AllNames(rest) {
      CleanLogicalFixed(rest);
    }
  }

  /** A file whose name joins two names by a backslash is taken for the second in a folder of the first. */
  lemma BackslashIsTakenForSlash(a: string, b: string)
    requires ValidBaseName(a) && ValidBaseName(b)
    ensures CleanLogical(Render([a + ['\\'] + b])) == Some(Render([a, b]))
  {
    var name := a + ['\\'] + b;
    CleanLogicalFixed([a, b]);
    assert [a, b][1..] == [b];
    assert Join([b], '/') == b && Join([a, b], '/') == a + ['/'] + b;
    assert Render([name]) == "/" + name && Render([a, b]) == "/" + (a + ['/'] + b);
    assert Normalized("/" + name) == "/" + (a + ['/'] + b) == Normalized("/" + (a + ['/'] + b));
  }

  /** With distinct root paths the answer does not depend on the order of the roots. */
  lemma OrderIndependent(a: seq<Root>, b: seq<Root>, t: Comps, x: Root, y: Root)
    requires DistinctPaths(a) && (forall r :: r in a <==> r in b)
    requires Deepest(a, t, x) && Deepest(b, t, y)
    ensures x == y
  {
    assert x in a && y in a && |x.comps| == |y.comps|;
    var i :| 0 <= i < |a| && a[i] == x;
    var j :| 0 <= j < |a| && a[j] == y;
    assert x.comps == y.comps;
  }
}
