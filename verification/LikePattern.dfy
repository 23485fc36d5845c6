/** LIKE patterns over paths: escapeLikePattern in internal/store/index.go against SQLite's matcher. */
module LikePattern {
  import opened Strings
  import opened LogicalPaths

  /** `text LIKE pattern ESCAPE '\'` as SQLite evaluates it: ASCII letters match either case. */
  predicate Like(pattern: string, text: string)
    decreases |pattern| + |text|
  {
    if pattern == "" then text == ""
    else if pattern[0] == '%' then
      Like(pattern[1..], text) || (text != "" && Like(pattern, text[1..]))
    else if text == "" then false
    else if pattern[0] == '_' then Like(pattern[1..], text[1..])
    else if pattern[0] == '\\' then
      |pattern| >= 2 && LowerChar(pattern[1]) == LowerChar(text[0]) && Like(pattern[2..], text[1..])
    else LowerChar(pattern[0]) == LowerChar(text[0]) && Like(pattern[1..], text[1..])
  }

  /** "%" stands for any string, "_" for any one character, and a character after the escape for itself. */
  lemma {:induction false} LikePercentIff(rest: string, text: string)
    ensures Like("%" + rest, text) <==> exists k :: 0 <= k <= |text| && Like(rest, text[k..])
    decreases |text|
  {
    assert ("%" + rest)[1..] == rest && text[0..] == text;
    if text != "" {
      LikePercentIff(rest, text[1..]);
      forall k | 0 < k <= |text| ensures text[k..] == text[1..][k-1..] {}
      forall k | 0 <= k <= |text[1..]| ensures text[1..][k..] == text[k+1..] {}
    }
  }

  lemma LikeOneIff(c: char, rest: string, text: string)
    ensures Like("_" + rest, text) <==> text != "" && Like(rest, text[1..])
    ensures Like(['\\', c] + rest, text) <==> text != "" && Lower([c]) == Lower(text[..1]) && Like(rest, text[1..])
    ensures !Special(c) ==>
              (Like([c] + rest, text) <==> text != "" && Lower([c]) == Lower(text[..1]) && Like(rest, text[1..]))
  {
    assert ("_" + rest)[1..] == rest && (['\\', c] + rest)[2..] == rest && ([c] + rest)[1..] == rest;
    if text != "" { assert Lower([c])[0] == LowerChar(c) && Lower(text[..1])[0] == LowerChar(text[0]); }
  }

  predicate Special(c: char) { c == '\\' || c == '%' || c == '_' }

  function Escape(value: string): string {
    if value == "" then ""
    else (if Special(value[0]) then "\\" else "") + [value[0]] + Escape(value[1..])
  }

  lemma {:induction false} EscapeSnoc(value: string, c: char)
    ensures Escape(value + [c]) == Escape(value) + (if Special(c) then "\\" else "") + [c]
  {
    if value == "" {
      assert value + [c] == [c] && [c][1..] == "";
    } else {
      assert (value + [c])[1..] == value[1..] + [c];
      EscapeSnoc(value[1..], c);
    }
  }

  method EscapeLikePattern(value: string) returns (pattern: string)
    ensures pattern == Escape(value)
    ensures forall more, text :: Like(pattern + more, text) <==>
              |value| <= |text| && Lower(text[..|value|]) == Lower(value) && Like(more, text[|value|..])
  {
    pattern := "";
    for i := 0 to |value|
      invariant pattern == Escape(value[..i])
    {
      EscapeSnoc(value[..i], value[i]);
      assert value[..i+1] == value[..i] + [value[i]];
      if value[i] == '\\' || value[i] == '%' || value[i] == '_' {
        pattern := pattern + "\\";
      }
      pattern := pattern + [value[i]];
    }
    assert value[..|value|] == value;
    forall more, text
      ensures Like(pattern + more, text) <==>
              |value| <= |text| && Lower(text[..|value|]) == Lower(value) && Like(more, text[|value|..])
    {
      EscapedIsLiteral(value, more, text);
    }
  }

  /** An escaped value matches itself, up to ASCII case, and nothing else. */
  lemma {:induction false} EscapedIsLiteral(value: string, more: string, text: string)
    ensures Like(Escape(value) + more, text) <==>
            |value| <= |text| && Lower(text[..|value|]) == Lower(value) && Like(more, text[|value|..])
  {
    var e := Escape(value) + more;
    if value == "" {
      assert e == more && text[0..] == text;
    } else {
      var v := value[1..];
      if Special(value[0]) {
        assert e[2..] == Escape(v) + more;
      } else {
        assert e[1..] == Escape(v) + more;
      }
      if text != "" {
        var t := text[1..];
        EscapedIsLiteral(v, more, t);
        if |value| <= |text| {
          assert t[|v|..] == text[|value|..];
          LowerCons(text[..|value|]);
          LowerCons(value);
          assert text[..|value|][1..] == t[..|v|];
        }
      }
    }
  }

  lemma LowerCons(s: string)
    requires s != ""
    ensures Lower(s) == [LowerChar(s[0])] + Lower(s[1..])
  {}

  lemma {:induction false} PercentMatchesAll(text: string)
    ensures Like("%", text)
  {
    if text != "" {
      PercentMatchesAll(text[1..]);
    }
  }

  /** The subtree pattern of a folder matches exactly the strings that extend the folder and a
      slash, reading ASCII letters without case. */
  lemma SubtreePattern(folder: string, text: string)
    ensures Like(Escape(folder) + "/%", text) <==>
            |text| > |folder| && Lower(text[..|folder|+1]) == Lower(folder + "/")
  {
    EscapedIsLiteral(folder, "/%", text);
    if |text| > |folder| {
      var rest := text[|folder|..];
      PercentMatchesAll(rest[1..]);
      assert "/%"[1..] == "%";
      assert text[..|folder|+1] == text[..|folder|] + [rest[0]];
      LowerConcat(text[..|folder|], [rest[0]]);
      LowerConcat(folder, "/");
      assert LowerChar(rest[0]) == '/' <==> rest[0] == '/';
      assert Lower(text[..|folder|+1])[..|folder|] == Lower(text[..|folder|]);
      assert Lower(folder + "/")[..|folder|] == Lower(folder);
      assert Lower(text[..|folder|+1])[|folder|] == LowerChar(rest[0]);
    }
  }

  // ---------------------------------------------------------------- the WHERE clause of subtree deletes

  /** `path = ? OR path LIKE ? ESCAPE '\'` with the subtree pattern. */
  predicate InDeletedRange(folder: string, path: string) {
    path == folder || Like(Escape(folder) + "/%", path)
  }

  /** The folder itself and everything strictly below it. */
  predicate InSubtree(folder: string, path: string) {
    path == folder || HasPrefix(path, folder + "/")
  }

  /** A path in another folder whose name differs only in ASCII case. */
  predicate CaseTwin(folder: string, path: string) {
    |path| > |folder| && Lower(path[..|folder|+1]) == Lower(folder + "/") && path[..|folder|+1] != folder + "/"
  }

  /** Every subtree row is deleted; the extra rows deleted are exactly the case twins. */
  lemma DeletedRange(folder: string, path: string)
    ensures InDeletedRange(folder, path) <==> InSubtree(folder, path) || CaseTwin(folder, path)
    ensures !(InSubtree(folder, path) && CaseTwin(folder, path))
  {
    SubtreePattern(folder, path);
    assert HasPrefix(path, folder + "/") ==> path[..|folder|+1] == folder + "/";
  }

  /** The range is exactly the subtree, for every stored path, if and only if no case twin is stored. */
  lemma RangeIsSubtreeIff(folder: string, stored: set<string>)
    ensures (forall p :: p in stored ==> (InDeletedRange(folder, p) <==> InSubtree(folder, p)))
       <==> (forall p :: p in stored ==> !CaseTwin(folder, p))
  {
    forall p ensures InDeletedRange(folder, p) <==> InSubtree(folder, p) || CaseTwin(folder, p)
             ensures !(InSubtree(folder, p) && CaseTwin(folder, p)) {
      DeletedRange(folder, p);
    }
  }

  /** A concrete collateral deletion: removing "/docs" also removes "/Docs/a". */
  lemma CaseTwinExists()
    ensures InDeletedRange("/docs", "/Docs/a") && !InSubtree("/docs", "/Docs/a")
  {
    var path := "/Docs/a";
    assert path[..6] == "/Docs/";
    assert Lower("/Docs/") == "/docs/" == Lower("/docs/");
    assert "/docs" + "/" == "/docs/";
    assert path[1] == 'D' && ("/docs" + "/")[1] == 'd';
    DeletedRange("/docs", path);
  }
}
