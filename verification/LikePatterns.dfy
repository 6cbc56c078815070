/** LIKE with the escape character `\`, and the patterns that text matching builds for it. */
module LikePatterns {
  import opened FilterConditions

  /** `s LIKE p ESCAPE '\'`: section 8.5 of ISO/IEC 9075-2. A pattern may not end in the escape. */
  predicate Like(p: string, s: string)
    decreases |p| + |s|
  {
    if p == "" then s == ""
    else if p[0] == '\\' then 2 <= |p| && s != "" && s[0] == p[1] && Like(p[2..], s[1..])
    else if p[0] == '%' then Like(p[1..], s) || (s != "" && Like(p, s[1..]))
    else if p[0] == '_' then s != "" && Like(p[1..], s[1..])
    else s != "" && s[0] == p[0] && Like(p[1..], s[1..])
  }

  /** `escapeLikeLiteral` */
  function Escape(s: string): string {
    if s == "" then "" else (if IsMeta(s[0]) then ['\\', s[0]] else [s[0]]) + Escape(s[1..])
  }

  /** `likePattern` */
  function Pattern(mode: MatchMode, value: string): string {
    match mode
    case Prefix => Escape(value) + "%"
    case Suffix => "%" + Escape(value)
    case Contains => "%" + Escape(value) + "%"
  }

  /** An escaped value consumes exactly itself. */
  lemma {:induction false} LikeEscaped(value: string, rest: string, s: string)
    ensures Like(Escape(value) + rest, s) <==> value <= s && Like(rest, s[|value|..])
  {
    if value == "" {
      assert Escape(value) + rest == rest;
    } else {
      var tail := Escape(value[1..]) + rest;
      var head := if IsMeta(value[0]) then ['\\', value[0]] else [value[0]];
      var p := Escape(value) + rest;
      assert p == head + tail;
      assert p[|head|..] == tail;
      if s != "" && s[0] == value[0] {
        LikeEscaped(value[1..], rest, s[1..]);
        assert value <= s <==> value[1..] <= s[1..];
        assert value <= s ==> s[1..][|value| - 1..] == s[|value|..];
      }
    }
  }

  /** `%` matches by choosing how much to skip. */
  lemma {:induction false} LikePercent(rest: string, s: string)
    ensures Like("%" + rest, s) <==> exists i :: 0 <= i <= |s| && Like(rest, s[i..])
  {
    var p := "%" + rest;
    assert p[1..] == rest;
    assert s[0..] == s;
    if s != "" {
      LikePercent(rest, s[1..]);
      assert forall i :: 0 <= i <= |s| - 1 ==> s[1..][i..] == s[i + 1..];
      if Like(p, s) && !Like(rest, s) {
        var i :| 0 <= i <= |s| - 1 && Like(rest, s[1..][i..]);
        assert Like(rest, s[i + 1..]);
      }
      forall i | 0 <= i <= |s| && Like(rest, s[i..])
        ensures Like(p, s)
      {
        if 0 < i {
          assert s[1..][i - 1..] == s[i..];
        }
      }
    }
  }

  lemma LikeAnything(s: string)
    ensures Like("%", s)
  {
  }

  lemma WholeExact(value: string, s: string)
    ensures Like(Escape(value), s) <==> s == value
  {
  }

  lemma SuffixExact(value: string, s: string)
    ensures Like("%" + Escape(value), s) <==> |value| <= |s| && s[|s| - |value|..] == value
  {
    LikePercent(Escape(value), s);
    hide Like, Escape;
    forall i | 0 <= i <= |s|
      ensures Like(Escape(value), s[i..]) <==> s[i..] == value
    {
      WholeExact(value, s[i..]);
    }
    if |value| <= |s| && s[|s| - |value|..] == value {
      assert Like(Escape(value), s[|s| - |value|..]);
    }
  }

  /** The pattern of a mode matches exactly the strings that contain, start with or end with the value. */
  lemma PatternExact(mode: MatchMode, value: string, s: string)
    ensures Like(Pattern(mode, value), s) <==> TextMatches(mode, value, s)
  {
    match mode
    case Prefix =>
      LikeEscaped(value, "%", s);
      if value <= s { LikeAnything(s[|value|..]); }
    case Suffix =>
      SuffixExact(value, s);
    case Contains =>
      LikePercent(Escape(value) + "%", s);
      assert "%" + (Escape(value) + "%") == Pattern(Contains, value);
      forall i | 0 <= i <= |s|
        ensures Like(Escape(value) + "%", s[i..]) <==> value <= s[i..]
      {
        LikeEscaped(value, "%", s[i..]);
        if value <= s[i..] { LikeAnything(s[i..][|value|..]); }
      }
  }

  lemma FoldAppend(a: string, b: string, fold: char -> char)
    ensures Fold(a + b, fold) == Fold(a, fold) + Fold(b, fold)
  {
  }

  /** Folding an escaped value is escaping the folded value. */
  lemma {:induction false} FoldEscape(value: string, fold: char -> char)
    requires PlainFold(fold)
    ensures Fold(Escape(value), fold) == Escape(Fold(value, fold))
  {
    if value != "" {
      var c := value[0];
      var head := if IsMeta(c) then ['\\', c] else [c];
      FoldEscape(value[1..], fold);
      FoldAppend(head, Escape(value[1..]), fold);
      assert Fold(value, fold) == [fold(c)] + Fold(value[1..], fold);
      assert IsMeta('\\') && (IsMeta(fold(c)) <==> IsMeta(c));
      assert Fold(head, fold) == if IsMeta(fold(c)) then ['\\', fold(c)] else [fold(c)];
    }
  }

  /** The exactness survives a case fold that is applied to the finished pattern and to the text. */
  lemma FoldedPatternExact(mode: MatchMode, value: string, s: string, fold: char -> char)
    requires PlainFold(fold)
    ensures Like(Fold(Pattern(mode, value), fold), Fold(s, fold)) <==>
            TextMatches(mode, Fold(value, fold), Fold(s, fold))
  {
    FoldEscape(value, fold);
    assert IsMeta('%');
    assert Fold("%", fold) == "%";
    var e := Escape(value);
    assert Fold(e + "%", fold) == Fold(e, fold) + "%";
    assert Fold("%" + e, fold) == "%" + Fold(e, fold);
    assert Fold("%" + e + "%", fold) == "%" + Fold(e, fold) + "%";
    PatternExact(mode, Fold(value, fold), Fold(s, fold));
  }

  // LIKE itself.

  function Repeat(c: char, n: nat): (s: string)
    ensures |s| == n && forall k :: 0 <= k < n ==> s[k] == c
  {
    seq(n, k requires 0 <= k < n => c)
  }

  /** `n` underscores match exactly the strings of `n` characters. */
  lemma {:induction false} Underscores(n: nat, s: string)
    ensures Like(Repeat('_', n), s) <==> |s| == n
  {
    if n > 0 {
      assert Repeat('_', n)[1..] == Repeat('_', n - 1);
      if s != "" {
        Underscores(n - 1, s[1..]);
      }
    }
  }

  /** A pattern without metacharacters matches itself only. */
  lemma {:induction false} PlainPattern(p: string, s: string)
    requires forall k :: 0 <= k < |p| ==> !IsMeta(p[k])
    ensures Like(p, s) <==> p == s
  {
    if p != "" && s != "" {
      PlainPattern(p[1..], s[1..]);
      assert p == [p[0]] + p[1..] && s == [s[0]] + s[1..];
    }
  }

  /** An escaped metacharacter matches itself only, and a pattern that ends in the escape matches nothing. */
  lemma EscapedCharacter(c: char, s: string)
    ensures Like(['\\', c], s) <==> s == [c]
    ensures !Like("\\", s)
  {
    assert ['\\', c][2..] == "";
    if s != "" {
      assert Like("", s[1..]) <==> s[1..] == "";
    }
  }

  /** Without the escape a text filter for `_` would match every character. */
  lemma UnescapedMatchesMore()
    ensures Like("%" + "_" + "%", "a") && !TextMatches(Contains, "_", "a") && !Like(Pattern(Contains, "_"), "a")
  {
    PatternExact(Contains, "_", "a");
    assert !TextMatches(Contains, "_", "a") by {
      forall i | 0 <= i <= |"a"| ensures !("_" <= "a"[i..]) { }
    }
    assert "%_%"[1..] == "_%" && "_%"[1..] == "%";
    LikeAnything("a"[1..]);
    assert Like("_%", "a");
  }
}
