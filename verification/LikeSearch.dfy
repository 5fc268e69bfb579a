/**
 Search patterns: `like_pattern` of backend/app/shared/text_search.py.

 The pattern is built with three chained replaces; its meaning is given by an independent
 definition of SQL LIKE (section 8.5 of ISO/IEC 9075-2:2003) with backslash as the escape character.
 */
module LikeSearch {
  import opened Prelude

  const ESCAPE: char := '\\'

  predicate IsSpecial(c: char) {
    c == ESCAPE || c == '%' || c == '_'
  }

  // ----- the source's construction -----

  /** Python's `s.replace(c, with)` for a one-character needle. */
  function Replace(s: string, c: char, with: string): string {
    if s == "" then "" else (if s[0] == c then with else [s[0]]) + Replace(s[1..], c, with)
  }

  function Escaped(text: string): string {
    Replace(Replace(Replace(text, '\\', "\\\\"), '%', "\\%"), '_', "\\_")
  }

  function LikePattern(text: string): string {
    "%" + Escaped(text) + "%"
  }

  // ----- the meaning of LIKE -----

  datatype Token = Literal(c: char) | AnyOne | AnyRun

  /** None when the escape character is followed by nothing or by an ordinary character. */
  function Tokenize(p: string): Option<seq<Token>> {
    if p == "" then Some([])
    else if p[0] == ESCAPE then
      if |p| >= 2 && IsSpecial(p[1]) then Prepend(Literal(p[1]), Tokenize(p[2..])) else None
    else Prepend(if p[0] == '%' then AnyRun else if p[0] == '_' then AnyOne else Literal(p[0]), Tokenize(p[1..]))
  }

  function Prepend(t: Token, rest: Option<seq<Token>>): Option<seq<Token>> {
    match rest
    case None => None
    case Some(ts) => Some([t] + ts)
  }

  ghost predicate Matches(ts: seq<Token>, s: string)
    decreases |ts|
  {
    if ts == [] then s == ""
    else match ts[0]
      case Literal(c) => s != "" && s[0] == c && Matches(ts[1..], s[1..])
      case AnyOne => s != "" && Matches(ts[1..], s[1..])
      case AnyRun => exists k :: 0 <= k <= |s| && Matches(ts[1..], s[k..])
  }

  /** `s LIKE p ESCAPE '\'`, true only for a well-formed pattern. */
  ghost predicate Like(s: string, p: string) {
    Tokenize(p).Some? && Matches(Tokenize(p).value, s)
  }

  ghost predicate Contains(s: string, text: string) {
    exists i :: 0 <= i <= |s| && text <= s[i..]
  }

  // ----- the chained replaces are one per-character escape -----

  function EscapeEach(text: string): string {
    if text == "" then ""
    else (if IsSpecial(text[0]) then [ESCAPE, text[0]] else [text[0]]) + EscapeEach(text[1..])
  }

  lemma {:induction false} ReplaceConcat(a: string, b: string, c: char, with: string)
    ensures Replace(a + b, c, with) == Replace(a, c, with) + Replace(b, c, with)
  {
    if a == "" {
      assert a + b == b;
    } else {
      ReplaceConcat(a[1..], b, c, with);
      assert (a + b)[1..] == a[1..] + b;
      var head := if a[0] == c then with else [a[0]];
      assert head + (Replace(a[1..], c, with) + Replace(b, c, with))
          == (head + Replace(a[1..], c, with)) + Replace(b, c, with);
    }
  }

  lemma {:induction false} ReplaceShort(a: string, c: char, with: string)
    requires |a| <= 2
    ensures |a| == 1 ==> Replace(a, c, with) == if a[0] == c then with else a
    ensures |a| == 2 ==>
              Replace(a, c, with) == (if a[0] == c then with else [a[0]]) + (if a[1] == c then with else [a[1]])
  {
    if |a| == 2 {
      ReplaceShort(a[1..], c, with);
    } else if |a| == 1 {
      assert a[1..] == "" && Replace(a[1..], c, with) == "";
      assert [a[0]] == a;
    }
  }

  lemma {:induction false} EscapedIsPerCharacter(text: string)
    ensures Escaped(text) == EscapeEach(text)
  {
    if text != "" {
      var head, tail := [text[0]], text[1..];
      assert text == head + tail;
      EscapedIsPerCharacter(tail);
      var h1 := if text[0] == '\\' then "\\\\" else head;
      var t1 := Replace(tail, '\\', "\\\\");
      assert Replace(text, '\\', "\\\\") == h1 + t1;
      ReplaceConcat(h1, t1, '%', "\\%");
      ReplaceShort(h1, '%', "\\%");
      var h2 := if text[0] == '%' then "\\%" else h1;
      assert Replace(h1, '%', "\\%") == h2;
      var t2 := Replace(t1, '%', "\\%");
      ReplaceConcat(h2, t2, '_', "\\_");
      ReplaceShort(h2, '_', "\\_");
      assert Replace(h2, '_', "\\_") == if text[0] == '_' then "\\_" else h2;
    }
  }

  // ----- searching with the pattern is substring search -----

  function Literals(text: string): seq<Token> {
    seq(|text|, i requires 0 <= i < |text| => Literal(text[i]))
  }

  lemma TokenizeFirst(c: char, tail: string)
    requires Tokenize(tail).Some?
    ensures Tokenize((if IsSpecial(c) then [ESCAPE, c] else [c]) + tail) == Some([Literal(c)] + Tokenize(tail).value)
  {
  }

  lemma LiteralsFirst(text: string, more: seq<Token>)
    requires text != ""
    ensures [Literal(text[0])] + (Literals(text[1..]) + more) == Literals(text) + more
  {
  }

  lemma {:induction false} TokenizeEscaped(text: string, rest: string)
    requires Tokenize(rest).Some?
    ensures Tokenize(EscapeEach(text) + rest) == Some(Literals(text) + Tokenize(rest).value)
  {
    var p := EscapeEach(text) + rest;
    if text == "" {
      assert p == rest;
      assert Literals(text) + Tokenize(rest).value == Tokenize(rest).value;
    } else {
      var tail := EscapeEach(text[1..]) + rest;
      TokenizeEscaped(text[1..], rest);
      assert p == (if IsSpecial(text[0]) then [ESCAPE, text[0]] else [text[0]]) + tail;
      TokenizeFirst(text[0], tail);
      LiteralsFirst(text, Tokenize(rest).value);
    }
  }

  lemma {:induction false} LiteralsThenAny(text: string, s: string)
    ensures Matches(Literals(text) + [AnyRun], s) <==> text <= s
  {
    var ts := Literals(text) + [AnyRun];
    if text == "" {
      assert ts == [AnyRun] && ts[1..] == [];
      assert s[|s|..] == "";
      assert Matches(ts[1..], s[|s|..]);
    } else {
      assert ts[1..] == Literals(text[1..]) + [AnyRun];
      if s != "" {
        LiteralsThenAny(text[1..], s[1..]);
        assert text <= s <==> text[0] == s[0] && text[1..] <= s[1..];
      }
    }
  }

  /** Every search text yields a well-formed pattern that finds it literally, anywhere. */
  lemma PatternIsSubstringSearch(text: string, s: string)
    ensures Tokenize(LikePattern(text)).Some?
    ensures Like(s, LikePattern(text)) <==> Contains(s, text)
  {
    EscapedIsPerCharacter(text);
    var tail := EscapeEach(text) + "%";
    assert Tokenize("%") == Some([AnyRun]) by { assert "%"[1..] == "" && [AnyRun] + [] == [AnyRun]; }
    TokenizeEscaped(text, "%");
    var ts := Literals(text) + [AnyRun];
    assert LikePattern(text) == "%" + tail && ("%" + tail)[1..] == tail;
    var all := [AnyRun] + ts;
    assert Tokenize(LikePattern(text)) == Some(all);
    assert all[1..] == ts;
    forall k | 0 <= k <= |s| ensures Matches(ts, s[k..]) <==> text <= s[k..] {
      LiteralsThenAny(text, s[k..]);
    }
  }

  // ----- ILIKE: both sides folded character by character -----

  function Fold(f: char -> char, s: string): string {
    seq(|s|, i requires 0 <= i < |s| => f(s[i]))
  }

  /** A case fold leaves the three special characters alone and makes no new ones. */
  ghost predicate IsCaseFold(f: char -> char) {
    forall c :: if IsSpecial(c) then f(c) == c else !IsSpecial(f(c))
  }

  lemma FoldConcat(f: char -> char, a: string, b: string)
    ensures Fold(f, a + b) == Fold(f, a) + Fold(f, b)
  {
  }

  lemma {:induction false} FoldEscaped(f: char -> char, text: string)
    requires IsCaseFold(f)
    ensures Fold(f, EscapeEach(text)) == EscapeEach(Fold(f, text))
  {
    if text == "" {
    } else {
      FoldEscaped(f, text[1..]);
      assert Fold(f, text)[1..] == Fold(f, text[1..]);
      var head := if IsSpecial(text[0]) then [ESCAPE, text[0]] else [text[0]];
      FoldConcat(f, head, EscapeEach(text[1..]));
    }
  }

  lemma IlikeIsFoldedSubstringSearch(f: char -> char, text: string, s: string)
    requires IsCaseFold(f)
    ensures Like(Fold(f, s), Fold(f, LikePattern(text))) <==> Contains(Fold(f, s), Fold(f, text))
  {
    EscapedIsPerCharacter(text);
    EscapedIsPerCharacter(Fold(f, text));
    FoldEscaped(f, text);
    assert Fold(f, LikePattern(text)) == LikePattern(Fold(f, text));
    PatternIsSubstringSearch(Fold(f, text), Fold(f, s));
  }
}
