/**
 Print/parse round trip for template expressions: every well-formed syntax tree, printed with any
 amount of inner whitespace and any extra parentheses, is evaluated by `resolve` to its meaning.
 */
module TemplateSyntax {
  import opened Prelude
  import opened TemplateExpr

  datatype Tree =
    | Word(value: Value)
    | Numeral(negative: bool, whole: string, fraction: string)
    | Quoted(quote: char, content: string)
    | Path(head: string, segs: Segs)
    | Not(pad: string, arg: Tree)
    | Equal(left: Tree, padL: string, op: EqOp, padR: string, right: Tree)
    | Paren(padL: string, inner: Tree, padR: string)

  datatype Segs = End | Dot(name: string, rest: Segs) | Index(padL: string, key: Tree, padR: string, rest: Segs)

  function OpText(op: EqOp): string {
    (if op.negated then "!" else "=") + (if op.strict then "==" else "=")
  }

  function WordText(v: Value): string {
    match v
    case Bool(b) => if b then "true" else "false"
    case Null => "null"
    case _ => "undefined"
  }

  function NumeralText(negative: bool, whole: string, fraction: string): string {
    (if negative then "-" else "") + (whole + if fraction == "" then "" else "." + fraction)
  }

  function Power(n: nat): (p: int)
    ensures p > 0
  {
    if n == 0 then 1 else 10 * Power(n - 1)
  }

  /** The digits on both sides of the point, read as one number, over a power of ten. */
  function NumeralValue(negative: bool, whole: string, fraction: string): real {
    var size := Digits(whole + fraction) as real / Power(|fraction|) as real;
    if negative then -size else size
  }

  function Print(t: Tree): string {
    match t
    case Word(value) => WordText(value)
    case Numeral(negative, whole, fraction) => NumeralText(negative, whole, fraction)
    case Quoted(q, content) => [q] + content + [q]
    case Path(head, segs) => head + PrintSegs(segs)
    case Not(pad, arg) => "!" + (pad + Print(arg))
    case Equal(l, padL, op, padR, r) => (Print(l) + padL) + (OpText(op) + (padR + Print(r)))
    case Paren(padL, inner, padR) => "(" + (padL + Print(inner) + padR) + ")"
  }

  function PrintSegs(s: Segs): string {
    match s
    case End => ""
    case Dot(name, rest) => ("." + name) + PrintSegs(rest)
    case Index(padL, key, padR, rest) => ("[" + (padL + Print(key) + padR) + "]") + PrintSegs(rest)
  }

  ghost function Meaning(h: Host, vals: Value, t: Tree): Value
    requires WellFormed(t)
  {
    match t
    case Word(value) => value
    case Numeral(negative, whole, fraction) => Num(NumeralValue(negative, whole, fraction))
    case Quoted(_, content) => Str(content)
    case Path(head, segs) => Followed(h, vals, segs, Member(h, vals, Str(head)))
    case Not(_, arg) => Bool(!Truthy(Meaning(h, vals, arg)))
    case Equal(l, _, op, _, r) => Compare(h, op, Meaning(h, vals, l), Meaning(h, vals, r))
    case Paren(_, inner, _) => Meaning(h, vals, inner)
  }

  ghost function Followed(h: Host, vals: Value, s: Segs, cur: Value): Value
    requires WellFormedSegs(s)
  {
    match s
    case End => cur
    case Dot(name, rest) => Followed(h, vals, rest, Member(h, cur, Str(name)))
    case Index(_, key, _, rest) => Followed(h, vals, rest, Member(h, cur, Meaning(h, vals, key)))
  }

  /** Only white space and line terminators of ECMAScript. */
  ghost predicate Blank(s: string) {
    forall i | 0 <= i < |s| ::
      s[i] in {'\t', '\n', '\U{0B}', '\U{0C}', '\r', ' ', '\U{A0}', '\U{1680}', '\U{2000}', '\U{2001}', '\U{2002}',
               '\U{2003}', '\U{2004}', '\U{2005}', '\U{2006}', '\U{2007}', '\U{2008}', '\U{2009}', '\U{200A}',
               '\U{2028}', '\U{2029}', '\U{202F}', '\U{205F}', '\U{3000}', '\U{FEFF}'}
  }

  predicate IsKeyword(s: string) {
    Keyword(s).Some?
  }

  predicate Plain(c: char) {
    c !in {'(', ')', '[', ']'}
  }

  /** A string literal may hold anything in which brackets match and no operator stands outside them. */
  ghost predicate SafeText(s: string) {
    (forall m :: Balanced(m, s)) && NoPair(s)
  }

  predicate Decimal(s: string) {
    forall i | 0 <= i < |s| :: '0' <= s[i] <= '9'
  }

  /** Letters, digits, underscores and dollar signs, not starting with a digit. */
  predicate IsName(s: string) {
    s != "" && !('0' <= s[0] <= '9') &&
    forall i | 0 <= i < |s| ::
      'A' <= s[i] <= 'Z' || 'a' <= s[i] <= 'z' || '0' <= s[i] <= '9' || s[i] == '_' || s[i] == '$'
  }

  lemma NamesAndDigits(s: string)
    ensures IsName(s) <==> IsIdent(s)
    ensures s != "" && Decimal(s) <==> AllDigits(s)
  {
  }

  /** The operand of `!` and the left operand of an operator must not be a bare comparison;
      the right operand may be one, since the leftmost operator splits the text. */
  ghost predicate WellFormed(t: Tree) {
    match t
    case Word(value) => value.Bool? || value.Null? || value.Undefined?
    case Numeral(_, whole, fraction) => whole != "" && Decimal(whole) && Decimal(fraction)
    case Quoted(q, content) => (q == '"' || q == '\'') && SafeText(content)
    case Path(head, segs) =>
      IsName(head) && WellFormedSegs(segs) && (segs.End? ==> head !in {"true", "false", "null", "undefined"})
    case Not(pad, arg) => Blank(pad) && WellFormed(arg) && !arg.Equal?
    case Equal(l, padL, _, padR, r) => WellFormed(l) && !l.Equal? && Blank(padL) && Blank(padR) && WellFormed(r)
    case Paren(padL, inner, padR) => Blank(padL) && WellFormed(inner) && Blank(padR)
  }

  ghost predicate WellFormedSegs(s: Segs) {
    match s
    case End => true
    case Dot(name, rest) => (IsName(name) || (name != "" && Decimal(name))) && WellFormedSegs(rest)
    case Index(padL, key, padR, rest) => Blank(padL) && WellFormed(key) && Blank(padR) && WellFormedSegs(rest)
  }

  // ----- trimming -----

  /** Nonempty, with no whitespace at either end. */
  predicate Tight(s: string) {
    s != "" && !IsSpace(s[0]) && !IsSpace(s[|s| - 1])
  }

  lemma {:induction false} TrimStartPadded(pad: string, s: string)
    requires Blank(pad) && (s == "" || !IsSpace(s[0]))
    ensures TrimStart(pad + s) == s
  {
    if pad == "" {
      assert pad + s == s;
    } else {
      assert (pad + s)[1..] == pad[1..] + s;
      TrimStartPadded(pad[1..], s);
    }
  }

  lemma {:induction false} TrimEndPadded(s: string, pad: string)
    requires Blank(pad) && (s == "" || !IsSpace(s[|s| - 1]))
    ensures TrimEnd(s + pad) == s
  {
    if pad == "" {
      assert s + pad == s;
    } else {
      assert (s + pad)[..|s + pad| - 1] == s + pad[..|pad| - 1];
      TrimEndPadded(s, pad[..|pad| - 1]);
    }
  }

  lemma TrimPadded(padL: string, s: string, padR: string)
    requires Blank(padL) && Blank(padR) && Tight(s)
    ensures Trim(padL + s + padR) == s && Trim(s) == s
  {
    assert padL + s + padR == padL + (s + padR);
    TrimStartPadded(padL, s + padR);
    TrimEndPadded(s, padR);
    TrimStartPadded("", s);
    TrimEndPadded(s, "");
    assert "" + s == s && s + "" == s;
  }

  /** Surrounding whitespace never matters. */
  lemma PaddingIsIgnored(h: Host, vals: Value, padL: string, s: string, padR: string)
    requires Blank(padL) && Blank(padR) && Tight(s)
    ensures Resolved(h, vals, padL + s + padR) == Resolved(h, vals, s)
  {
    hide ResolvedTrimmed, Trim;
    TrimPadded(padL, s, padR);
  }

  // ----- depth -----

  lemma {:induction false} DepthConcat(m: Mode, a: string, b: string)
    ensures Depth(m, a + b) == Depth(m, a) + Depth(m, b)
  {
    if b == "" {
      assert a + b == a;
    } else {
      assert (a + b)[..|a + b| - 1] == a + b[..|b| - 1];
      DepthConcat(m, a, b[..|b| - 1]);
    }
  }

  /** Never below its starting depth, and back at it in the end. */
  ghost predicate Balanced(m: Mode, s: string) {
    (forall k | 0 <= k <= |s| :: Depth(m, s[..k]) >= 0) && Depth(m, s) == 0
  }

  lemma {:induction false} PlainIsBalanced(m: Mode, s: string)
    requires forall i | 0 <= i < |s| :: Plain(s[i])
    ensures Balanced(m, s)
  {
    forall k | 0 <= k <= |s| ensures Depth(m, s[..k]) == 0 {
      PlainDepth(m, s[..k]);
    }
    assert s[..|s|] == s;
  }

  lemma {:induction false} PlainDepth(m: Mode, s: string)
    requires forall i | 0 <= i < |s| :: Plain(s[i])
    ensures Depth(m, s) == 0
  {
    if s != "" { PlainDepth(m, s[..|s| - 1]); }
  }

  lemma PrefixOfConcat(a: string, b: string, k: nat)
    requires k <= |a| + |b|
    ensures (a + b)[..k] == if k <= |a| then a[..k] else a + b[..k - |a|]
  {
  }

  lemma BalancedConcat(m: Mode, a: string, b: string)
    requires Balanced(m, a) && Balanced(m, b)
    ensures Balanced(m, a + b)
  {
    forall k | 0 <= k <= |a + b| ensures Depth(m, (a + b)[..k]) >= 0 {
      PrefixOfConcat(a, b, k);
      if k > |a| { DepthConcat(m, a, b[..k - |a|]); }
    }
    DepthConcat(m, a, b);
  }

  predicate Fence(o: char, c: char) {
    (o == '(' && c == ')') || (o == '[' && c == ']')
  }

  /** Inside a fence the depth is that of the fence plus that of the text. */
  lemma DepthInFence(m: Mode, o: char, s: string, c: char, k: nat)
    requires Fence(o, c) && 1 <= k <= |s| + 1
    ensures Depth(m, ([o] + s + [c])[..k]) == Delta(m, o) + Depth(m, s[..k - 1])
    ensures Depth(m, [o] + s + [c]) == Depth(m, s)
  {
    DepthOne(m, o);
    DepthOne(m, c);
    hide Depth;
    assert ([o] + s + [c])[..k] == [o] + s[..k - 1];
    DepthConcat(m, [o], s[..k - 1]);
    assert [o] + s + [c] == [o] + (s + [c]);
    DepthConcat(m, [o], s + [c]);
    DepthConcat(m, s, [c]);
  }

  lemma DepthOne(m: Mode, c: char)
    ensures Depth(m, [c]) == Delta(m, c)
  {
    assert [c][..0] == "";
  }

  lemma BalancedFence(m: Mode, o: char, s: string, c: char)
    requires Fence(o, c) && Balanced(m, s)
    ensures Balanced(m, [o] + s + [c])
  {
    var e := [o] + s + [c];
    forall k | 0 <= k <= |e| ensures Depth(m, e[..k]) >= 0 {
      if 1 <= k <= |s| + 1 {
        DepthInFence(m, o, s, c, k);
      } else if k == |e| {
        DepthInFence(m, o, s, c, 1);
        assert e[..k] == e;
      }
    }
    DepthInFence(m, o, s, c, 1);
  }

  // ----- no operator outside brackets -----

  ghost predicate NoPair(s: string) {
    forall i: nat :: !PairAt(s, i)
  }

  predicate EndsClean(s: string) {
    s == "" || !EqChar(s[|s| - 1])
  }

  lemma NoPairConcat(a: string, b: string)
    requires NoPair(a) && NoPair(b) && Balanced(Both, a)
    requires EndsClean(a) || (b != "" && b[0] != '=')
    ensures NoPair(a + b)
  {
    forall i: nat ensures !PairAt(a + b, i) {
      if i <= |a| + |b| { PrefixOfConcat(a, b, i); }
      if i < |a| {
        assert !PairAt(a, i);
      } else if i <= |a| + |b| {
        DepthConcat(Both, a, b[..i - |a|]);
        assert !PairAt(b, i - |a|);
      }
    }
  }

  lemma NoPairFence(o: char, s: string, c: char)
    requires Fence(o, c) && Balanced(Both, s)
    ensures NoPair([o] + s + [c])
  {
    forall i: nat | PairAt([o] + s + [c], i) ensures false {
      if 1 <= i <= |s| { DepthInFence(Both, o, s, c, i); }
    }
  }

  lemma NoPairText(s: string)
    requires forall i | 0 <= i < |s| - 1 && EqChar(s[i]) :: s[i + 1] != '='
    ensures NoPair(s)
  {
  }

  // ----- the shape of printed text -----

  /** What the induction needs to know of a printed tree. */
  ghost predicate Shape(s: string, comparison: bool) {
    Tight(s) && s[0] != '=' && EndsClean(s) && (forall m :: Balanced(m, s)) && (!comparison ==> NoPair(s))
  }

  ghost predicate SegShape(s: string) {
    (s != "" ==> (s[0] == '.' || s[0] == '[') && !IsSpace(s[|s| - 1])) &&
    EndsClean(s) && (forall m :: Balanced(m, s)) && NoPair(s)
  }

  lemma SimpleShape(s: string)
    requires (forall i | 0 <= i < |s| :: Plain(s[i])) &&
        (forall i | 0 <= i < |s| - 1 && EqChar(s[i]) :: s[i + 1] != '=')
    requires Tight(s) && s[0] != '=' && EndsClean(s)
    ensures Shape(s, false)
  {
    forall m { PlainIsBalanced(m, s); }
    NoPairText(s);
  }

  lemma BlankShape(pad: string)
    requires Blank(pad)
    ensures (forall m :: Balanced(m, pad)) && NoPair(pad) && EndsClean(pad)
  {
    forall m { PlainIsBalanced(m, pad); }
    NoPairText(pad);
  }

  lemma {:induction false} SpanPrefix(p: char -> bool, s: string, i: nat)
    requires i <= |s|
    ensures forall j | i <= j < i + Span(p, s, i) :: p(s[j])
    decreases |s| - i
  {
    if i < |s| && p(s[i]) { SpanPrefix(p, s, i + 1); }
  }

  lemma NumberChars(s: string)
    requires IsNumber(s)
    ensures s != "" && (forall i | 0 <= i < |s| :: IsDigit(s[i]) || s[i] == '.' || s[i] == '-')
  {
    var t := Unsigned(s);
    var k := Span(IsDigit, t, 0);
    SpanPrefix(IsDigit, t, 0);
    forall i | 0 <= i < |t| ensures IsDigit(t[i]) || t[i] == '.' {
      if i > k { assert t[i] == t[k + 1..][i - k - 1]; }
    }
    forall i | 0 <= i < |s| ensures IsDigit(s[i]) || s[i] == '.' || s[i] == '-' {
      if t != s && i > 0 { assert s[i] == t[i - 1]; }
    }
  }

  predicate Lower(s: string) {
    s != "" && forall i | 0 <= i < |s| :: 'a' <= s[i] <= 'z'
  }

  lemma KeywordChars(s: string)
    requires IsKeyword(s)
    ensures Lower(s)
  {
  }

  lemma LitShape(text: string)
    requires IsKeyword(text) || IsNumber(text)
    ensures Shape(text, false)
  {
    hide Keyword, IsNumber;
    if IsKeyword(text) { KeywordChars(text); } else { NumberChars(text); }
    SimpleShape(text);
  }

  lemma WordReads(v: Value)
    requires v.Bool? || v.Null? || v.Undefined?
    ensures Keyword(WordText(v)) == Some(v)
  {
  }

  lemma {:induction false} DigitsConcat(a: string, b: string)
    ensures Digits(a + b) == Digits(a) * Power(|b|) + Digits(b)
  {
    hide *;
    if b == "" {
      assert a + b == a;
      NoDigits();
    } else {
      var n := |b| - 1;
      DigitsConcat(a, b[..n]);
      DigitsSnoc(a + b[..n], b[n]);
      DigitsSnoc(b[..n], b[n]);
      PowerNext(n);
      assert a + b == (a + b[..n]) + [b[n]] && b == b[..n] + [b[n]];
      TenTimes(Digits(a), Power(n), Digits(b[..n]));
    }
  }

  lemma NoDigits()
    ensures Digits("") == 0 && Power(0) == 1
  {
  }

  lemma PowerNext(n: nat)
    ensures Power(n + 1) == 10 * Power(n)
  {
  }

  lemma TenTimes(x: int, p: int, y: int)
    ensures 10 * (x * p + y) == x * (10 * p) + 10 * y
  {
  }

  lemma DigitsSnoc(s: string, c: char)
    ensures Digits(s + [c]) == 10 * Digits(s) + (c as int - '0' as int)
  {
    assert (s + [c])[..|s|] == s;
  }

  lemma {:induction false} ShiftedIs(x: real, n: nat)
    ensures Shifted(x, n) == x / Power(n) as real
  {
    if n > 0 {
      ShiftedIs(x, n - 1);
      DivTwice(x, Power(n - 1) as real, 10.0);
    }
  }

  lemma DivTwice(x: real, p: real, q: real)
    requires p > 0.0 && q > 0.0
    ensures (x / p) / q == x / (q * p)
  {
    var y := (x / p) / q;
    assert y * q == x / p;
    assert y * q * p == x;
    assert y * (q * p) == x;
  }

  lemma DivAdd(a: int, b: int, p: int)
    requires p > 0
    ensures a as real + b as real / p as real == (a * p + b) as real / p as real
  {
    var x, y := b as real / p as real, (a * p) as real / p as real;
    assert (a * p) as real == a as real * p as real;
    assert y == a as real;
  }

  lemma NumeralScan(negative: bool, whole: string, fraction: string)
    requires whole != "" && Decimal(whole) && Decimal(fraction)
    ensures var e := NumeralText(negative, whole, fraction);
            var t := Unsigned(e);
            IsNumber(e) && (e[0] == '-') == negative && Span(IsDigit, t, 0) == |whole| && t[..|whole|] == whole &&
            if fraction == "" then |t| == |whole| else |t| > |whole| && t[|whole| + 1..] == fraction
  {
    var e := NumeralText(negative, whole, fraction);
    var t := whole + if fraction == "" then "" else "." + fraction;
    UnsignedScan(whole, fraction);
    hide Span, AllDigits;
    if negative { assert e[1..] == t; } else { assert e == t; }
  }

  lemma UnsignedScan(whole: string, fraction: string)
    requires whole != "" && Decimal(whole) && Decimal(fraction)
    ensures var t := whole + if fraction == "" then "" else "." + fraction;
            Span(IsDigit, t, 0) == |whole| && t[..|whole|] == whole && t[0] != '-' &&
            if fraction == "" then |t| == |whole|
            else |t| > |whole| && t[|whole|] == '.' && t[|whole| + 1..] == fraction && AllDigits(fraction)
  {
    var t := whole + if fraction == "" then "" else "." + fraction;
    SpanExactly(IsDigit, t, 0, |whole|);
    assert t[..|whole|] == whole;
    if fraction != "" {
      assert t[|whole| + 1..] == fraction;
      NamesAndDigits(fraction);
    }
  }

  lemma SizeSplits(whole: string, fraction: string)
    ensures Digits(whole) as real + Shifted(Digits(fraction) as real, |fraction|)
         == Digits(whole + fraction) as real / Power(|fraction|) as real
  {
    hide *;
    DigitsConcat(whole, fraction);
    ShiftedIs(Digits(fraction) as real, |fraction|);
    DivAdd(Digits(whole), Digits(fraction), Power(|fraction|));
  }

  /** A numeral is read as the number it denotes. */
  lemma NumeralReads(negative: bool, whole: string, fraction: string)
    requires whole != "" && Decimal(whole) && Decimal(fraction)
    ensures var e := NumeralText(negative, whole, fraction);
            IsNumber(e) && NumberOf(e) == NumeralValue(negative, whole, fraction)
  {
    NumeralScan(negative, whole, fraction);
    SizeSplits(whole, fraction);
    hide IsNumber, NumeralText, Unsigned, Span;
    if fraction == "" { assert whole + fraction == whole && Digits(fraction) == 0; }
  }

  lemma QuotedShape(q: char, content: string)
    requires IsQuote(q) && SafeText(content)
    ensures Shape([q] + content + [q], false)
  {
    var e := [q] + content;
    forall m ensures Balanced(m, e) && Balanced(m, e + [q]) {
      PlainIsBalanced(m, [q]);
      BalancedConcat(m, [q], content);
      BalancedConcat(m, e, [q]);
    }
    NoPairText([q]);
    PlainIsBalanced(Both, [q]);
    NoPairConcat([q], content);
    assert Balanced(Both, e);
    NoPairConcat(e, [q]);
  }

  lemma PaddedShape(padL: string, s: string, padR: string)
    requires Blank(padL) && Blank(padR) && Shape(s, true)
    ensures forall m :: Balanced(m, padL + s + padR)
  {
    BlankShape(padL);
    BlankShape(padR);
    forall m ensures Balanced(m, padL + s + padR) {
      BalancedConcat(m, padL, s);
      BalancedConcat(m, padL + s, padR);
    }
  }

  lemma FenceShape(o: char, s: string, c: char)
    requires Fence(o, c) && forall m :: Balanced(m, s)
    ensures Shape([o] + s + [c], false)
  {
    forall m ensures Balanced(m, [o] + s + [c]) { BalancedFence(m, o, s, c); }
    NoPairFence(o, s, c);
  }

  lemma NotShape(pad: string, s: string)
    requires Blank(pad) && Shape(s, false)
    ensures Shape("!" + (pad + s), false)
  {
    BlankShape(pad);
    assert Balanced(Both, pad);
    NoPairConcat(pad, s);
    NoPairText("!");
    PlainIsBalanced(Both, "!");
    assert (pad + s)[0] != '=';
    NoPairConcat("!", pad + s);
    forall m ensures Balanced(m, "!" + (pad + s)) {
      BalancedConcat(m, pad, s);
      PlainIsBalanced(m, "!");
      BalancedConcat(m, "!", pad + s);
    }
  }

  lemma EqualShape(l: string, padL: string, op: EqOp, padR: string, r: string)
    requires Shape(l, false) && Blank(padL) && Blank(padR) && Shape(r, true)
    ensures Shape((l + padL) + (OpText(op) + (padR + r)), true)
  {
    BlankShape(padL);
    BlankShape(padR);
    forall m ensures Balanced(m, (l + padL) + (OpText(op) + (padR + r))) {
      BalancedConcat(m, l, padL);
      BalancedConcat(m, padR, r);
      PlainIsBalanced(m, OpText(op));
      BalancedConcat(m, OpText(op), padR + r);
      BalancedConcat(m, l + padL, OpText(op) + (padR + r));
    }
  }

  lemma PathShape(head: string, segs: string)
    requires IsIdent(head) && SegShape(segs)
    ensures Shape(head + segs, false)
  {
    SimpleShape(head);
    assert Balanced(Both, head);
    NoPairConcat(head, segs);
    forall m ensures Balanced(m, head + segs) { BalancedConcat(m, head, segs); }
  }

  lemma SegShapeConcat(a: string, b: string)
    requires Shape(a, false) && (a[0] == '.' || a[0] == '[') && SegShape(b)
    ensures SegShape(a + b)
  {
    assert Balanced(Both, a);
    NoPairConcat(a, b);
    forall m ensures Balanced(m, a + b) { BalancedConcat(m, a, b); }
  }

  lemma {:induction false} PrintShape(t: Tree)
    requires WellFormed(t)
    ensures Shape(Print(t), t.Equal?)
    decreases t
  {
    match t
    case Word(value) =>
      WordReads(value);
      LitShape(WordText(value));
    case Numeral(negative, whole, fraction) =>
      NumeralReads(negative, whole, fraction);
      LitShape(NumeralText(negative, whole, fraction));
    case Quoted(q, content) => QuotedShape(q, content);
    case Path(head, segs) =>
      PrintSegsShape(segs);
      PathShape(head, PrintSegs(segs));
    case Not(pad, arg) =>
      PrintShape(arg);
      NotShape(pad, Print(arg));
    case Equal(l, padL, op, padR, r) =>
      PrintShape(l);
      PrintShape(r);
      EqualShape(Print(l), padL, op, padR, Print(r));
    case Paren(padL, inner, padR) =>
      PrintShape(inner);
      PaddedShape(padL, Print(inner), padR);
      FenceShape('(', padL + Print(inner) + padR, ')');
  }

  lemma {:induction false} PrintSegsShape(s: Segs)
    requires WellFormedSegs(s)
    ensures SegShape(PrintSegs(s))
    decreases s
  {
    match s
    case End =>
      forall m { PlainIsBalanced(m, ""); }
    case Dot(name, rest) =>
      PrintSegsShape(rest);
      SimpleShape("." + name);
      SegShapeConcat("." + name, PrintSegs(rest));
    case Index(padL, key, padR, rest) =>
      PrintSegsShape(rest);
      PrintShape(key);
      PaddedShape(padL, Print(key), padR);
      FenceShape('[', padL + Print(key) + padR, ']');
      SegShapeConcat("[" + (padL + Print(key) + padR) + "]", PrintSegs(rest));
  }

  // ----- the evaluator on printed text -----

  lemma NoPairNoOperator(e: string)
    requires NoPair(e)
    ensures FindOperator(e, 0) == None
  {
  }

  /** Text that is neither parenthesised, negated nor a comparison is a literal or a path. */
  lemma AtomResolves(h: Host, vals: Value, e: string)
    requires Shape(e, false) && e[0] != '(' && e[0] != '!'
    ensures Literal(e).Some? ==> Resolved(h, vals, e) == Literal(e).value
    ensures Literal(e).None? && IdentAt(e, 0) > 0 ==>
              Resolved(h, vals, e) == Walked(h, vals, e, IdentAt(e, 0), Member(h, vals, Str(e[..IdentAt(e, 0)])))
  {
    TrimPadded("", e, "");
    NoPairNoOperator(e);
  }

  lemma NegationResolves(h: Host, vals: Value, pad: string, arg: string)
    requires Blank(pad) && Shape(arg, false)
    ensures Resolved(h, vals, "!" + (pad + arg)) == Bool(!Truthy(Resolved(h, vals, arg)))
  {
    var e := "!" + (pad + arg);
    NotShape(pad, arg);
    TrimPadded("", e, "");
    NoPairNoOperator(e);
    PaddingIsIgnored(h, vals, pad, arg, "");
    assert e[1..] == pad + arg + "";
  }

  lemma ParenResolves(h: Host, vals: Value, padL: string, inner: string, padR: string)
    requires Blank(padL) && Blank(padR) && Shape(inner, true)
    ensures Resolved(h, vals, "(" + (padL + inner + padR) + ")") == Resolved(h, vals, inner)
  {
    var s := padL + inner + padR;
    var e := "(" + s + ")";
    PaddedShape(padL, inner, padR);
    FenceShape('(', s, ')');
    TrimPadded("", e, "");
    forall i | 0 <= i < |e| - 1 && e[i] == ')' ensures Depth(Parens, e[..i + 1]) != 0 {
      assert Balanced(Parens, s);
      DepthInFence(Parens, '(', s, ')', i + 1);
    }
    assert e[1..|e| - 1] == s;
    PaddingIsIgnored(h, vals, padL, inner, padR);
  }

  /** The operator between two printed operands is the leftmost one, and reads as printed. */
  lemma OperatorFound(l: string, padL: string, op: EqOp, padR: string, r: string)
    requires Shape(l, false) && Blank(padL) && Blank(padR) && Shape(r, true)
    ensures var e, i := (l + padL) + (OpText(op) + (padR + r)), |l + padL|;
            FindOperator(e, 0) == Some(i) && OperatorOf(e, i) == op && OperatorLength(e, i) == |OpText(op)|
  {
    var left, rest := l + padL, padR + r;
    var e, i := left + (OpText(op) + rest), |left|;
    LeftOperand(l, padL);
    assert rest != "" && rest[0] != '=' by { if padR == "" { assert rest == r; } }
    OperatorReads(left, op, rest);
    forall j | 0 <= j < i ensures !OperatorAt(e, j) {
      PrefixOfConcat(left, OpText(op) + rest, j);
      assert !PairAt(left, j);
    }
    LeastOperator(e, 0, i);
  }

  lemma LeftOperand(l: string, padL: string)
    requires Shape(l, false) && Blank(padL)
    ensures NoPair(l + padL) && EndsClean(l + padL) && Depth(Both, l + padL) == 0 && Trim(l + padL) != ""
  {
    BlankShape(padL);
    assert Balanced(Both, l) && Balanced(Both, padL);
    NoPairConcat(l, padL);
    DepthConcat(Both, l, padL);
    TrimPadded("", l, padL);
    assert "" + l + padL == l + padL;
  }

  lemma OperatorReads(left: string, op: EqOp, rest: string)
    requires left != "" && EndsClean(left) && Depth(Both, left) == 0 && Trim(left) != "" && rest != "" && rest[0] != '='
    ensures var e, i := left + (OpText(op) + rest), |left|;
            OperatorAt(e, i) && OperatorOf(e, i) == op && OperatorLength(e, i) == |OpText(op)|
  {
  }

  lemma {:induction false} LeastOperator(e: string, from: nat, i: nat)
    requires from <= i < |e| && OperatorAt(e, i) && forall j | from <= j < i :: !OperatorAt(e, j)
    ensures FindOperator(e, from) == Some(i)
    decreases i - from
  {
  }

  lemma SplitResolves(h: Host, vals: Value, e: string, i: nat)
    requires Trim(e) == e && e != "" && FindOperator(e, 0) == Some(i)
    requires e[0] == '(' && e[|e| - 1] == ')' ==> !WrapsWhole(e)
    ensures i + OperatorLength(e, i) <= |e|
    ensures Resolved(h, vals, e)
         == Compare(h, OperatorOf(e, i), Resolved(h, vals, e[..i]), Resolved(h, vals, e[i + OperatorLength(e, i)..]))
  {
  }

  /** Text that goes on after its first group is not one group. */
  lemma GroupThenMore(l: string, more: string)
    requires Balanced(Parens, l) && l != "" && l[|l| - 1] == ')' && more != ""
    ensures !WrapsWhole(l + more)
  {
    var e := l + more;
    assert e[..|l| - 1 + 1] == l;
    assert e[|l| - 1] == ')' && Depth(Parens, e[..|l| - 1 + 1]) == 0;
  }

  lemma EqualResolves(h: Host, vals: Value, l: string, padL: string, op: EqOp, padR: string, r: string)
    requires Shape(l, false) && Blank(padL) && Blank(padR) && Shape(r, true)
    requires l[0] == '(' ==> l[|l| - 1] == ')'
    ensures Resolved(h, vals, (l + padL) + (OpText(op) + (padR + r)))
         == Compare(h, op, Resolved(h, vals, l), Resolved(h, vals, r))
  {
    hide Resolved, Compare, FindOperator, OperatorLength, OperatorOf, Trim, WrapsWhole;
    var e, i := (l + padL) + (OpText(op) + (padR + r)), |l + padL|;
    EqualShape(l, padL, op, padR, r);
    TrimPadded("", e, "");
    OperatorFound(l, padL, op, padR, r);
    if e[0] == '(' {
      assert Balanced(Parens, l);
      GroupThenMore(l, padL + (OpText(op) + (padR + r)));
      assert e == l + (padL + (OpText(op) + (padR + r)));
    }
    SplitResolves(h, vals, e, i);
    assert e[..i] == "" + l + padL;
    PaddingIsIgnored(h, vals, "", l, padL);
    assert e[i + |OpText(op)|..] == padR + r + "";
    PaddingIsIgnored(h, vals, padR, r, "");
  }

  // ----- paths -----

  lemma {:induction false} SpanExactly(p: char -> bool, s: string, i: nat, j: nat)
    requires i <= j <= |s| && (forall k | i <= k < j :: p(s[k])) && (j < |s| ==> !p(s[j]))
    ensures Span(p, s, i) == j - i
    decreases j - i
  {
    if i < j { SpanExactly(p, s, i + 1, j); }
  }

  ghost predicate SegStart(s: string, i: nat) {
    i <= |s| && (i < |s| ==> s[i] == '.' || s[i] == '[')
  }

  lemma NameRead(s: string, i: nat, j: nat)
    requires i < j && SegStart(s, j) && (IsIdent(s[i..j]) || AllDigits(s[i..j]))
    ensures NameAt(s, i) == j - i && (IsIdent(s[i..j]) ==> IdentAt(s, i) == j - i)
  {
    forall k | i <= k < j ensures s[k] == s[i..j][k - i] {}
    if IsIdent(s[i..j]) {
      SpanExactly(IsIdentPart, s, i + 1, j);
    } else {
      SpanExactly(IsDigit, s, i, j);
    }
  }

  lemma {:induction false} CloseFound(e: string, from: nat, j: nat, q: nat)
    requires from <= j <= q < |e| && e[q] == ']' && Balanced(Brackets, e[from..q])
    ensures FindClose(e, from, j) == Some(q)
    decreases q - j
  {
    if j < q {
      assert e[from..j + 1] == e[from..q][..j + 1 - from];
      CloseFound(e, from, j + 1, q);
    } else {
      assert e[from..q + 1][..q - from] == e[from..q];
    }
  }

  lemma DotWalked(h: Host, vals: Value, e: string, i: nat, name: string, tail: string, cur: Value)
    requires i <= |e| && e[i..] == ("." + name) + tail && SegStart(tail, 0) && (IsIdent(name) || AllDigits(name))
    ensures var j := i + 1 + |name|;
            j <= |e| && e[j..] == tail && Walked(h, vals, e, i, cur) == Walked(h, vals, e, j, Member(h, cur, Str(name)))
  {
    hide NameAt, Member, IsIdent, AllDigits, IdentAt;
    DotSlices(e, i, name, tail);
    assert name != "" by { NameNotEmpty(name); }
    NameRead(e, i + 1, i + 1 + |name|);
  }

  lemma NameNotEmpty(name: string)
    requires IsIdent(name) || AllDigits(name)
    ensures name != ""
  {
  }

  lemma DotSlices(e: string, i: nat, name: string, tail: string)
    requires i <= |e| && e[i..] == ("." + name) + tail && SegStart(tail, 0)
    ensures var j := i + 1 + |name|; j <= |e| && e[i] == '.' && e[i + 1..j] == name && e[j..] == tail && SegStart(e, j)
  {
  }

  lemma IndexWalked(h: Host, vals: Value, e: string, i: nat, inner: string, tail: string, cur: Value)
    requires i <= |e| && e[i..] == ("[" + inner + "]") + tail && Balanced(Brackets, inner)
    ensures var j := i + 2 + |inner|;
            j <= |e| && e[j..] == tail &&
            Walked(h, vals, e, i, cur) == Walked(h, vals, e, j, Member(h, cur, Resolved(h, vals, inner)))
  {
    hide Resolved, Member, Balanced;
    var q := i + 1 + |inner|;
    BracketSlices(e, i, inner, tail);
    CloseFound(e, i + 1, i + 1, q);
  }

  lemma BracketSlices(e: string, i: nat, inner: string, tail: string)
    requires i <= |e| && e[i..] == ("[" + inner + "]") + tail
    ensures var q := i + 1 + |inner|;
            q < |e| && e[i] == '[' && e[i + 1..q] == inner && e[q] == ']' && e[q + 1..] == tail
  {
  }

  lemma PathEnds(h: Host, vals: Value, e: string, i: nat, cur: Value)
    requires i <= |e| && e[i..] == ""
    ensures Walked(h, vals, e, i, cur) == cur
  {
  }

  lemma SegsStart(s: Segs)
    requires WellFormedSegs(s)
    ensures SegStart(PrintSegs(s), 0)
  {
  }

  lemma {:induction false} PathWalked(h: Host, vals: Value, e: string, i: nat, s: Segs, cur: Value)
    requires WellFormedSegs(s) && i <= |e| && e[i..] == PrintSegs(s)
    ensures Walked(h, vals, e, i, cur) == Followed(h, vals, s, cur)
    decreases s, 0
  {
    hide Resolved, Member, Shape, Walked, IsIdent, AllDigits, IsName, Decimal, Blank, Meaning;
    match s
    case End => PathEnds(h, vals, e, i, cur);
    case Dot(name, rest) =>
      SegsStart(rest);
      NamesAndDigits(name);
      DotWalked(h, vals, e, i, name, PrintSegs(rest), cur);
      PathWalked(h, vals, e, i + 1 + |name|, rest, Member(h, cur, Str(name)));
    case Index(padL, key, padR, rest) =>
      KeyResolves(h, vals, padL, key, padR);
      IndexWalked(h, vals, e, i, padL + Print(key) + padR, PrintSegs(rest), cur);
      PathWalked(h, vals, e, i + 2 + |padL + Print(key) + padR|, rest, Member(h, cur, Meaning(h, vals, key)));
  }

  lemma {:induction false} KeyResolves(h: Host, vals: Value, padL: string, key: Tree, padR: string)
    requires Blank(padL) && Blank(padR) && WellFormed(key)
    ensures Balanced(Brackets, padL + Print(key) + padR)
    ensures Resolved(h, vals, padL + Print(key) + padR) == Meaning(h, vals, key)
    decreases key, 1
  {
    hide Resolved;
    PrintShape(key);
    PaddedShape(padL, Print(key), padR);
    PaddingIsIgnored(h, vals, padL, Print(key), padR);
    RoundTrip(h, vals, key);
  }

  lemma NotANumber(e: string)
    requires e != "" && !IsDigit(e[0]) && e[0] != '-' && e[0] != '.'
    ensures !IsNumber(e)
  {
  }

  lemma PathNotLiteral(head: string, segs: Segs)
    requires WellFormed(Path(head, segs))
    ensures Literal(Print(Path(head, segs))) == None
  {
    var e := head + PrintSegs(segs);
    NamesAndDigits(head);
    NotANumber(e);
    hide IsNumber;
    if segs.End? {
      assert e == head && !IsKeyword(e);
      assert !IsQuote(e[0]);
    } else {
      hide Keyword;
      SegsStart(segs);
      assert !Lower(e) by { assert e[|head|] == PrintSegs(segs)[0]; }
      if IsKeyword(e) { KeywordChars(e); }
    }
  }

  lemma ParenFirst(t: Tree)
    requires WellFormed(t) && !t.Equal? && Print(t) != "" && Print(t)[0] == '('
    ensures t.Paren? && Print(t)[|Print(t)| - 1] == ')'
  {
  }

  lemma QuotedIsLiteral(q: char, content: string)
    requires IsQuote(q)
    ensures Literal([q] + content + [q]) == Some(Str(content))
  {
    var e := [q] + content + [q];
    NotANumber(e);
    hide IsNumber;
    assert e[1..|e| - 1] == content;
    assert !Lower(e);
    if IsKeyword(e) { KeywordChars(e); }
  }

  lemma WordIsLiteral(text: string)
    requires IsKeyword(text) || IsNumber(text)
    ensures Literal(text).Some? && text != "" && text[0] != '(' && text[0] != '!'
  {
    if !IsKeyword(text) { NumberChars(text); }
  }

  lemma AtomRoundTrip(h: Host, vals: Value, t: Tree)
    requires WellFormed(t) && (t.Word? || t.Numeral? || t.Quoted?)
    ensures Resolved(h, vals, Print(t)) == Meaning(h, vals, t)
  {
    PrintShape(t);
    match t {
      case Word(value) =>
        WordReads(value);
        WordIsLiteral(WordText(value));
      case Numeral(negative, whole, fraction) =>
        NumeralReads(negative, whole, fraction);
        NumberNotKeyword(NumeralText(negative, whole, fraction));
        WordIsLiteral(NumeralText(negative, whole, fraction));
      case Quoted(q, content) => QuotedIsLiteral(q, content);
    }
    hide Resolved, Shape, IsNumber, NumberOf, NumeralValue, NumeralText;
    AtomResolves(h, vals, Print(t));
  }

  lemma NumberNotKeyword(e: string)
    requires IsNumber(e)
    ensures !IsKeyword(e)
  {
    NumberChars(e);
    if IsKeyword(e) { KeywordChars(e); }
  }

  lemma PathStart(head: string, segs: Segs)
    requires WellFormed(Path(head, segs))
    ensures var e := head + PrintSegs(segs);
            IdentAt(e, 0) == |head| && e[..|head|] == head && e[|head|..] == PrintSegs(segs) && e[0] == head[0]
  {
    var e := head + PrintSegs(segs);
    PrintSegsShape(segs);
    assert e[0..|head|] == head;
    if |head| < |e| { assert e[|head|] == PrintSegs(segs)[0]; }
    NameRead(e, 0, |head|);
  }

  /** Printing a tree and resolving the text gives the tree's meaning. */
  lemma {:induction false} RoundTrip(h: Host, vals: Value, t: Tree)
    requires WellFormed(t)
    ensures Resolved(h, vals, Print(t)) == Meaning(h, vals, t)
    decreases t, 0
  {
    hide Resolved, Walked, Literal, Compare, Truthy, IdentAt, Shape, IsIdent, IsName;
    PrintShape(t);
    match t
    case Word(_) => AtomRoundTrip(h, vals, t);
    case Numeral(_, _, _) => AtomRoundTrip(h, vals, t);
    case Quoted(_, _) => AtomRoundTrip(h, vals, t);
    case Path(head, segs) =>
      PathNotLiteral(head, segs);
      PathStart(head, segs);
      NamesAndDigits(head);
      PathFirst(head);
      AtomResolves(h, vals, Print(t));
      PathWalked(h, vals, Print(t), |head|, segs, Member(h, vals, Str(head)));
    case Not(pad, arg) =>
      PrintShape(arg);
      RoundTrip(h, vals, arg);
      NegationResolves(h, vals, pad, Print(arg));
    case Equal(l, padL, op, padR, r) =>
      PrintShape(l);
      PrintShape(r);
      RoundTrip(h, vals, l);
      RoundTrip(h, vals, r);
      OperandShape(l);
      OperandShape(r);
      EqualResolves(h, vals, Print(l), padL, op, padR, Print(r));
    case Paren(padL, inner, padR) =>
      PrintShape(inner);
      OperandShape(inner);
      RoundTrip(h, vals, inner);
      ParenResolves(h, vals, padL, Print(inner), padR);
  }

  lemma PathFirst(head: string)
    requires IsIdent(head)
    ensures head != "" && head[0] != '(' && head[0] != '!'
  {
  }

  lemma OperandShape(t: Tree)
    requires WellFormed(t)
    ensures Shape(Print(t), true)
    ensures !t.Equal? ==> (Print(t)[0] == '(' ==> Print(t)[|Print(t)| - 1] == ')')
  {
    PrintShape(t);
    if !t.Equal? && Print(t)[0] == '(' { ParenFirst(t); }
  }

  /** A string literal on its own survives exactly when nothing in it reads as an operator. */
  lemma QuotedLiteralIff(h: Host, vals: Value, q: char, content: string)
    requires IsQuote(q)
    ensures Resolved(h, vals, [q] + content + [q]) == Str(content) <==> FindOperator([q] + content + [q], 0) == None
  {
    var e := [q] + content + [q];
    TrimPadded("", e, "");
    hide Trim, IsNumber, FindOperator, OperatorLength, OperatorOf, WrapsWhole;
    QuotedIsLiteral(q, content);
    hide Literal;
  }

  /** A chain of comparisons without parentheses groups to the right. */
  lemma ChainGroupsRight(h: Host, vals: Value, l: Tree, op: EqOp, m: Tree, op': EqOp, r: Tree)
    requires WellFormed(l) && WellFormed(m) && WellFormed(r) && !l.Equal? && !m.Equal?
    ensures Resolved(h, vals, Print(l) + (OpText(op) + (Print(m) + (OpText(op') + Print(r)))))
         == Compare(h, op, Meaning(h, vals, l), Compare(h, op', Meaning(h, vals, m), Meaning(h, vals, r)))
  {
    hide Resolved, Compare, OpText;
    var inner := Equal(m, "", op', "", r);
    RoundTrip(h, vals, Equal(l, "", op, "", inner));
    assert Print(inner) == Print(m) + (OpText(op') + Print(r)) by {
      assert Print(m) + "" == Print(m) && "" + Print(r) == Print(r);
    }
    assert Print(l) + "" == Print(l) && "" + Print(inner) == Print(inner);
  }

  /** When both groupings of a strict chain agree. Without a boolean among the outer values they do exactly
      when both operators are negated alike. With one boolean, exactly when it equals the negation of its own
      operator if and only if the other two values are equal. With two, exactly when the middle value is boolean
      too or they are equal. */
  lemma GroupingsAgreeIff(h: Host, a: Value, n: bool, b: Value, n': bool, c: Value)
    ensures var op, op' := EqOp(n, true), EqOp(n', true);
            Compare(h, op, a, Compare(h, op', b, c)) == Compare(h, op', Compare(h, op, a, b), c) <==>
            if a.Bool? && c.Bool? then b.Bool? || a == c
            else if a.Bool? then (a.b == n) == StrictEq(b, c)
            else if c.Bool? then (c.b == n') == StrictEq(a, b)
            else n == n'
  {
  }

  /** `null===null===true`: JavaScript groups to the left and would find this chain true. */
  lemma ChainDiffers(h: Host, vals: Value)
    ensures Resolved(h, vals, "null" + ("===" + ("null" + ("===" + "true")))) == Bool(false)
    ensures var op := EqOp(false, true); Compare(h, op, Compare(h, op, Null, Null), Bool(true)) == Bool(true)
  {
    var nul, yes, op := Word(Null), Word(Bool(true)), EqOp(false, true);
    hide Resolved;
    ChainGroupsRight(h, vals, nul, op, nul, op, yes);
    assert OpText(op) == "===";
  }

  /** A quoted text that reads as a comparison is not its content. */
  lemma QuotedComparison(h: Host, vals: Value)
    ensures Resolved(h, vals, ['\''] + "a==b" + ['\'']) != Str("a==b")
  {
    var e := ['\''] + "a==b" + ['\''];
    hide Resolved;
    QuotedLiteralIff(h, vals, '\'', "a==b");
    assert e[..2] == "'a";
    PlainDepth(Both, e[..2]);
    TrimPadded("", "'a", "");
    assert "" + "'a" + "" == "'a";
    hide Depth, Trim;
    assert OperatorAt(e, 2);
  }

  // ----- the tables of the language -----

  lemma {:induction false} BlankTrims(s: string)
    ensures Blank(s) <==> Trim(s) == ""
  {
    TrimStartBlank(s);
    if TrimStart(s) != "" { TrimEndKeepsFirst(TrimStart(s)); }
  }

  lemma {:induction false} TrimStartBlank(s: string)
    ensures Blank(s) <==> TrimStart(s) == ""
    ensures TrimStart(s) != "" ==> !IsSpace(TrimStart(s)[0])
  {
    if s != "" {
      TrimStartBlank(s[1..]);
      assert s == [s[0]] + s[1..];
    }
  }

  lemma {:induction false} TrimEndKeepsFirst(s: string)
    requires s != "" && !IsSpace(s[0])
    ensures TrimEnd(s) != ""
  {
    if IsSpace(s[|s| - 1]) { TrimEndKeepsFirst(s[..|s| - 1]); }
  }

  /** White space alone, and a path broken off after its dot, are nothing to read. */
  lemma NothingToRead(h: Host, vals: Value, s: string, head: string)
    requires IsName(head)
    ensures Blank(s) ==> Resolved(h, vals, s) == Undefined
    ensures Resolved(h, vals, head + ".") == Undefined
  {
    BlankTrims(s);
    var e := head + ".";
    NamesAndDigits(head);
    SimpleShape(e);
    NotANumber(e);
    assert !Lower(e) by { assert e[|head|] == '.'; }
    if IsKeyword(e) { KeywordChars(e); }
    assert e[0..|head|] == head;
    NameRead(e, 0, |head|);
    hide IsNumber, Keyword;
    AtomResolves(h, vals, e);
  }

  /** Which values count as true. */
  lemma TruthTable(v: Value)
    ensures Truthy(v) <==> v !in {Undefined, Null, Bool(false), Num(0.0), NaN, Str("")}
  {
  }

  lemma {:induction false} LeadingZeros(zeros: string, n: nat)
    requires forall i | 0 <= i < |zeros| :: zeros[i] == '0'
    ensures Digits(zeros + NatText(n)) == n
  {
    if zeros == "" {
      NatTextReads(n);
      assert zeros + NatText(n) == NatText(n);
    } else {
      hide NatText;
      LeadingZeros(zeros[1..], n);
      assert zeros + NatText(n) == "0" + (zeros[1..] + NatText(n));
      DigitsConcat("0", zeros[1..] + NatText(n));
      assert Digits("0") == 0 by { DigitsSnoc("", '0'); assert "" + ['0'] == "0"; }
    }
  }

  /** Digits are read as the number `n` they write, with or without leading zeros. `d.f` is the number that `df` writes
      over ten to the length of `f`, and a leading minus negates. */
  lemma NumberReads(h: Host, vals: Value, zeros: string, n: nat, d: string, f: string)
    requires (forall i | 0 <= i < |zeros| :: zeros[i] == '0') && zeros + NatText(n) == d + f && d != ""
    ensures var e, size := if f == "" then d else d + ("." + f), n as real / Power(|f|) as real;
            Resolved(h, vals, e) == Num(size) && Resolved(h, vals, "-" + e) == Num(-size)
  {
    LeadingZeros(zeros, n);
    DecimalParts(zeros, n, d, f);
    NumeralTexts(d, f);
    hide *;
    NumeralResolves(h, vals, false, d, f, n);
    NumeralResolves(h, vals, true, d, f, n);
  }

  /** A whole number is itself. */
  lemma WholeNumberReads(h: Host, vals: Value, n: nat)
    ensures Resolved(h, vals, NatText(n)) == Num(n as real)
  {
    hide Resolved, NatText;
    NumberReads(h, vals, "", n, NatText(n), "");
    assert "" + NatText(n) == NatText(n) + "";
  }

  lemma DecimalParts(zeros: string, n: nat, d: string, f: string)
    requires (forall i | 0 <= i < |zeros| :: zeros[i] == '0') && zeros + NatText(n) == d + f
    ensures Decimal(d) && Decimal(f)
  {
    NatTextReads(n);
    var s := zeros + NatText(n);
    assert Decimal(s);
    assert d == s[..|d|] && f == s[|d|..];
  }

  lemma NumeralTexts(d: string, f: string)
    ensures var e := if f == "" then d else d + ("." + f);
            NumeralText(false, d, f) == e && NumeralText(true, d, f) == "-" + e
  {
  }

  lemma NumeralResolves(h: Host, vals: Value, negative: bool, d: string, f: string, n: nat)
    requires d != "" && Decimal(d) && Decimal(f) && Digits(d + f) == n
    ensures var size := n as real / Power(|f|) as real;
            Resolved(h, vals, NumeralText(negative, d, f)) == Num(if negative then -size else size)
  {
    hide Resolved, Decimal;
    AtomRoundTrip(h, vals, Numeral(negative, d, f));
  }

  /** Abstract equality as ECMAScript lays it down: symmetric, null and undefined equal to each other alone, equality
      within a type, and otherwise by number and by primitive. */
  lemma LooseEqTable(h: Host, x: Value, y: Value)
    ensures LooseEq(h, x, y) == LooseEq(h, y, x)
    ensures x in {Undefined, Null} ==> (LooseEq(h, x, y) <==> y in {Undefined, Null})
    ensures (x.Bool? && y.Bool?) || (x.Num? && y.Num?) || (x.Str? && y.Str?) || (x.Obj? && y.Obj?) ==>
              (LooseEq(h, x, y) <==> x == y)
    ensures x.NaN? && !y.Obj? && !y.Str? ==> !LooseEq(h, x, y)
    ensures x.Num? && y.Str? ==> (LooseEq(h, x, y) <==> h.toNumber(y.s) == x)
    ensures x.Bool? && !y.Bool? ==> LooseEq(h, x, y) == LooseEq(h, Num(if x.b then 1.0 else 0.0), y)
    ensures x.Obj? && !y.Obj? && !h.toPrimitive(x.id).Obj? ==> (LooseEq(h, x, y) <==>
              y !in {Undefined, Null} && LooseEq(h, h.toPrimitive(x.id), y))
  {
  }

  /** What the four operators answer. */
  lemma ComparisonReads(h: Host, vals: Value, l: Tree, r: Tree)
    requires WellFormed(l) && WellFormed(r) && !l.Equal?
    ensures var x, y := Resolved(h, vals, Print(l)), Resolved(h, vals, Print(r));
            Resolved(h, vals, Print(l) + ("===" + Print(r))) == Bool(x == y && x != NaN) &&
            Resolved(h, vals, Print(l) + ("!==" + Print(r))) == Bool(x != y || x == NaN) &&
            Resolved(h, vals, Print(l) + ("==" + Print(r))) == Bool(LooseEq(h, x, y)) &&
            Resolved(h, vals, Print(l) + ("!=" + Print(r))) == Bool(!LooseEq(h, x, y))
  {
    hide Resolved, LooseEq, Print, Meaning;
    RoundTrip(h, vals, l);
    RoundTrip(h, vals, r);
    ComparisonOf(h, vals, l, EqOp(false, true), r);
    ComparisonOf(h, vals, l, EqOp(true, true), r);
    ComparisonOf(h, vals, l, EqOp(false, false), r);
    ComparisonOf(h, vals, l, EqOp(true, false), r);
    OperatorTexts();
  }

  lemma OperatorTexts()
    ensures OpText(EqOp(false, true)) == "===" && OpText(EqOp(true, true)) == "!=="
    ensures OpText(EqOp(false, false)) == "==" && OpText(EqOp(true, false)) == "!="
  {
  }

  lemma ComparisonOf(h: Host, vals: Value, l: Tree, op: EqOp, r: Tree)
    requires WellFormed(l) && WellFormed(r) && !l.Equal?
    ensures Resolved(h, vals, Print(l) + (OpText(op) + Print(r)))
         == Compare(h, op, Meaning(h, vals, l), Meaning(h, vals, r))
  {
    hide Resolved, Compare, OpText;
    RoundTrip(h, vals, Equal(l, "", op, "", r));
    assert Print(l) + "" == Print(l) && "" + Print(r) == Print(r);
  }

  ghost predicate Missing(v: Value) {
    v == Undefined || v == Null
  }

  /** A name is looked up in the values, and a further name or key in what came before it; nothing is looked up in
      a missing value. */
  lemma PathReads(h: Host, vals: Value, head: string, name: string, key: Tree)
    requires IsName(head) && head !in {"true", "false", "null", "undefined"}
    requires (IsName(name) || (name != "" && Decimal(name))) && WellFormed(key)
    ensures var v := Resolved(h, vals, head);
            v == (if Missing(vals) then Undefined else h.get(vals, Str(head))) &&
            Resolved(h, vals, head + ("." + name)) == (if Missing(v) then Undefined else h.get(v, Str(name))) &&
            Resolved(h, vals, head + ("[" + Print(key) + "]")) ==
              if Missing(v) then Undefined else h.get(v, Resolved(h, vals, Print(key)))
  {
    hide Resolved, IsName, Decimal;
    assert Print(Path(head, End)) == head;
    RoundTrip(h, vals, Path(head, End));
    DotReads(h, vals, head, name);
    IndexReads(h, vals, head, key);
  }

  lemma DotReads(h: Host, vals: Value, head: string, name: string)
    requires IsName(head) && (IsName(name) || (name != "" && Decimal(name)))
    ensures Resolved(h, vals, head + ("." + name)) == Member(h, Member(h, vals, Str(head)), Str(name))
  {
    hide Resolved, IsName, Decimal, Member;
    var segs := Dot(name, End);
    assert PrintSegs(segs) == "." + name by { assert PrintSegs(End) == ""; }
    assert WellFormedSegs(End);
    RoundTrip(h, vals, Path(head, segs));
    var v := Member(h, vals, Str(head));
    assert Meaning(h, vals, Path(head, segs)) == Followed(h, vals, segs, v);
    assert Followed(h, vals, segs, v) == Followed(h, vals, End, Member(h, v, Str(name)));
    PathText(head, segs);
  }

  lemma IndexReads(h: Host, vals: Value, head: string, key: Tree)
    requires IsName(head) && WellFormed(key)
    ensures Resolved(h, vals, head + ("[" + Print(key) + "]"))
         == Member(h, Member(h, vals, Str(head)), Resolved(h, vals, Print(key)))
  {
    hide Resolved, IsName, Member, Print;
    var segs := Index("", key, "", End);
    assert PrintSegs(segs) == "[" + Print(key) + "]" by {
      assert PrintSegs(End) == "" && "" + Print(key) + "" == Print(key);
    }
    assert WellFormedSegs(End);
    RoundTrip(h, vals, key);
    RoundTrip(h, vals, Path(head, segs));
    assert Meaning(h, vals, Path(head, segs)) == Followed(h, vals, segs, Member(h, vals, Str(head)));
    PathText(head, segs);
  }

  lemma PathText(head: string, segs: Segs)
    ensures Print(Path(head, segs)) == head + PrintSegs(segs)
  {
  }
}
