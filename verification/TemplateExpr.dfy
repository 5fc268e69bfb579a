/**
 The expression evaluator of the template runtime: `resolve`, `parensWrapWhole`,
 `findTopLevelEquality` and `resolvePath` of ui_mockups/LC Connect Admin Dashboard/support.js.

 The evaluator rescans its text at every level. It is compared with the meaning of a syntax tree:
 every tree, printed in any of its layouts, evaluates to its meaning.
 */
module TemplateExpr {
  import opened Prelude

  // ----- values -----

  datatype Value = Undefined | Null | Bool(b: bool) | Num(n: real) | NaN | Str(s: string) | Obj(id: nat)

  /** What the JavaScript engine supplies: property lookup on a value that is neither null nor
      undefined, string to number, and object to primitive conversion. */
  datatype Host = Host(get: (Value, Value) -> Value, toNumber: string -> Value, toPrimitive: nat -> Value)

  predicate Nullish(v: Value) {
    v.Undefined? || v.Null?
  }

  predicate Truthy(v: Value) {
    match v
    case Undefined => false
    case Null => false
    case Bool(b) => b
    case Num(n) => n != 0.0
    case NaN => false
    case Str(s) => s != ""
    case Obj(_) => true
  }

  predicate StrictEq(x: Value, y: Value) {
    x == y && !x.NaN?
  }

  function Primitive(h: Host, v: Value): Value {
    match v
    case Obj(id) => h.toPrimitive(id)
    case _ => v
  }

  function Numeric(h: Host, v: Value): Value {
    match v
    case Bool(b) => Num(if b then 1.0 else 0.0)
    case Str(s) => h.toNumber(s)
    case _ => v
  }

  predicate LooseEq(h: Host, x: Value, y: Value) {
    if x.Obj? && y.Obj? then x == y
    else if Nullish(x) || Nullish(y) then Nullish(x) && Nullish(y)
    else
      var x', y' := Primitive(h, x), Primitive(h, y);
      if Nullish(x') || Nullish(y') then Nullish(x') && Nullish(y')
      else if x'.Str? && y'.Str? then x' == y'
      else StrictEq(Numeric(h, x'), Numeric(h, y'))
  }

  datatype EqOp = EqOp(negated: bool, strict: bool)

  function Compare(h: Host, op: EqOp, x: Value, y: Value): Value {
    var same := if op.strict then StrictEq(x, y) else LooseEq(h, x, y);
    Bool(same != op.negated)
  }

  function Member(h: Host, base: Value, key: Value): Value {
    if Nullish(base) then Undefined else h.get(base, key)
  }

  // ----- characters and tokens -----

  predicate IsSpace(c: char) {
    var n := c as int;
    9 <= n <= 13 || n == 32 || n == 160 || n == 5760 || 8192 <= n <= 8202 || n in {8232, 8233, 8239, 8287, 12288, 65279}
  }

  predicate IsDigit(c: char) {
    '0' <= c <= '9'
  }

  predicate IsIdentStart(c: char) {
    'A' <= c <= 'Z' || 'a' <= c <= 'z' || c == '_' || c == '$'
  }

  predicate IsIdentPart(c: char) {
    IsIdentStart(c) || IsDigit(c)
  }

  function TrimStart(s: string): (t: string)
    ensures |t| <= |s|
  {
    if s != "" && IsSpace(s[0]) then TrimStart(s[1..]) else s
  }

  function TrimEnd(s: string): (t: string)
    ensures |t| <= |s|
  {
    if s != "" && IsSpace(s[|s| - 1]) then TrimEnd(s[..|s| - 1]) else s
  }

  function Trim(s: string): (t: string)
    ensures |t| <= |s|
  {
    TrimEnd(TrimStart(s))
  }

  /** Length of the longest prefix of `s` from position `i` on whose characters satisfy `p`. */
  function Span(p: char -> bool, s: string, i: nat): (n: nat)
    requires i <= |s|
    ensures i + n <= |s|
    decreases |s| - i
  {
    if i < |s| && p(s[i]) then 1 + Span(p, s, i + 1) else 0
  }

  /** Length of the match of `[A-Za-z_$][A-Za-z0-9_$]*` at `i`; 0 when there is none. */
  function IdentAt(s: string, i: nat): (n: nat)
    requires i <= |s|
    ensures i + n <= |s|
  {
    if i < |s| && IsIdentStart(s[i]) then 1 + Span(IsIdentPart, s, i + 1) else 0
  }

  /** The property name after a dot: an identifier or a run of digits. */
  function NameAt(s: string, i: nat): (n: nat)
    requires i <= |s|
    ensures i + n <= |s|
  {
    var n := IdentAt(s, i);
    if n > 0 then n else Span(IsDigit, s, i)
  }

  predicate AllDigits(s: string) {
    s != "" && forall i | 0 <= i < |s| :: IsDigit(s[i])
  }

  predicate IsIdent(s: string) {
    s != "" && IsIdentStart(s[0]) && forall i | 0 <= i < |s| :: IsIdentPart(s[i])
  }

  function Unsigned(s: string): string {
    if s != "" && s[0] == '-' then s[1..] else s
  }

  /** `^-?\d+(\.\d+)?$` */
  predicate IsNumber(s: string) {
    var t := Unsigned(s);
    var k := Span(IsDigit, t, 0);
    k > 0 && (k == |t| || (t[k] == '.' && AllDigits(t[k + 1..])))
  }

  function Digits(s: string): int {
    if s == "" then 0 else 10 * Digits(s[..|s| - 1]) + (s[|s| - 1] as int - '0' as int)
  }

  /** The text JavaScript gives a natural number. */
  function NatText(n: nat): (s: string)
    ensures s != ""
  {
    (if n < 10 then "" else NatText(n / 10)) + [(n % 10 + '0' as int) as char]
  }

  lemma {:induction false} NatTextReads(n: nat)
    ensures Digits(NatText(n)) == n
    ensures forall i | 0 <= i < |NatText(n)| :: IsDigit(NatText(n)[i])
  {
    var s := NatText(n);
    var last := [(n % 10 + '0' as int) as char];
    if n < 10 {
      assert s == last && s[..0] == "";
    } else {
      NatTextReads(n / 10);
      assert s[..|s| - 1] == NatText(n / 10);
    }
  }

  function Shifted(x: real, places: nat): real {
    if places == 0 then x else Shifted(x, places - 1) / 10.0
  }

  function NumberOf(s: string): real
    requires IsNumber(s)
  {
    var t := Unsigned(s);
    var k := Span(IsDigit, t, 0);
    var whole := Digits(t[..k]) as real;
    var size := if k == |t| then whole else whole + Shifted(Digits(t[k + 1..]) as real, |t| - k - 1);
    if s[0] == '-' then -size else size
  }

  predicate IsQuote(c: char) {
    c == '"' || c == '\''
  }

  function Keyword(e: string): Option<Value> {
    if e == "true" then Some(Bool(true))
    else if e == "false" then Some(Bool(false))
    else if e == "null" then Some(Null)
    else if e == "undefined" then Some(Undefined)
    else None
  }

  /** The keyword, number and quoted-string branches, in the source's order. */
  function Literal(e: string): Option<Value> {
    if Keyword(e).Some? then Keyword(e)
    else if IsNumber(e) then Some(Num(NumberOf(e)))
    else if |e| >= 2 && IsQuote(e[0]) && e[|e| - 1] == e[0] then Some(Str(e[1..|e| - 1]))
    else None
  }

  // ----- depth scanning -----

  /** Which delimiters a scan counts. */
  datatype Mode = Parens | Brackets | Both

  function Delta(m: Mode, c: char): int {
    if (c == '(' && !m.Brackets?) || (c == '[' && !m.Parens?) then 1
    else if (c == ')' && !m.Brackets?) || (c == ']' && !m.Parens?) then -1
    else 0
  }

  /** Net depth after scanning all of `s`. */
  function Depth(m: Mode, s: string): int {
    if s == "" then 0 else Depth(m, s[..|s| - 1]) + Delta(m, s[|s| - 1])
  }

  /** No parenthesis closes back to depth zero before the last character. */
  ghost predicate WrapsWhole(e: string) {
    forall i | 0 <= i < |e| - 1 && e[i] == ')' :: Depth(Parens, e[..i + 1]) != 0
  }

  predicate EqChar(c: char) {
    c == '=' || c == '!'
  }

  predicate PairAt(e: string, i: nat) {
    i + 1 < |e| && EqChar(e[i]) && e[i + 1] == '=' && Depth(Both, e[..i]) == 0
  }

  /** An equality operator outside all brackets, with an operand before it. */
  predicate OperatorAt(e: string, i: nat) {
    PairAt(e, i) && !(i > 0 && EqChar(e[i - 1])) && Trim(e[..i]) != ""
  }

  function OperatorLength(e: string, i: nat): nat {
    if i + 2 < |e| && e[i + 2] == '=' then 3 else 2
  }

  function OperatorOf(e: string, i: nat): EqOp
    requires i < |e|
  {
    EqOp(e[i] == '!', OperatorLength(e, i) == 3)
  }

  /** The leftmost operator at or after `i`; it never starts the text. */
  function FindOperator(e: string, i: nat): (r: Option<nat>)
    ensures r.Some? ==> 0 < r.value && r.value + OperatorLength(e, r.value) <= |e|
    ensures r.Some? ==> i <= r.value && OperatorAt(e, r.value) && forall j | i <= j < r.value :: !OperatorAt(e, j)
    ensures r.None? ==> forall j | i <= j :: !OperatorAt(e, j)
    decreases |e| - i
  {
    assert e[..0] == "";
    if i >= |e| then None
    else if OperatorAt(e, i) then Some(i) else FindOperator(e, i + 1)
  }

  /** The bracket that closes one opened just before `from`, searched for at or after `j`. */
  function FindClose(e: string, from: nat, j: nat): (r: Option<nat>)
    requires from <= j <= |e|
    ensures r.Some? ==> j <= r.value < |e|
    decreases |e| - j
  {
    if j == |e| then None
    else if Depth(Brackets, e[from..j + 1]) == -1 then Some(j)
    else FindClose(e, from, j + 1)
  }

  // ----- what the evaluator computes -----

  ghost function Resolved(h: Host, vals: Value, src: string): Value
    decreases |src|, |src| + 2
  {
    ResolvedTrimmed(h, vals, Trim(src))
  }

  ghost function ResolvedTrimmed(h: Host, vals: Value, e: string): Value
    decreases |e|, |e| + 1
  {
    if e == "" then Undefined
    else if e[0] == '(' && e[|e| - 1] == ')' && WrapsWhole(e) then Resolved(h, vals, e[1..|e| - 1])
    else match FindOperator(e, 0)
      case Some(i) =>
        Compare(h, OperatorOf(e, i), Resolved(h, vals, e[..i]), Resolved(h, vals, e[i + OperatorLength(e, i)..]))
      case None =>
        if e[0] == '!' then Bool(!Truthy(Resolved(h, vals, e[1..])))
        else if Literal(e).Some? then Literal(e).value
        else if IdentAt(e, 0) == 0 then Undefined
        else Walked(h, vals, e, IdentAt(e, 0), Member(h, vals, Str(e[..IdentAt(e, 0)])))
  }

  /** The path loop from position `i`, with `cur` resolved so far. */
  ghost function Walked(h: Host, vals: Value, e: string, i: nat, cur: Value): Value
    requires i <= |e|
    decreases |e|, |e| - i
  {
    if i == |e| then cur
    else if e[i] == '.' then
      var n := NameAt(e, i + 1);
      if n == 0 then Undefined
      else Walked(h, vals, e, i + 1 + n, Member(h, cur, Str(e[i + 1..i + 1 + n])))
    else if e[i] == '[' then
      match FindClose(e, i + 1, i + 1)
      case None => Undefined
      case Some(j) => Walked(h, vals, e, j + 1, Member(h, cur, Resolved(h, vals, e[i + 1..j])))
    else Undefined
  }

  // ----- the evaluator -----

  lemma DepthSnoc(m: Mode, s: string, i: nat)
    requires i < |s|
    ensures Depth(m, s[..i + 1]) == Depth(m, s[..i]) + Delta(m, s[i])
  {
    assert s[..i + 1][..i] == s[..i];
  }

  method ParensWrapWhole(expr: string) returns (whole: bool)
    ensures whole == WrapsWhole(expr)
  {
    var depth, i := 0, 0;
    while i < |expr| - 1
      invariant 0 <= i && (i <= |expr| - 1 || i == 0) && depth == Depth(Parens, expr[..i])
      invariant forall k | 0 <= k < i && expr[k] == ')' :: Depth(Parens, expr[..k + 1]) != 0
    {
      DepthSnoc(Parens, expr, i);
      if expr[i] == '(' {
        depth := depth + 1;
      } else if expr[i] == ')' {
        depth := depth - 1;
        if depth == 0 {
          return false;
        }
      }
      i := i + 1;
    }
    return true;
  }

  method FindTopLevelEquality(expr: string) returns (at: Option<nat>)
    ensures at == FindOperator(expr, 0)
  {
    var depth, i := 0, 0;
    while i < |expr|
      invariant 0 <= i <= |expr| && depth == Depth(Both, expr[..i])
      invariant FindOperator(expr, 0) == FindOperator(expr, i)
    {
      DepthSnoc(Both, expr, i);
      var c := expr[i];
      if c == '[' || c == '(' {
        depth := depth + 1;
      } else if c == ']' || c == ')' {
        depth := depth - 1;
      } else if depth == 0 && EqChar(c) && i + 1 < |expr| && expr[i + 1] == '=' {
        if !(i > 0 && EqChar(expr[i - 1])) {
          if Trim(expr[..i]) != "" {
            return Some(i);
          }
        }
      }
      i := i + 1;
    }
    return None;
  }

  /** Terminates on every text, and computes `Resolved`. */
  method Resolve(h: Host, vals: Value, src: string) returns (v: Value)
    ensures v == Resolved(h, vals, src)
    decreases |src|, |src| + 2
  {
    hide Trim, Literal, Compare, WrapsWhole, FindOperator, OperatorLength, OperatorOf, Truthy, Member;
    var e := Trim(src);
    if e == "" {
      return Undefined;
    }
    if e[0] == '(' && e[|e| - 1] == ')' {
      var whole := ParensWrapWhole(e);
      if whole {
        v := Resolve(h, vals, e[1..|e| - 1]);
        return;
      }
    }
    var at := FindTopLevelEquality(e);
    if at.Some? {
      var i := at.value;
      var left := Resolve(h, vals, e[..i]);
      var right := Resolve(h, vals, e[i + OperatorLength(e, i)..]);
      return Compare(h, OperatorOf(e, i), left, right);
    }
    if e[0] == '!' {
      var arg := Resolve(h, vals, e[1..]);
      return Bool(!Truthy(arg));
    }
    if Literal(e).Some? {
      return Literal(e).value;
    }
    v := ResolvePath(h, vals, e);
  }

  method ClosingBracket(expr: string, from: nat) returns (close: Option<nat>)
    requires from <= |expr|
    ensures close == FindClose(expr, from, from)
  {
    var depth, j := 1, from;
    while j < |expr|
      invariant from <= j <= |expr| && depth == 1 + Depth(Brackets, expr[from..j])
      invariant FindClose(expr, from, from) == FindClose(expr, from, j)
    {
      assert expr[from..j + 1][..j - from] == expr[from..j];
      if expr[j] == '[' {
        depth := depth + 1;
      } else if expr[j] == ']' {
        depth := depth - 1;
      }
      if depth == 0 {
        return Some(j);
      }
      j := j + 1;
    }
    return None;
  }

  method ResolvePath(h: Host, vals: Value, expr: string) returns (v: Value)
    ensures v == if IdentAt(expr, 0) == 0 then Undefined
                 else Walked(h, vals, expr, IdentAt(expr, 0), Member(h, vals, Str(expr[..IdentAt(expr, 0)])))
    decreases |expr|, |expr|
  {
    hide Member, NameAt, IdentAt, FindClose, Resolved;
    var i := IdentAt(expr, 0);
    if i == 0 {
      return Undefined;
    }
    var cur := Member(h, vals, Str(expr[..i]));
    ghost var result := Walked(h, vals, expr, i, cur);
    while i < |expr|
      invariant 0 <= i <= |expr| && result == Walked(h, vals, expr, i, cur)
    {
      if expr[i] == '.' {
        var n := NameAt(expr, i + 1);
        if n == 0 {
          return Undefined;
        }
        cur := Member(h, cur, Str(expr[i + 1..i + 1 + n]));
        i := i + 1 + n;
      } else if expr[i] == '[' {
        var close := ClosingBracket(expr, i + 1);
        if close == None {
          return Undefined;
        }
        var j := close.value;
        var key := Resolve(h, vals, expr[i + 1..j]);
        cur := Member(h, cur, key);
        i := j + 1;
      } else {
        return Undefined;
      }
    }
    return cur;
  }
}
