/** The template expression evaluator (`docs/design/support.js`, `src/expr.ts`): what a text evaluates to, and that a
    fully parenthesised expression tree evaluates to its value.

    The first half is the evaluator, its loops proved against the recursive scans that say what they find. The second
    half reads printed trees: `Balanced` and `Neat` say that a printed part neither opens nor closes anything around
    it, so each scan passes over it, and the evaluator finds in the text exactly the operator that was printed. */
module Expressions {
  import opened Options
  import opened Characters

  // ---- Values -------------------------------------------------------------------------------------------

  datatype Value = Undefined | Null | Bool(b: bool) | Number(n: real) | NaN | Text(s: string) | Object(id: nat)

  /** The values a template sees, what a property of a value is, and what JavaScript's `==` says of two values. */
  datatype World = World(vals: Value, property: (Value, Value) -> Value, loosely: (Value, Value) -> bool)

  predicate IsNullish(v: Value) { v.Undefined? || v.Null? }

  predicate Truthy(v: Value) {
    match v
    case Undefined => false
    case Null => false
    case Bool(b) => b
    case Number(n) => n != 0.0
    case NaN => false
    case Text(s) => s != ""
    case Object(_) => true
  }

  predicate StrictlyEqual(a: Value, b: Value) { a == b && !a.NaN? }

  function Property(w: World, v: Value, key: Value): Value { if IsNullish(v) then Undefined else w.property(v, key) }

  datatype Op = Same | NotSame | Alike | NotAlike

  function OpText(op: Op): (t: string)
    ensures 2 <= |t| <= 3 && t[1] == '='
  {
    match op case Same => "===" case NotSame => "!==" case Alike => "==" case NotAlike => "!="
  }

  function Compare(w: World, op: Op, a: Value, b: Value): Value {
    match op
    case Same => Bool(StrictlyEqual(a, b))
    case NotSame => Bool(!StrictlyEqual(a, b))
    case Alike => Bool(w.loosely(a, b))
    case NotAlike => Bool(!w.loosely(a, b))
  }

  // ---- Characters and words -----------------------------------------------------------------------------

  /** What `String.prototype.trim` takes off. */
  const BLANKS: seq<(int, int)> := [
    (0x09, 0x0D), (0x20, 0x20), (0xA0, 0xA0), (0x1680, 0x1680), (0x2000, 0x200A), (0x2028, 0x2029), (0x202F, 0x202F),
    (0x205F, 0x205F), (0x3000, 0x3000), (0xFEFF, 0xFEFF)]

  predicate IsBlank(c: char) { InRanges(c as int, BLANKS) }

  predicate AllBlank(t: string) { forall i | 0 <= i < |t| :: IsBlank(t[i]) }

  function Trim(t: string): (r: string)
    ensures |r| <= |t|
    decreases |t|
  {
    if t != [] && IsBlank(t[0]) then Trim(t[1..])
    else if t != [] && IsBlank(t[|t| - 1]) then Trim(t[..|t| - 1])
    else t
  }

  predicate IsIdentStart(c: char) { IsUpper(c) || IsLower(c) || c == '_' || c == '$' }

  predicate IsIdentChar(c: char) { IsIdentStart(c) || IsAsciiDigit(c) }

  function IdentRun(t: string, i: nat): (k: nat)
    requires i <= |t|
    ensures i <= k <= |t| && (k < |t| ==> !IsIdentChar(t[k])) && forall j | i <= j < k :: IsIdentChar(t[j])
    decreases |t| - i
  {
    if i < |t| && IsIdentChar(t[i]) then IdentRun(t, i + 1) else i
  }

  function DigitRun(t: string, i: nat): (k: nat)
    requires i <= |t|
    ensures i <= k <= |t| && (k < |t| ==> !IsAsciiDigit(t[k])) && forall j | i <= j < k :: IsAsciiDigit(t[j])
    decreases |t| - i
  {
    if i < |t| && IsAsciiDigit(t[i]) then DigitRun(t, i + 1) else i
  }

  /** Where the identifier that starts at `i` ends; `i` when none does. */
  function IdentEnd(t: string, i: nat): (k: nat)
    requires i <= |t|
    ensures i <= k <= |t|
  {
    if i < |t| && IsIdentStart(t[i]) then IdentRun(t, i) else i
  }

  /** The name after a dot: an identifier, or else a run of digits. */
  function NameEnd(t: string, i: nat): (k: nat)
    requires i <= |t|
    ensures i <= k <= |t|
  {
    if IdentEnd(t, i) > i then IdentEnd(t, i) else DigitRun(t, i)
  }

  /** `/^-?\d+(\.\d+)?$/`. */
  predicate IsNumber(t: string) {
    var start := if t != [] && t[0] == '-' then 1 else 0;
    var whole := DigitRun(t, start);
    whole > start && (whole == |t| || (t[whole] == '.' && whole + 1 < |t| && DigitRun(t, whole + 1) == |t|))
  }

  function Digits(t: string, n: nat): (v: int)
    requires n <= |t| && forall i | 0 <= i < n :: IsAsciiDigit(t[i])
  {
    if n == 0 then 0 else 10 * Digits(t, n - 1) + (t[n - 1] as int - '0' as int)
  }

  function Scale(n: nat): (p: int)
    ensures p > 0
  {
    if n == 0 then 1 else 10 * Scale(n - 1)
  }

  /** `Number(t)` for such a text, in exact arithmetic. */
  function NumberOf(t: string): Value
    requires IsNumber(t)
  {
    var negative := t[0] == '-';
    var start := if negative then 1 else 0;
    var whole := DigitRun(t, start);
    var left, right := t[start..whole], if whole == |t| then [] else t[whole + 1..];
    var size := Digits(left, |left|) as real + Digits(right, |right|) as real / Scale(|right|) as real;
    Number(if negative then -size else size)
  }

  // ---- Scanning -----------------------------------------------------------------------------------------

  /** Which brackets a scan counts. */
  datatype Kind = Round | Square | Either

  function Delta(c: char, kind: Kind): int {
    if c == '(' then (if kind.Square? then 0 else 1)
    else if c == ')' then (if kind.Square? then 0 else -1)
    else if c == '[' then (if kind.Round? then 0 else 1)
    else if c == ']' then (if kind.Round? then 0 else -1)
    else 0
  }

  /** `parensWrapWhole` from `i` on. */
  predicate WrapsFrom(expr: string, i: nat, depth: int)
    requires i <= |expr|
    decreases |expr| - i
  {
    i + 1 >= |expr| ||
    var next := depth + Delta(expr[i], Round);
    if expr[i] == ')' && next == 0 then false else WrapsFrom(expr, i + 1, next)
  }

  method ParensWrapWhole(expr: string) returns (wraps: bool)
    ensures wraps == WrapsFrom(expr, 0, 0)
  {
    var depth := 0;
    var i := 0;
    while i < |expr| - 1
      invariant 0 <= i <= |expr| && WrapsFrom(expr, i, depth) == WrapsFrom(expr, 0, 0)
    {
      if expr[i] == '(' { depth := depth + 1; }
      else if expr[i] == ')' {
        depth := depth - 1;
        if depth == 0 { return false; }
      }
      i := i + 1;
    }
    return true;
  }

  datatype Split = Split(at: nat, op: Op)

  /** The operator that stands at `i`, whose first character is '=' or '!' and whose second is '='. */
  function OpAt(expr: string, i: nat): Op
    requires i + 1 < |expr|
  {
    var long := i + 2 < |expr| && expr[i + 2] == '=';
    if expr[i] == '=' then (if long then Same else Alike) else (if long then NotSame else NotAlike)
  }

  /** An equality operator may be read at `i`. */
  predicate OpensOp(expr: string, i: nat)
    requires i < |expr|
  {
    (expr[i] == '=' || expr[i] == '!') && i + 1 < |expr| && expr[i + 1] == '='
    && !(i > 0 && (expr[i - 1] == '=' || expr[i - 1] == '!')) && Trim(expr[..i]) != []
  }

  /** `findTopLevelEquality` from `i` on. */
  function EqualityFrom(expr: string, i: nat, depth: int): (split: Option<Split>)
    requires i <= |expr|
    ensures split.Some? ==> 0 < split.value.at && split.value.at + |OpText(split.value.op)| <= |expr|
    decreases |expr| - i
  {
    if i == |expr| then None
    else if Delta(expr[i], Either) != 0 then EqualityFrom(expr, i + 1, depth + Delta(expr[i], Either))
    else if depth == 0 && OpensOp(expr, i) then
      Some(Split(i, OpAt(expr, i)))
    else EqualityFrom(expr, i + 1, depth)
  }

  method FindTopLevelEquality(expr: string) returns (split: Option<Split>)
    ensures split == EqualityFrom(expr, 0, 0)
  {
    var depth := 0;
    for i := 0 to |expr|
      invariant EqualityFrom(expr, i, depth) == EqualityFrom(expr, 0, 0)
    {
      var c := expr[i];
      if c == '[' || c == '(' { depth := depth + 1; }
      else if c == ']' || c == ')' { depth := depth - 1; }
      else if depth == 0 && (c == '=' || c == '!') && i + 1 < |expr| && expr[i + 1] == '=' {
        if i > 0 && (expr[i - 1] == '=' || expr[i - 1] == '!') { continue; }
        if Trim(expr[..i]) == [] { continue; }
        return Some(Split(i, OpAt(expr, i)));
      }
    }
    return None;
  }

  /** Where the square bracket opened before `j` closes; the length of the text when it does not. */
  function ClosesAt(expr: string, j: nat, depth: nat): (k: nat)
    requires j <= |expr| && depth > 0
    ensures j <= k <= |expr|
    decreases |expr| - j
  {
    if j == |expr| then j
    else if expr[j] == '[' then ClosesAt(expr, j + 1, depth + 1)
    else if expr[j] == ']' then (if depth == 1 then j else ClosesAt(expr, j + 1, depth - 1))
    else ClosesAt(expr, j + 1, depth)
  }

  // ---- `resolve` ----------------------------------------------------------------------------------------

  /** The keywords, the numbers and the quoted texts. */
  function Literal(expr: string): Option<Value> {
    if expr == "true" then Some(Bool(true))
    else if expr == "false" then Some(Bool(false))
    else if expr == "null" then Some(Null)
    else if expr == "undefined" then Some(Undefined)
    else if IsNumber(expr) then Some(NumberOf(expr))
    else if |expr| >= 2 && (expr[0] == '"' || expr[0] == '\'') && expr[|expr| - 1] == expr[0]
    then Some(Text(expr[1..|expr| - 1]))
    else None
  }

  function Resolve(w: World, src: string): Value
    decreases |src|, 3
  {
    var expr := Trim(src);
    if expr == [] then Undefined
    else if expr[0] == '(' && expr[|expr| - 1] == ')' && WrapsFrom(expr, 0, 0) then Resolve(w, expr[1..|expr| - 1])
    else ResolveBare(w, expr)
  }

  /** The value of a trimmed text that no pair of parentheses wraps. */
  function ResolveBare(w: World, expr: string): Value
    requires expr != []
    decreases |expr|, 2
  {
    match EqualityFrom(expr, 0, 0)
    case Some(Split(at, op)) => Compare(w, op, Resolve(w, expr[..at]), Resolve(w, expr[at + |OpText(op)|..]))
    case None =>
      if expr[0] == '!' then Bool(!Truthy(Resolve(w, expr[1..])))
      else match Literal(expr)
        case Some(value) => value
        case None => ResolvePath(w, expr)
  }

  function ResolvePath(w: World, expr: string): Value
    decreases |expr|, 1, 0
  {
    var head := IdentEnd(expr, 0);
    if head == 0 then Undefined else PathFrom(w, expr, head, Property(w, w.vals, Text(expr[..head])))
  }

  /** The rest of a path, `cur` being the value of `expr[..i]`. */
  function PathFrom(w: World, expr: string, i: nat, cur: Value): Value
    requires i <= |expr|
    decreases |expr|, 0, |expr| - i
  {
    if i == |expr| then cur
    else if expr[i] == '.' then
      var end := NameEnd(expr, i + 1);
      if end == i + 1 then Undefined else PathFrom(w, expr, end, Property(w, cur, Text(expr[i + 1..end])))
    else if expr[i] == '[' then
      var j := ClosesAt(expr, i + 1, 1);
      if j == |expr| then Undefined else PathFrom(w, expr, j + 1, Property(w, cur, Resolve(w, expr[i + 1..j])))
    else Undefined
  }

  /** `resolve`. */
  method Evaluate(w: World, src: string) returns (value: Value)
    ensures value == Resolve(w, src)
    decreases |src|, 3
  {
    var expr := Trim(src);
    if expr == [] { return Undefined; }
    if expr[0] == '(' && expr[|expr| - 1] == ')' {
      var wraps := ParensWrapWhole(expr);
      if wraps {
        value := Evaluate(w, expr[1..|expr| - 1]);
        return;
      }
    }
    value := EvaluateBare(w, expr);
  }

  method EvaluateBare(w: World, expr: string) returns (value: Value)
    requires expr != []
    ensures value == ResolveBare(w, expr)
    decreases |expr|, 2
  {
    var eq := FindTopLevelEquality(expr);
    if eq.Some? {
      var at, op := eq.value.at, eq.value.op;
      var lv := Evaluate(w, expr[..at]);
      var rv := Evaluate(w, expr[at + |OpText(op)|..]);
      return Compare(w, op, lv, rv);
    }
    if expr[0] == '!' {
      var negated := Evaluate(w, expr[1..]);
      return Bool(!Truthy(negated));
    }
    var literal := Literal(expr);
    if literal.Some? { return literal.value; }
    value := EvaluatePath(w, expr);
  }

  /** Where the bracket that opens at `i` closes. */
  method BracketEnd(expr: string, i: nat) returns (j: nat)
    requires i < |expr|
    ensures i < j && j == ClosesAt(expr, i + 1, 1)
  {
    var depth := 1;
    j := i + 1;
    while j < |expr| && depth > 0
      invariant i < j <= |expr| && depth > 0 && ClosesAt(expr, i + 1, 1) == ClosesAt(expr, j, depth)
    {
      if expr[j] == '[' {
        depth := depth + 1;
      } else if expr[j] == ']' {
        depth := depth - 1;
        if depth == 0 { break; }
      }
      j := j + 1;
    }
  }

  /** `resolvePath`. */
  method EvaluatePath(w: World, expr: string) returns (cur: Value)
    ensures cur == ResolvePath(w, expr)
    decreases |expr|, 1
  {
    hide Resolve, IdentEnd, NameEnd, ClosesAt;
    var head := IdentEnd(expr, 0);
    if head == 0 { return Undefined; }
    cur := Property(w, w.vals, Text(expr[..head]));
    var i := head;
    while i < |expr|
      invariant i <= |expr| && PathFrom(w, expr, i, cur) == ResolvePath(w, expr)
    {
      if expr[i] == '.' {
        var end := NameEnd(expr, i + 1);
        if end == i + 1 { return Undefined; }
        cur, i := Property(w, cur, Text(expr[i + 1..end])), end;
      } else if expr[i] == '[' {
        var j := BracketEnd(expr, i);
        if j == |expr| { return Undefined; }
        var key := Evaluate(w, expr[i + 1..j]);
        cur, i := Property(w, cur, key), j + 1;
      } else {
        return Undefined;
      }
    }
  }

  // ---- Trees, printed -----------------------------------------------------------------------------------

  /** The parts of a path; `g0` and `g1` are the white space round a key in its brackets. */
  datatype Path =
    | Head(name: string)
    | Dot(base: Path, name: string)
    | Index(base: Path, key: Tree, g0: string, g1: string)

  /** An expression as it is written: each place where white space may stand has its own. */
  datatype Tree =
    | Ref(path: Path)
    | Flag(value: bool) | Nil | Undef
    | Num(minus: bool, whole: string, fraction: string)
    | Quoted(quote: char, s: string)
    | Not(t: Tree, g0: string, g1: string, g2: string)
    | Eq(op: Op, left: Tree, right: Tree, g0: string, g1: string, g2: string, g3: string)

  ghost predicate NameStart(c: char) { 'a' <= c <= 'z' || 'A' <= c <= 'Z' || c == '_' || c == '$' }

  ghost predicate NameChar(c: char) { NameStart(c) || '0' <= c <= '9' }

  ghost predicate IsIdent(t: string) { t != [] && NameStart(t[0]) && forall i | 0 <= i < |t| :: NameChar(t[i]) }

  ghost predicate AllDigits(t: string) { t != [] && forall i | 0 <= i < |t| :: '0' <= t[i] <= '9' }

  /** A character that no scan takes notice of. */
  predicate Plain(c: char) { c != '(' && c != ')' && c != '[' && c != ']' && c != '=' && c != '!' }

  predicate AllPlain(t: string) { forall i | 0 <= i < |t| :: Plain(t[i]) }

  const KEYWORDS := ["true", "false", "null", "undefined"]

  ghost predicate PathOk(p: Path) {
    match p
    case Head(name) => IsIdent(name)
    case Dot(base, name) => PathOk(base) && (IsIdent(name) || AllDigits(name))
    case Index(base, key, g0, g1) => PathOk(base) && TreeOk(key) && AllBlank(g0) && AllBlank(g1)
  }

  /** Names are names, numbers are numbers, a quoted text holds no bracket, parenthesis, '=' or '!', and a path of one
      name is no keyword. */
  ghost predicate TreeOk(t: Tree) {
    match t
    case Ref(p) => PathOk(p) && (p.Head? ==> p.name !in KEYWORDS)
    case Num(_, whole, fraction) => AllDigits(whole) && (fraction == "" || AllDigits(fraction))
    case Quoted(quote, s) => (quote == '"' || quote == '\'') && AllPlain(s)
    case Not(t, g0, g1, g2) => TreeOk(t) && AllBlank(g0) && AllBlank(g1) && AllBlank(g2)
    case Eq(_, a, b, g0, g1, g2, g3) =>
      TreeOk(a) && TreeOk(b) && AllBlank(g0) && AllBlank(g1) && AllBlank(g2) && AllBlank(g3)
    case _ => true
  }

  function PrintNumber(minus: bool, whole: string, fraction: string): string {
    (if minus then "-" else "") + whole + if fraction == "" then "" else "." + fraction
  }

  function PrintPath(p: Path): string {
    match p
    case Head(name) => name
    case Dot(base, name) => PrintPath(base) + "." + name
    case Index(base, key, g0, g1) => PrintPath(base) + "[" + (g0 + Print(key) + g1) + "]"
  }

  /** The tree, fully parenthesised. */
  function Print(t: Tree): string {
    match t
    case Ref(p) => PrintPath(p)
    case Flag(b) => if b then "true" else "false"
    case Nil => "null"
    case Undef => "undefined"
    case Num(minus, whole, fraction) => PrintNumber(minus, whole, fraction)
    case Quoted(quote, s) => [quote] + s + [quote]
    case Not(t, g0, g1, g2) => "(" + (g0 + "!" + g1 + Print(t) + g2) + ")"
    case Eq(op, a, b, g0, g1, g2, g3) => "(" + (g0 + Print(a) + g1 + OpText(op) + g2 + Print(b) + g3) + ")"
  }

  /** What a run of decimal digits is worth, after digits worth `before`. */
  ghost function Worth(digits: string, before: int): int {
    if digits == "" then before else Worth(digits[1..], 10 * before + (digits[0] as int - '0' as int))
  }

  /** What the digits behind the point are worth. */
  ghost function Fraction(digits: string): real {
    if digits == "" then 0.0 else ((digits[0] as int - '0' as int) as real + Fraction(digits[1..])) / 10.0
  }

  /** What a path stands for: no property of undefined or null is ever read. */
  ghost function EvalPath(w: World, p: Path): Value
    requires PathOk(p)
  {
    match p
    case Head(name) => if w.vals == Undefined || w.vals == Null then Undefined else w.property(w.vals, Text(name))
    case Dot(base, name) =>
      var v := EvalPath(w, base);
      if v == Undefined || v == Null then Undefined else w.property(v, Text(name))
    case Index(base, key, _, _) =>
      var v, k := EvalPath(w, base), Eval(w, key);
      if v == Undefined || v == Null then Undefined else w.property(v, k)
  }

  /** What a tree stands for. */
  ghost function Eval(w: World, t: Tree): Value
    requires TreeOk(t)
  {
    match t
    case Ref(p) => EvalPath(w, p)
    case Flag(b) => Bool(b)
    case Nil => Null
    case Undef => Undefined
    case Num(minus, whole, fraction) =>
      var size := Worth(whole, 0) as real + Fraction(fraction);
      Number(if minus then -size else size)
    case Quoted(_, s) => Text(s)
    case Not(t, _, _, _) =>
      var v := Eval(w, t);
      Bool(v == Undefined || v == Null || v == Bool(false) || v == Number(0.0) || v == NaN || v == Text(""))
    case Eq(op, a, b, _, _, _, _) =>
      var x, y := Eval(w, a), Eval(w, b);
      match op
      case Same => Bool(x == y && x != NaN)
      case NotSame => Bool(x != y || x == NaN)
      case Alike => Bool(w.loosely(x, y))
      case NotAlike => Bool(!w.loosely(x, y))
  }

  // ---- What the scans make of a printed tree ------------------------------------------------------------

  function Level(s: string, n: nat, kind: Kind): int
    requires n <= |s|
  {
    if n == 0 then 0 else Level(s, n - 1, kind) + Delta(s[n - 1], kind)
  }

  /** Every bracket closes, and none before it opens. */
  ghost predicate Neutral(s: string, kind: Kind) {
    Level(s, |s|, kind) == 0 && forall n: nat | n <= |s| :: Level(s, n, kind) >= 0
  }

  /** Outside all brackets there is neither '=' nor '!'. */
  ghost predicate Quiet(s: string) {
    forall n: nat | n < |s| && (s[n] == '=' || s[n] == '!') :: Level(s, n, Either) > 0
  }

  ghost predicate Balanced(s: string) { Neutral(s, Round) && Neutral(s, Square) && Neutral(s, Either) }

  lemma {:induction false} LevelConcat(a: string, b: string, n: nat, kind: Kind)
    requires n <= |a + b|
    ensures Level(a + b, n, kind) ==
      if n <= |a| then Level(a, n, kind) else Level(a, |a|, kind) + Level(b, n - |a|, kind)
  {
    if n > 0 {
      LevelConcat(a, b, n - 1, kind);
      if n == |a| + 1 { assert Level(b, 0, kind) == 0; }
    }
  }

  lemma NeutralConcat(a: string, b: string, kind: Kind)
    requires Neutral(a, kind) && Neutral(b, kind)
    ensures Neutral(a + b, kind)
  {
    forall n: nat | n <= |a + b| ensures Level(a + b, n, kind) >= 0 { LevelConcat(a, b, n, kind); }
    LevelConcat(a, b, |a + b|, kind);
    assert |a + b| == |a| ==> b == [];
  }

  lemma Concat(a: string, b: string)
    requires Balanced(a) && Balanced(b)
    ensures Balanced(a + b) && (Quiet(a) && Quiet(b) ==> Quiet(a + b))
  {
    NeutralConcat(a, b, Round);
    NeutralConcat(a, b, Square);
    NeutralConcat(a, b, Either);
    if Quiet(a) && Quiet(b) {
      var s := a + b;
      forall n: nat | n < |s| && (s[n] == '=' || s[n] == '!') ensures Level(s, n, Either) > 0
      {
        LevelConcat(a, b, n, Either);
      }
    }
  }

  predicate NoBrackets(t: string) { forall i | 0 <= i < |t| :: Delta(t[i], Either) == 0 }

  lemma {:induction false} FlatLevel(s: string, n: nat, kind: Kind)
    requires NoBrackets(s) && n <= |s|
    ensures Level(s, n, kind) == 0
  {
    if n > 0 { FlatLevel(s, n - 1, kind); }
  }

  lemma Flat(s: string)
    requires NoBrackets(s)
    ensures Balanced(s) && (AllPlain(s) ==> Quiet(s))
  {
    forall n: nat, kind | n <= |s| ensures Level(s, n, kind) == 0 { FlatLevel(s, n, kind); }
  }

  /** A balanced text in a pair of brackets. */
  lemma Wrapped(open: char, s: string, close: char)
    requires Balanced(s) && ((open == '(' && close == ')') || (open == '[' && close == ']'))
    ensures var t := [open] + s + [close]; Balanced(t) && Quiet(t)
  {
    var t := [open] + s + [close];
    forall n: nat, kind | n <= |t| ensures Level(t, n, kind) == WrappedLevel(open, s, n, kind) {
      WrappedLevelAt(open, s, close, n, kind);
    }
  }

  function WrappedLevel(open: char, s: string, n: nat, kind: Kind): int
    requires n <= |s| + 2
  {
    if n == 0 || n == |s| + 2 then 0 else Delta(open, kind) + Level(s, n - 1, kind)
  }

  lemma {:induction false} WrappedLevelAt(open: char, s: string, close: char, n: nat, kind: Kind)
    requires Balanced(s) && n <= |s| + 2 && ((open == '(' && close == ')') || (open == '[' && close == ']'))
    ensures Level([open] + s + [close], n, kind) == WrappedLevel(open, s, n, kind)
  {
    if n > 0 {
      WrappedLevelAt(open, s, close, n - 1, kind);
      var t := [open] + s + [close];
      assert n == |s| + 2 ==> Level(s, |s|, kind) == 0;
      assert 1 < n < |s| + 2 ==> t[n - 1] == s[n - 2];
      assert Neutral(s, kind);
    }
  }

  /** `s` stands in `expr` at `i`. */
  ghost predicate StandsAt(s: string, expr: string, i: nat) { i + |s| <= |expr| && expr[i..i + |s|] == s }

  lemma CharAt(s: string, expr: string, i: nat, n: nat)
    requires StandsAt(s, expr, i) && n < |s|
    ensures expr[i + n] == s[n]
  {
    assert expr[i..i + |s|][n] == expr[i + n];
  }

  lemma EqualityStep(expr: string, i: nat, depth: int)
    requires i < |expr|
    requires Delta(expr[i], Either) != 0 || depth != 0 || (expr[i] != '=' && expr[i] != '!')
    ensures EqualityFrom(expr, i, depth) == EqualityFrom(expr, i + 1, depth + Delta(expr[i], Either))
  {
  }

  lemma NoLevel(s: string)
    ensures Level(s, 0, Either) == 0
  {
  }

  lemma EqualityPassesOne(expr: string, i: nat, depth: nat, s: string, n: nat)
    requires StandsAt(s, expr, i) && n < |s| && Level(s, n, Either) >= 0
    requires s[n] == '=' || s[n] == '!' ==> Level(s, n, Either) > 0
    ensures EqualityFrom(expr, i + n, depth + Level(s, n, Either)) ==
      EqualityFrom(expr, i + n + 1, depth + Level(s, n + 1, Either))
  {
    CharAt(s, expr, i, n);
    EqualityStep(expr, i + n, depth + Level(s, n, Either));
  }

  lemma NeutralAt(s: string, n: nat)
    requires Neutral(s, Either) && Quiet(s) && n < |s|
    ensures Level(s, n, Either) >= 0 && (s[n] == '=' || s[n] == '!' ==> Level(s, n, Either) > 0)
    ensures Level(s, n + 1, Either) >= 0
  {
  }

  lemma {:induction false} EqualityPasses(expr: string, i: nat, depth: nat, s: string, n: nat)
    requires StandsAt(s, expr, i) && Neutral(s, Either) && Quiet(s) && n <= |s|
    ensures EqualityFrom(expr, i, depth) == EqualityFrom(expr, i + n, depth + Level(s, n, Either))
  {
    hide EqualityFrom, StandsAt, Level, Neutral, Quiet;
    if n == 0 {
      NoLevel(s);
    } else {
      NeutralAt(s, n - 1);
      EqualityPasses(expr, i, depth, s, n - 1);
      EqualityPassesOne(expr, i, depth, s, n - 1);
    }
  }

  lemma {:induction false} WrapsPasses(expr: string, i: nat, depth: nat, s: string, n: nat)
    requires StandsAt(s, expr, i) && Neutral(s, Round) && n <= |s| && depth > 0 && i + |s| < |expr|
    ensures WrapsFrom(expr, i, depth) == WrapsFrom(expr, i + n, depth + Level(s, n, Round))
  {
    if n > 0 {
      WrapsPasses(expr, i, depth, s, n - 1);
      CharAt(s, expr, i, n - 1);
      assert Level(s, n, Round) >= 0;
    }
  }

  lemma {:induction false} ClosesPasses(expr: string, i: nat, depth: nat, s: string, n: nat)
    requires StandsAt(s, expr, i) && Neutral(s, Square) && n <= |s| && depth > 0
    ensures depth + Level(s, n, Square) > 0
    ensures ClosesAt(expr, i, depth) == ClosesAt(expr, i + n, depth + Level(s, n, Square))
  {
    assert Level(s, n, Square) >= 0;
    if n > 0 {
      ClosesPasses(expr, i, depth, s, n - 1);
      CharAt(s, expr, i, n - 1);
    }
  }

  // ---- White space --------------------------------------------------------------------------------------

  lemma BlankFacts(c: char)
    ensures IsIdentChar(c) || c == '(' || c == ')' || c == '[' || c == ']' ==> !IsBlank(c)
    ensures c == '"' || c == '\'' || c == '-' || c == '!' ==> !IsBlank(c)
    ensures IsBlank(c) ==> Plain(c) && c != '.' && !IsIdentChar(c)
  {
    if IsIdentChar(c) || !Plain(c) || c == '"' || c == '\'' || c == '-' || c == '.' { OutsideRanges(c as int, BLANKS); }
  }

  lemma BlankIsPlain(gap: string)
    requires AllBlank(gap)
    ensures Balanced(gap) && Quiet(gap)
  {
    forall i | 0 <= i < |gap| ensures Plain(gap[i]) { BlankFacts(gap[i]); }
    Flat(gap);
  }

  /** Neither end is blank. */
  predicate Tight(s: string) { s != [] && !IsBlank(s[0]) && !IsBlank(s[|s| - 1]) }

  lemma {:induction false} TrimPadded(before: string, s: string, after: string)
    requires AllBlank(before) && AllBlank(after) && Tight(s)
    ensures Trim(before + s + after) == s
    decreases |before| + |after|
  {
    var t := before + s + after;
    if before != [] {
      assert t[1..] == before[1..] + s + after;
      TrimPadded(before[1..], s, after);
    } else if after != [] {
      assert t[0] == s[0];
      assert t[..|t| - 1] == before + s + after[..|after| - 1];
      TrimPadded(before, s, after[..|after| - 1]);
    } else {
      assert t == s;
    }
  }

  lemma {:induction false} NotOnlyBlank(t: string, i: nat)
    requires i < |t| && !IsBlank(t[i])
    ensures Trim(t) != []
    decreases |t|
  {
    if IsBlank(t[0]) { NotOnlyBlank(t[1..], i - 1); }
    else if IsBlank(t[|t| - 1]) { NotOnlyBlank(t[..|t| - 1], 0); }
  }

  /** White space around a text does not matter. */
  lemma ResolvePadded(w: World, before: string, s: string, after: string)
    requires AllBlank(before) && AllBlank(after) && Tight(s)
    ensures Resolve(w, before + s + after) == Resolve(w, s)
  {
    TrimPadded(before, s, after);
    TrimPadded([], s, []);
    assert [] + s + [] == s;
  }

  // ---- The shape of what is printed ---------------------------------------------------------------------

  predicate EndsWell(c: char) { c != '=' && c != '!' && !IsBlank(c) }

  /** What is known of every printed tree. */
  ghost predicate Neat(s: string) {
    s != [] && Balanced(s) && Quiet(s) && EndsWell(s[0]) && EndsWell(s[|s| - 1])
  }

  lemma IdentIsNeat(s: string)
    requires IsIdent(s) || AllDigits(s)
    ensures Neat(s)
  {
    forall i | 0 <= i < |s| ensures Plain(s[i]) && !IsBlank(s[i]) { BlankFacts(s[i]); }
    Flat(s);
  }

  lemma JoinNeat(a: string, b: string)
    requires Neat(a) && Neat(b)
    ensures Neat(a + b)
  {
    Concat(a, b);
    assert (a + b)[0] == a[0] && (a + b)[|a + b| - 1] == b[|b| - 1];
  }

  lemma WrapNeat(open: char, s: string, close: char)
    requires Balanced(s) && ((open == '(' && close == ')') || (open == '[' && close == ']'))
    ensures Neat([open] + s + [close])
  {
    Wrapped(open, s, close);
    BlankFacts(open);
    BlankFacts(close);
  }

  lemma OpIsFlat(op: Op)
    ensures Balanced(OpText(op))
  {
    Flat(OpText(op));
  }

  lemma PadBalanced(g0: string, s: string, g1: string)
    requires AllBlank(g0) && AllBlank(g1) && Balanced(s)
    ensures Balanced(g0 + s + g1) && (Quiet(s) ==> Quiet(g0 + s + g1))
  {
    BlankIsPlain(g0);
    BlankIsPlain(g1);
    Concat(g0, s);
    Concat(g0 + s, g1);
  }

  lemma NumberIsFlat(t: string)
    requires IsNumber(t)
    ensures Neat(t)
  {
    var start := if t[0] == '-' then 1 else 0;
    var whole := DigitRun(t, start);
    forall i | 0 <= i < |t| ensures Plain(t[i]) && (t[i] != '.' ==> !IsBlank(t[i])) {
      BlankFacts(t[i]);
      assert (i == 0 && start == 1) || i == whole || IsAsciiDigit(t[i]);
    }
    Flat(t);
    assert t[0] != '.' && t[|t| - 1] != '.';
  }

  lemma KeywordIsNeat(s: string)
    requires s in KEYWORDS
    ensures Neat(s) && IsIdent(s)
  {
    hide Neat;
    IdentIsNeat(s);
  }

  lemma QuotedIsNeat(quote: char, s: string)
    requires (quote == '"' || quote == '\'') && AllPlain(s)
    ensures Neat([quote] + s + [quote])
  {
    var t := [quote] + s + [quote];
    BlankFacts(quote);
    assert forall i | 0 <= i < |t| :: i == 0 || i == |t| - 1 || t[i] == s[i - 1];
    Flat(t);
  }

  lemma {:induction false} PathIsNeat(p: Path)
    requires PathOk(p)
    ensures Neat(PrintPath(p)) && IsIdentStart(PrintPath(p)[0])
    decreases p, 0
  {
    match p
    case Head(name) => IdentIsNeat(name);
    case Dot(base, name) =>
      PathIsNeat(base);
      DotIsNeat(PrintPath(base), name);
    case Index(base, key, g0, g1) =>
      PathIsNeat(base);
      TreeIsNeat(key);
      IndexIsNeat(PrintPath(base), g0 + Print(key) + g1, Print(key), g0, g1);
  }

  lemma DotIsNeat(base: string, name: string)
    requires Neat(base) && (IsIdent(name) || AllDigits(name))
    ensures Neat(base + "." + name) && (base + "." + name)[0] == base[0]
  {
    IdentIsNeat(name);
    Flat(".");
    Concat(base, ".");
    Concat(base + ".", name);
  }

  lemma IndexIsNeat(base: string, inner: string, key: string, g0: string, g1: string)
    requires Neat(base) && Neat(key) && AllBlank(g0) && AllBlank(g1) && inner == g0 + key + g1
    ensures Neat(base + "[" + inner + "]") && (base + "[" + inner + "]")[0] == base[0]
  {
    PadBalanced(g0, key, g1);
    WrapNeat('[', inner, ']');
    JoinNeat(base, "[" + inner + "]");
    assert base + "[" + inner + "]" == base + ("[" + inner + "]");
  }

  lemma {:induction false} TreeIsNeat(t: Tree)
    requires TreeOk(t)
    ensures Neat(Print(t))
    decreases t, 1
  {
    match t
    case Ref(p) => PathIsNeat(p);
    case Flag(b) => KeywordIsNeat(if b then "true" else "false");
    case Nil => KeywordIsNeat("null");
    case Undef => KeywordIsNeat("undefined");
    case Num(minus, whole, fraction) =>
      PrintsNumber(minus, whole, fraction);
      NumberIsFlat(PrintNumber(minus, whole, fraction));
    case Quoted(quote, s) => QuotedIsNeat(quote, s);
    case Not(u, g0, g1, g2) =>
      TreeIsNeat(u);
      NotIsBalanced(Print(u), g0, g1, g2);
      WrapNeat('(', g0 + "!" + g1 + Print(u) + g2, ')');
    case Eq(op, a, b, g0, g1, g2, g3) =>
      TreeIsNeat(a);
      TreeIsNeat(b);
      EqIsBalanced(op, Print(a), Print(b), g0, g1, g2, g3);
      WrapNeat('(', g0 + Print(a) + g1 + OpText(op) + g2 + Print(b) + g3, ')');
  }

  lemma NotIsBalanced(u: string, g0: string, g1: string, g2: string)
    requires Balanced(u) && AllBlank(g0) && AllBlank(g1) && AllBlank(g2)
    ensures Balanced(g0 + "!" + g1 + u + g2)
  {
    BlankIsPlain(g0);
    BlankIsPlain(g1);
    BlankIsPlain(g2);
    Flat("!");
    Concat(g0, "!");
    Concat(g0 + "!", g1);
    Concat(g0 + "!" + g1, u);
    Concat(g0 + "!" + g1 + u, g2);
  }

  lemma EqIsBalanced(op: Op, a: string, b: string, g0: string, g1: string, g2: string, g3: string)
    requires Balanced(a) && Balanced(b) && AllBlank(g0) && AllBlank(g1) && AllBlank(g2) && AllBlank(g3)
    ensures Balanced(g0 + a + g1 + OpText(op) + g2 + b + g3)
  {
    BlankIsPlain(g0);
    BlankIsPlain(g1);
    BlankIsPlain(g2);
    BlankIsPlain(g3);
    OpIsFlat(op);
    Concat(g0, a);
    Concat(g0 + a, g1);
    Concat(g0 + a + g1, OpText(op));
    Concat(g0 + a + g1 + OpText(op), g2);
    Concat(g0 + a + g1 + OpText(op) + g2, b);
    Concat(g0 + a + g1 + OpText(op) + g2 + b, g3);
  }

  // ---- What a printed tree evaluates to -----------------------------------------------------------------

  lemma NoEquality(expr: string, i: nat, s: string)
    requires i <= |expr| && expr[i..] == s && Balanced(s) && Quiet(s)
    ensures EqualityFrom(expr, i, 0) == None
  {
    EqualityPasses(expr, i, 0, s, |s|);
  }

  /** A pair of parentheses round a balanced text is taken off. */
  lemma ParensComeOff(w: World, x: string)
    requires Balanced(x)
    ensures Resolve(w, "(" + x + ")") == Resolve(w, x)
  {
    hide ResolveBare, Level, Trim;
    var expr := "(" + x + ")";
    BlankFacts('(');
    BlankFacts(')');
    assert [] + expr + [] == expr;
    TrimPadded([], expr, []);
    assert expr[1..1 + |x|] == x;
    WrapsPasses(expr, 1, 1, x, |x|);
    assert WrapsFrom(expr, 0, 0) == WrapsFrom(expr, 1, 1);
    assert expr[1..|expr| - 1] == x;
  }

  /** The parentheses of the left operand do not wrap the whole. */
  lemma LeftParensAreNotAll(x: string, rest: string)
    requires Balanced(x) && rest != []
    ensures !WrapsFrom("(" + x + ")" + rest, 0, 0)
  {
    var expr := "(" + x + ")" + rest;
    assert expr[1..1 + |x|] == x;
    assert WrapsFrom(expr, 0, 0) == WrapsFrom(expr, 1, 1);
    WrapsPasses(expr, 1, 1, x, |x|);
    assert expr[1 + |x|] == ')';
  }

  /** `s` begins with a parenthesis only if it is a text in parentheses. */
  ghost predicate OpensWhole(s: string) {
    s != [] && s[0] == '(' ==> exists x :: Balanced(x) && s == "(" + x + ")"
  }

  lemma NegationReads(w: World, u: string, g0: string, g1: string, g2: string)
    requires Neat(u) && AllBlank(g0) && AllBlank(g1) && AllBlank(g2)
    ensures Resolve(w, "(" + (g0 + "!" + g1 + u + g2) + ")") == Bool(!Truthy(Resolve(w, u)))
  {
    hide Resolve, EqualityFrom, Level;
    var y := "!" + (g1 + u);
    NotIsBalanced(u, g0, g1, g2);
    ParensComeOff(w, g0 + "!" + g1 + u + g2);
    assert g0 + "!" + g1 + u + g2 == g0 + y + g2;
    BlankFacts('!');
    assert y[|y| - 1] == u[|u| - 1];
    ResolvePadded(w, g0, y, g2);
    BlankIsPlain(g1);
    Concat(g1, u);
    NoEquality(y, 1, g1 + u);
    BangReads(w, g1 + u);
    assert g1 + u + [] == g1 + u;
    ResolvePadded(w, g1, u, []);
  }

  lemma BangReads(w: World, v: string)
    requires v != [] && !IsBlank(v[|v| - 1]) && EqualityFrom("!" + v, 1, 0) == None
    ensures Resolve(w, "!" + v) == Bool(!Truthy(Resolve(w, v)))
  {
    var y := "!" + v;
    BlankFacts('!');
    assert [] + y + [] == y;
    TrimPadded([], y, []);
    assert Trim(y[..0]) == [];
    assert EqualityFrom(y, 0, 0) == EqualityFrom(y, 1, 0);
    assert y[1..] == v;
  }

  lemma OperatorStands(left: string, op: Op, right: string)
    requires left != [] && left[|left| - 1] != '=' && left[|left| - 1] != '!' && Trim(left) != []
    requires right != [] && right[0] != '='
    ensures var y, i := left + OpText(op) + right, |left|;
      i + 1 < |y| && OpensOp(y, i) && OpAt(y, i) == op && Delta(y[i], Either) == 0
  {
    var text := OpText(op);
    var y, i := left + text + right, |left|;
    assert y[i] == text[0] && y[i + 1] == text[1] && y[i - 1] == left[i - 1] && y[..i] == left;
    if |text| == 2 { assert y[i + 2] == right[0]; } else { assert y[i + 2] == text[2]; }
  }

  /** The operator is read between the operands. */
  lemma OperatorIsFound(op: Op, left: string, right: string)
    requires left != [] && left[|left| - 1] != '=' && left[|left| - 1] != '!' && Trim(left) != []
    requires right != [] && right[0] != '=' && Balanced(left) && Quiet(left)
    ensures EqualityFrom(left + OpText(op) + right, 0, 0) == Some(Split(|left|, op))
  {
    hide EqualityFrom, OpensOp, OpAt, Trim;
    var y := left + OpText(op) + right;
    assert y[0..0 + |left|] == left;
    EqualityPasses(y, 0, 0, left, |left|);
    OperatorStands(left, op, right);
    OperatorIsRead(y, |left|, op);
  }

  lemma OperatorIsRead(y: string, i: nat, op: Op)
    requires i + 1 < |y| && OpensOp(y, i) && OpAt(y, i) == op && Delta(y[i], Either) == 0
    ensures EqualityFrom(y, i, 0) == Some(Split(i, op))
  {
  }

  lemma LastIsNoSign(a: string, gap: string)
    requires Neat(a) && AllBlank(gap)
    ensures var left := a + gap;
      && left != [] && left[|left| - 1] != '=' && left[|left| - 1] != '!' && Trim(left) != []
      && Balanced(left) && Quiet(left)
  {
    if gap != [] { BlankFacts(gap[|gap| - 1]); }
    NotOnlyBlank(a + gap, 0);
    BlankIsPlain(gap);
    Concat(a, gap);
  }

  lemma RightIsNoSign(b: string, gap: string)
    requires Neat(b) && AllBlank(gap)
    ensures gap + b != [] && (gap + b)[0] != '='
  {
    if gap != [] { BlankFacts(gap[0]); }
  }

  lemma Regroup(g0: string, left: string, g1: string, text: string, g2: string, b: string, g3: string)
    ensures g0 + left + g1 + text + g2 + b + g3 == g0 + ((left + g1) + text + (g2 + b)) + g3
  {
  }

  lemma EqualityReads(w: World, op: Op, a: string, b: string, g0: string, g1: string, g2: string, g3: string)
    requires Neat(a) && Neat(b) && AllBlank(g0) && AllBlank(g1) && AllBlank(g2) && AllBlank(g3) && OpensWhole(a)
    ensures Resolve(w, "(" + (g0 + a + g1 + OpText(op) + g2 + b + g3) + ")") ==
      Compare(w, op, Resolve(w, a), Resolve(w, b))
  {
    EqIsBalanced(op, a, b, g0, g1, g2, g3);
    ParensComeOff(w, g0 + a + g1 + OpText(op) + g2 + b + g3);
    Regroup(g0, a, g1, OpText(op), g2, b, g3);
    TightMiddle(a, OpText(op), b, g1, g2, a + g1, g2 + b);
    ResolvePadded(w, g0, (a + g1) + OpText(op) + (g2 + b), g3);
    MiddleReads(w, op, a, b, g1, g2, a + g1, g2 + b);
    SidesRead(w, a, b, g1, g2, a + g1, g2 + b);
  }

  lemma TightMiddle(a: string, text: string, b: string, g1: string, g2: string, left: string, right: string)
    requires Tight(a) && Tight(b) && left == a + g1 && right == g2 + b
    ensures Tight(left + text + right) && (left + text + right)[0] == a[0]
  {
    var y := left + text + right;
    assert y[0] == a[0] && y[|y| - 1] == b[|b| - 1];
  }

  lemma SidesRead(w: World, a: string, b: string, g1: string, g2: string, left: string, right: string)
    requires Tight(a) && Tight(b) && AllBlank(g1) && AllBlank(g2) && left == a + g1 && right == g2 + b
    ensures Resolve(w, left) == Resolve(w, a) && Resolve(w, right) == Resolve(w, b)
  {
    assert left == [] + a + g1 && right == g2 + b + [];
    ResolvePadded(w, [], a, g1);
    ResolvePadded(w, g2, b, []);
  }

  lemma MiddleReads(w: World, op: Op, a: string, b: string, g1: string, g2: string, left: string, right: string)
    requires Neat(a) && Neat(b) && AllBlank(g1) && AllBlank(g2) && OpensWhole(a) && left == a + g1 && right == g2 + b
    ensures Resolve(w, left + OpText(op) + right) == Compare(w, op, Resolve(w, left), Resolve(w, right))
  {
    TightMiddle(a, OpText(op), b, g1, g2, left, right);
    LastIsNoSign(a, g1);
    RightIsNoSign(b, g2);
    OperatorIsFound(op, left, right);
    LeftIsNotAll(a, g1, OpText(op), right, left);
    BareEqualityReads(w, op, left, right);
  }

  lemma LeftIsNotAll(a: string, gap: string, text: string, right: string, left: string)
    requires a != [] && OpensWhole(a) && right != [] && left == a + gap
    ensures var y := left + text + right; y[0] == '(' ==> !WrapsFrom(y, 0, 0)
  {
    assert left + text + right == a + (gap + text + right);
    NotWrapped(a, gap + text + right);
  }

  lemma NotWrapped(a: string, rest: string)
    requires a != [] && OpensWhole(a) && rest != []
    ensures (a + rest)[0] == '(' ==> !WrapsFrom(a + rest, 0, 0)
  {
    if a[0] == '(' {
      var x :| Balanced(x) && a == "(" + x + ")";
      LeftParensAreNotAll(x, rest);
    }
  }

  lemma BareEqualityReads(w: World, op: Op, left: string, right: string)
    requires var y := left + OpText(op) + right;
      Tight(y) && (y[0] == '(' ==> !WrapsFrom(y, 0, 0)) && EqualityFrom(y, 0, 0) == Some(Split(|left|, op))
    ensures Resolve(w, left + OpText(op) + right) == Compare(w, op, Resolve(w, left), Resolve(w, right))
  {
    var y := left + OpText(op) + right;
    assert [] + y + [] == y;
    TrimPadded([], y, []);
    assert y[..|left|] == left && y[|left| + |OpText(op)|..] == right;
  }

  lemma ReadsAsLiteral(w: World, s: string)
    requires Neat(s) && s[0] != '(' && Literal(s).Some?
    ensures Resolve(w, s) == Literal(s).value
  {
    assert [] + s + [] == s;
    TrimPadded([], s, []);
    assert s[0..] == s;
    NoEquality(s, 0, s);
  }

  lemma QuotedReads(w: World, quote: char, s: string)
    requires (quote == '"' || quote == '\'') && AllPlain(s)
    ensures Resolve(w, [quote] + s + [quote]) == Text(s)
  {
    var t := [quote] + s + [quote];
    QuotedIsNeat(quote, s);
    assert t[1..|t| - 1] == s;
    assert DigitRun(t, 0) == 0;
    assert t[0] == quote && "true"[0] == 't' && "false"[0] == 'f' && "null"[0] == 'n' && "undefined"[0] == 'u';
    ReadsAsLiteral(w, t);
  }

  lemma {:induction false} WorthSnoc(digits: string, c: char, before: int)
    ensures Worth(digits + [c], before) == 10 * Worth(digits, before) + (c as int - '0' as int)
  {
    if digits != "" {
      assert (digits + [c])[1..] == digits[1..] + [c];
      WorthSnoc(digits[1..], c, 10 * before + (digits[0] as int - '0' as int));
    }
  }

  lemma {:induction false} DigitsAreWorth(t: string, n: nat)
    requires n <= |t| && forall i | 0 <= i < n :: IsAsciiDigit(t[i])
    ensures Digits(t, n) == Worth(t[..n], 0)
  {
    if n > 0 {
      DigitsAreWorth(t, n - 1);
      WorthSnoc(t[..n - 1], t[n - 1], 0);
      assert t[..n] == t[..n - 1] + [t[n - 1]];
    }
  }

  /** The first of some digits counts as many tens as there are digits behind it. */
  lemma {:induction false} FirstDigit(t: string, n: nat)
    requires 0 < n <= |t| && forall i | 0 <= i < n :: IsAsciiDigit(t[i])
    ensures Digits(t, n) == (t[0] as int - '0' as int) * Scale(n - 1) + Digits(t[1..], n - 1)
  {
    if n > 1 {
      FirstDigit(t, n - 1);
      TenfoldFirst(t[0] as int - '0' as int, Scale(n - 2), Scale(n - 1));
    }
  }

  lemma TenfoldFirst(d: int, scale: int, next: int)
    requires next == 10 * scale
    ensures d * next == 10 * (d * scale)
  {
  }

  lemma FractionStep(t: string)
    requires t != ""
    ensures Fraction(t) == ((t[0] as int - '0' as int) as real + Fraction(t[1..])) / 10.0
    ensures Scale(|t|) == 10 * Scale(|t| - 1)
  {
  }

  lemma FractionOfNone()
    ensures Fraction("") * Scale(0) as real == Digits("", 0) as real
  {
  }

  lemma {:induction false} FractionIsDigits(t: string)
    requires forall i | 0 <= i < |t| :: IsAsciiDigit(t[i])
    ensures Fraction(t) * Scale(|t|) as real == Digits(t, |t|) as real
  {
    hide Digits, Scale, Fraction;
    if t == "" {
      FractionOfNone();
    } else {
      var n, d := |t| - 1, t[0] as int - '0' as int;
      FractionIsDigits(t[1..]);
      FirstDigit(t, |t|);
      FractionStep(t);
      ShiftsTen(Fraction(t), Fraction(t[1..]), d, Scale(n), Digits(t[1..], n));
    }
  }

  lemma ShiftsTen(f: real, rest: real, d: int, scale: int, digits: int)
    requires f == (d as real + rest) / 10.0 && rest * scale as real == digits as real
    ensures f * (10 * scale) as real == (d * scale + digits) as real
  {
    var e, s := d as real, scale as real;
    assert (10 * scale) as real == 10.0 * s && (d * scale) as real == e * s;
    TenTimes(f, e, rest, s);
  }

  lemma TenTimes(f: real, d: real, rest: real, scale: real)
    requires f == (d + rest) / 10.0
    ensures f * (10.0 * scale) == d * scale + rest * scale
  {
    assert f * 10.0 == d + rest;
    assert f * (10.0 * scale) == (f * 10.0) * scale;
  }

  lemma FractionIs(t: string)
    requires forall i | 0 <= i < |t| :: IsAsciiDigit(t[i])
    ensures Fraction(t) == Digits(t, |t|) as real / Scale(|t|) as real
  {
    FractionIsDigits(t);
    QuotientOf(Fraction(t), Scale(|t|) as real, Digits(t, |t|) as real);
  }

  lemma QuotientOf(q: real, d: real, n: real)
    requires d > 0.0 && q * d == n
    ensures q == n / d
  {
  }

  /** The parts of a printed number: its sign, its digits, and its point with what follows. */
  ghost predicate NumberParts(t: string, start: nat, k: nat, whole: string, fraction: string) {
    && start < k <= |t| && t[start..k] == whole && (k == |t| <==> fraction == "")
    && (fraction != "" ==> k < |t| && t[k] == '.' && t[k + 1..] == fraction)
  }

  lemma PartsOfNumber(minus: bool, whole: string, fraction: string)
    requires AllDigits(whole)
    ensures var t, start := PrintNumber(minus, whole, fraction), if minus then 1 else 0;
      t != [] && (t[0] == '-' <==> minus) && NumberParts(t, start, start + |whole|, whole, fraction)
  {
    var t, start := PrintNumber(minus, whole, fraction), if minus then 1 else 0;
    var sign, tail := if minus then "-" else "", if fraction == "" then "" else "." + fraction;
    assert t == sign + whole + tail && |sign| == start;
    assert t[start..start + |whole|] == whole;
    if fraction != "" { assert t[start + |whole| + 1..] == fraction; }
  }

  lemma RunsOfNumber(t: string, start: nat, k: nat, whole: string, fraction: string)
    requires NumberParts(t, start, k, whole, fraction) && AllDigits(whole) && (fraction == "" || AllDigits(fraction))
    ensures DigitRun(t, start) == k && (fraction != "" ==> DigitRun(t, k + 1) == |t|)
  {
    hide DigitRun;
    forall i | start <= i < k ensures IsAsciiDigit(t[i]) { assert t[i] == t[start..k][i - start]; }
    DigitRunEnds(t, start, k);
    if fraction != "" {
      forall i | k + 1 <= i < |t| ensures IsAsciiDigit(t[i]) { assert t[i] == t[k + 1..][i - k - 1]; }
      DigitRunEnds(t, k + 1, |t|);
    }
  }

  /** A printed number is read as a number, and as the one it stands for. */
  lemma PrintsNumber(minus: bool, whole: string, fraction: string)
    requires AllDigits(whole) && (fraction == "" || AllDigits(fraction))
    ensures var t := PrintNumber(minus, whole, fraction);
      && IsNumber(t)
      && var size := Worth(whole, 0) as real + Fraction(fraction);
      NumberOf(t) == Number(if minus then -size else size)
  {
    hide DigitRun, PrintNumber, Digits, Scale, Fraction, Worth;
    var start := if minus then 1 else 0;
    PartsOfNumber(minus, whole, fraction);
    RunsOfNumber(PrintNumber(minus, whole, fraction), start, start + |whole|, whole, fraction);
    DigitsAreWorth(whole, |whole|);
    assert whole[..|whole|] == whole;
    FractionIs(fraction);
    NoFraction();
  }

  lemma NoFraction()
    ensures Digits("", 0) as real / Scale(0) as real == 0.0 == Fraction("")
  {
  }

  lemma NumberReads(w: World, t: string)
    requires IsNumber(t)
    ensures Resolve(w, t) == NumberOf(t)
  {
    NumberIsFlat(t);
    assert "true"[0] == 't' && "false"[0] == 'f' && "null"[0] == 'n' && "undefined"[0] == 'u';
    ReadsAsLiteral(w, t);
  }

  lemma {:induction false} IdentRunEnds(t: string, i: nat, k: nat)
    requires i <= k <= |t| && (forall j | i <= j < k :: IsIdentChar(t[j])) && (k < |t| ==> !IsIdentChar(t[k]))
    ensures IdentRun(t, i) == k
    decreases k - i
  {
    if i < k { IdentRunEnds(t, i + 1, k); }
  }

  lemma {:induction false} DigitRunEnds(t: string, i: nat, k: nat)
    requires i <= k <= |t| && (forall j | i <= j < k :: IsAsciiDigit(t[j])) && (k < |t| ==> !IsAsciiDigit(t[k]))
    ensures DigitRun(t, i) == k
    decreases k - i
  {
    if i < k { DigitRunEnds(t, i + 1, k); }
  }

  /** Where a path may go on. */
  predicate GoesOn(rest: string) { rest == [] || rest[0] == '.' || rest[0] == '[' }

  lemma NameIsRead(t: string, i: nat, name: string)
    requires StandsAt(name, t, i) && GoesOn(t[i + |name|..]) && (IsIdent(name) || AllDigits(name))
    ensures NameEnd(t, i) == i + |name| && (IsIdent(name) ==> IdentEnd(t, i) == i + |name|)
  {
    var k := i + |name|;
    forall j | i <= j < k ensures t[j] == name[j - i] { CharAt(name, t, i, j - i); }
    assert k < |t| ==> t[k] == t[k..][0];
    if IsIdent(name) { IdentRunEnds(t, i, k); } else { DigitRunEnds(t, i, k); }
  }

  lemma HeadReads(w: World, expr: string, name: string)
    requires IsIdent(name) && StandsAt(name, expr, 0) && GoesOn(expr[|name|..])
    ensures ResolvePath(w, expr) == PathFrom(w, expr, |name|, Property(w, w.vals, Text(name)))
  {
    NameIsRead(expr, 0, name);
    assert expr[..|name|] == name;
  }

  lemma DotReads(w: World, expr: string, i: nat, name: string, cur: Value)
    requires i < |expr| && expr[i] == '.' && StandsAt(name, expr, i + 1) && GoesOn(expr[i + 1 + |name|..])
    requires IsIdent(name) || AllDigits(name)
    ensures PathFrom(w, expr, i, cur) == PathFrom(w, expr, i + 1 + |name|, Property(w, cur, Text(name)))
  {
    hide Resolve;
    NameIsRead(expr, i + 1, name);
  }

  lemma IndexReads(w: World, expr: string, i: nat, inner: string, cur: Value)
    requires i + 1 + |inner| < |expr| && expr[i] == '[' && StandsAt(inner, expr, i + 1) && expr[i + 1 + |inner|] == ']'
    requires Balanced(inner)
    ensures PathFrom(w, expr, i, cur) == PathFrom(w, expr, i + |inner| + 2, Property(w, cur, Resolve(w, inner)))
  {
    ClosesPasses(expr, i + 1, 1, inner, |inner|);
    IndexStep(w, expr, i, cur, inner);
  }

  lemma IndexStep(w: World, expr: string, i: nat, cur: Value, inner: string)
    requires var j := i + 1 + |inner|;
      j < |expr| && expr[i] == '[' && expr[i + 1..j] == inner && ClosesAt(expr, i + 1, 1) == j
    ensures PathFrom(w, expr, i, cur) == PathFrom(w, expr, i + |inner| + 2, Property(w, cur, Resolve(w, inner)))
  {
  }

  lemma DotStands(expr: string, front: string, name: string)
    requires StandsAt(front + "." + name, expr, 0)
    ensures StandsAt(front, expr, 0) && |front| < |expr| && expr[|front|] == '.' && StandsAt(name, expr, |front| + 1)
    ensures GoesOn(expr[|front|..])
  {
    var whole := front + "." + name;
    assert whole[..|front|] == front && whole[|front|] == '.' && whole[|front| + 1..] == name;
    assert expr[0..|whole|] == whole && expr[0..|front|] == whole[..|front|];
    assert expr[|front| + 1..|front| + 1 + |name|] == whole[|front| + 1..];
    CharAt(whole, expr, 0, |front|);
  }

  lemma IndexStands(expr: string, front: string, inner: string)
    requires StandsAt(front + "[" + inner + "]", expr, 0)
    ensures StandsAt(front, expr, 0) && |front| + 1 + |inner| < |expr| && expr[|front|] == '['
    ensures StandsAt(inner, expr, |front| + 1) && expr[|front| + 1 + |inner|] == ']' && GoesOn(expr[|front|..])
  {
    var whole, j := front + "[" + inner + "]", |front| + 1 + |inner|;
    assert whole[..|front|] == front && whole[|front|] == '[' && whole[|front| + 1..j] == inner && whole[j] == ']';
    assert expr[0..|whole|] == whole && expr[0..|front|] == whole[..|front|];
    assert expr[|front| + 1..j] == whole[|front| + 1..j];
    CharAt(whole, expr, 0, |front|);
    CharAt(whole, expr, 0, j);
  }

  lemma KeyReads(w: World, key: string, g0: string, g1: string)
    requires Neat(key) && AllBlank(g0) && AllBlank(g1)
    ensures Balanced(g0 + key + g1) && Resolve(w, g0 + key + g1) == Resolve(w, key)
  {
    PadBalanced(g0, key, g1);
    ResolvePadded(w, g0, key, g1);
  }

  /** Reading a printed path as far as it goes gives its value. */
  lemma {:induction false} PathReads(w: World, p: Path, expr: string)
    requires PathOk(p) && StandsAt(PrintPath(p), expr, 0) && GoesOn(expr[|PrintPath(p)|..])
    ensures ResolvePath(w, expr) == PathFrom(w, expr, |PrintPath(p)|, EvalPath(w, p))
    decreases p, 0
  {
    hide Resolve, ResolvePath, PathFrom, Level;
    match p
    case Head(name) => HeadReads(w, expr, name);
    case Dot(base, name) =>
      DotStands(expr, PrintPath(base), name);
      PathReads(w, base, expr);
      DotReads(w, expr, |PrintPath(base)|, name, EvalPath(w, base));
    case Index(base, key, g0, g1) =>
      IndexStands(expr, PrintPath(base), g0 + Print(key) + g1);
      PathReads(w, base, expr);
      TreeIsNeat(key);
      PrintedReads(w, key);
      KeyReads(w, Print(key), g0, g1);
      BracketsInPathRead(w, expr, PrintPath(base), g0 + Print(key) + g1, EvalPath(w, base), Eval(w, key));
  }

  lemma KeyInPathReads(w: World, expr: string, i: nat, inner: string, cur: Value, value: Value, end: nat)
    requires i + 1 + |inner| < |expr| && expr[i] == '[' && StandsAt(inner, expr, i + 1) && expr[i + 1 + |inner|] == ']'
    requires Balanced(inner) && Resolve(w, inner) == value && end == i + |inner| + 2
    requires ResolvePath(w, expr) == PathFrom(w, expr, i, cur)
    ensures ResolvePath(w, expr) == PathFrom(w, expr, end, Property(w, cur, value))
  {
    IndexReads(w, expr, i, inner, cur);
  }

  lemma BracketsInPathRead(w: World, expr: string, front: string, inner: string, cur: Value, value: Value)
    requires StandsAt(front + "[" + inner + "]", expr, 0) && Balanced(inner)
    requires Resolve(w, inner) == value && ResolvePath(w, expr) == PathFrom(w, expr, |front|, cur)
    ensures ResolvePath(w, expr) == PathFrom(w, expr, |front + "[" + inner + "]"|, Property(w, cur, value))
  {
    IndexStands(expr, front, inner);
    KeyInPathReads(w, expr, |front|, inner, cur, value, |front + "[" + inner + "]"|);
  }

  lemma NotAKeyword(s: string, at: nat)
    requires at < |s| && !IsIdentChar(s[at])
    ensures s !in KEYWORDS
  {
    if k :| 0 <= k < |KEYWORDS| && KEYWORDS[k] == s { KeywordIsNeat(s); }
  }

  lemma NameIsNoLiteral(s: string)
    requires s != [] && IsIdentStart(s[0]) && s !in KEYWORDS
    ensures Literal(s) == None
  {
    assert "true" in KEYWORDS && "false" in KEYWORDS && "null" in KEYWORDS && "undefined" in KEYWORDS;
    assert DigitRun(s, 0) == 0;
  }

  /** A path is read as a path: it is no keyword, no number and no quoted text. */
  lemma PathIsNoLiteral(p: Path)
    requires PathOk(p) && (p.Head? ==> p.name !in KEYWORDS)
    ensures Literal(PrintPath(p)) == None
  {
    var s := PrintPath(p);
    PathIsNeat(p);
    if !p.Head? { NotAKeyword(s, |PrintPath(p.base)|); }
    NameIsNoLiteral(s);
  }

  lemma RefReads(w: World, p: Path)
    requires PathOk(p) && (p.Head? ==> p.name !in KEYWORDS)
    requires ResolvePath(w, PrintPath(p)) == EvalPath(w, p)
    ensures Resolve(w, PrintPath(p)) == EvalPath(w, p)
  {
    hide PrintPath, EvalPath, Level, ResolvePath, Literal;
    var s := PrintPath(p);
    PathIsNeat(p);
    PathIsNoLiteral(p);
    assert [] + s + [] == s && s[0..] == s;
    TrimPadded([], s, []);
    NoEquality(s, 0, s);
  }

  lemma TreeOpensWhole(t: Tree)
    requires TreeOk(t)
    ensures OpensWhole(Print(t))
  {
    match t
    case Not(u, g0, g1, g2) =>
      TreeIsNeat(u);
      NotIsBalanced(Print(u), g0, g1, g2);
      ParensOpenWhole(g0 + "!" + g1 + Print(u) + g2);
    case Eq(op, a, b, g0, g1, g2, g3) =>
      TreeIsNeat(a);
      TreeIsNeat(b);
      EqIsBalanced(op, Print(a), Print(b), g0, g1, g2, g3);
      ParensOpenWhole(g0 + Print(a) + g1 + OpText(op) + g2 + Print(b) + g3);
    case Ref(p) => PathIsNeat(p);
    case Num(minus, whole, fraction) =>
      PrintsNumber(minus, whole, fraction);
      NumberOpensNothing(PrintNumber(minus, whole, fraction));
    case _ =>
  }

  lemma ParensOpenWhole(x: string)
    requires Balanced(x)
    ensures OpensWhole("(" + x + ")")
  {
  }

  lemma NumberOpensNothing(t: string)
    requires IsNumber(t)
    ensures t[0] != '('
  {
  }

  lemma NotMeans(w: World, t: Tree, g0: string, g1: string, g2: string)
    requires TreeOk(Not(t, g0, g1, g2))
    ensures Eval(w, Not(t, g0, g1, g2)) == Bool(!Truthy(Eval(w, t)))
  {
  }

  lemma EqMeans(w: World, op: Op, a: Tree, b: Tree, g0: string, g1: string, g2: string, g3: string)
    requires TreeOk(Eq(op, a, b, g0, g1, g2, g3))
    ensures Eval(w, Eq(op, a, b, g0, g1, g2, g3)) == Compare(w, op, Eval(w, a), Eval(w, b))
  {
  }

  lemma NumberMeans(w: World, minus: bool, whole: string, fraction: string)
    requires TreeOk(Num(minus, whole, fraction))
    ensures Resolve(w, PrintNumber(minus, whole, fraction)) == Eval(w, Num(minus, whole, fraction))
  {
    hide Resolve, PrintNumber, Worth, Fraction;
    PrintsNumber(minus, whole, fraction);
    NumberReads(w, PrintNumber(minus, whole, fraction));
  }

  lemma {:induction false} PrintedReads(w: World, t: Tree)
    requires TreeOk(t)
    ensures Resolve(w, Print(t)) == Eval(w, t)
    decreases t, 1
  {
    hide Compare, Truthy, Worth, Fraction, PrintNumber;
    match t
    case Ref(p) =>
      var printed := PrintPath(p);
      assert printed[0..|printed|] == printed;
      PathReads(w, p, printed);
      RefReads(w, p);
    case Flag(b) =>
      KeywordIsNeat(if b then "true" else "false");
      ReadsAsLiteral(w, if b then "true" else "false");
    case Nil =>
      KeywordIsNeat("null");
      ReadsAsLiteral(w, "null");
    case Undef =>
      KeywordIsNeat("undefined");
      ReadsAsLiteral(w, "undefined");
    case Num(minus, whole, fraction) => NumberMeans(w, minus, whole, fraction);
    case Quoted(quote, s) => QuotedReads(w, quote, s);
    case Not(u, g0, g1, g2) =>
      TreeIsNeat(u);
      PrintedReads(w, u);
      NegationReads(w, Print(u), g0, g1, g2);
      NotMeans(w, u, g0, g1, g2);
    case Eq(op, a, b, g0, g1, g2, g3) =>
      TreeIsNeat(a);
      TreeIsNeat(b);
      TreeOpensWhole(a);
      PrintedReads(w, a);
      PrintedReads(w, b);
      EqualityReads(w, op, Print(a), Print(b), g0, g1, g2, g3);
      EqMeans(w, op, a, b, g0, g1, g2, g3);
  }

  /** Every fully parenthesised tree, whatever white space stands at each place in it and around it, evaluates to its
      value. */
  lemma EvaluatesToItsValue(w: World, t: Tree, before: string, after: string)
    requires TreeOk(t) && AllBlank(before) && AllBlank(after)
    ensures Resolve(w, before + Print(t) + after) == Eval(w, t)
  {
    TreeIsNeat(t);
    ResolvePadded(w, before, Print(t), after);
    PrintedReads(w, t);
  }
}
