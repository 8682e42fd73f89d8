/** The recursive-descent calculator (kernel/shell.c:536-619, 1520-1536): a parser on the remaining text, the object
    that runs it over a shared position and error flag, and the trees whose printed form it evaluates. */
module Calc {
  import opened Common

  // ---------------------------------------------------------------- machine arithmetic

  const HALF: int := 0x8000_0000

  /** Two's complement, 32 bits. */
  function Wrap(x: int): int { (x + HALF) % (2 * HALF) - HALF }

  predicate FitsInt(x: int) { -HALF <= x < HALF }

  /** Division rounding toward zero. */
  function Quotient(a: int, b: int): int
    requires b != 0
  {
    var q := Magnitude(a) / Magnitude(b);
    if (a < 0) == (b < 0) then q else -q
  }

  function Magnitude(a: int): nat { if a < 0 then -a else a }

  /** What / leaves over, with the sign of the dividend. */
  function Remainder(a: int, b: int): int
    requires b != 0
  {
    a - b * Quotient(a, b)
  }

  /** The law of division that C states: the quotient and the remainder make up the dividend, and the remainder is
      smaller than the divisor and has the sign of the dividend. */
  ghost predicate IsDivision(a: int, b: int, q: int, r: int)
  {
    && a == b * q + r
    && (if 0 < b then -b < r < b else b < r < -b)
    && (r == 0 || (r < 0 <==> a < 0))
  }

  lemma QuotientTruncates(a: int, b: int)
    requires b != 0
    ensures IsDivision(a, b, Quotient(a, b), Remainder(a, b))
  {
    var m: int, n: int := Magnitude(a), Magnitude(b);
    var q, r := m / n, m % n;
    DivideMagnitudes(m, n);
    SignedQuotient(a, b, q);
    LawHolds(a, b, if (a < 0) == (b < 0) then q else -q, n * q, r);
  }

  lemma DivideMagnitudes(m: int, n: int)
    requires 0 < n
    ensures n * (m / n) + m % n == m && 0 <= m % n < n
  {
  }

  lemma SignedQuotient(a: int, b: int, q: int)
    ensures var p := Magnitude(b) * q;
            b * (if (a < 0) == (b < 0) then q else -q) == if a < 0 then -p else p
  {
    SignedProducts(Magnitude(b), q);
  }

  lemma LawHolds(a: int, b: int, q: int, p: int, r: int)
    requires 0 <= r && (if 0 < b then r < b else r < -b)
    requires b * q == (if a < 0 then -p else p) && p + r == if a < 0 then -a else a
    ensures IsDivision(a, b, q, a - b * q)
  {
  }

  /** The law leaves no choice. */
  lemma DivisionUnique(a: int, b: int, q: int, r: int, q': int, r': int)
    requires IsDivision(a, b, q, r) && IsDivision(a, b, q', r')
    ensures q == q' && r == r'
  {
    var d := q - q';
    assert b * d == r' - r;
    SmallMultiple(b, d);
  }

  lemma SmallMultiple(b: int, d: int)
    requires if 0 < b then -b < b * d < b else b < b * d < -b
    ensures d == 0
  {
    if 0 < b {
      MultipleGrows(b, d);
    } else {
      MultipleGrows(-b, d);
      SignedProducts(b, d);
    }
  }

  lemma MultipleGrows(m: int, d: int)
    requires 0 < m
    ensures d < 0 ==> m * d <= -m
    ensures 0 < d ==> m <= m * d
  {
  }

  lemma SignedProducts(n: int, q: int)
    ensures (-n) * q == -(n * q) && n * (-q) == -(n * q) && (-n) * (-q) == n * q
  {
  }

  predicate IsDiv(op: char) { op == '/' || op == '%' }

  /** The one division by something other than zero that the processor cannot carry out: its quotient is no int. */
  predicate Faults(op: char, a: int, b: int) { IsDiv(op) && a == -HALF && b == -1 }

  lemma FaultIsOverflow(op: char, a: int, b: int)
    requires IsDiv(op) && FitsInt(a) && FitsInt(b) && b != 0
    ensures Faults(op, a, b) <==> !FitsInt(Quotient(a, b))
  {
    HalfQuotient(Magnitude(a), Magnitude(b));
  }

  lemma HalfQuotient(m: nat, n: nat)
    requires 1 <= n
    ensures n == 1 ==> m / n == m
    ensures 2 <= n ==> 2 * (m / n) <= m
  {
    var q := m / n;
    assert m == n * q + m % n;
    assert 2 <= n ==> 2 * q <= n * q;
  }

  /** What the machine computes for a binary operator that does not fault; / and % only with a divisor that is not
      zero. */
  function Apply(op: char, a: int, b: int): int
    requires IsDiv(op) ==> b != 0
  {
    Wrap(ApplyExact(op, a, b))
  }

  function ApplyExact(op: char, a: int, b: int): int
    requires IsDiv(op) ==> b != 0
  {
    if op == '+' then a + b
    else if op == '-' then a - b
    else if op == '*' then a * b
    else if op == '/' then Quotient(a, b)
    else if op == '%' then Remainder(a, b)
    else 0
  }

  predicate IsMul(op: char) { op == '*' || op == '/' || op == '%' }

  predicate IsAdd(op: char) { op == '+' || op == '-' }

  // ---------------------------------------------------------------- the parser on the remaining text

  /** The error flag: 0, 1 or 2 in the source.  Trapped stands for a processor exception: nothing runs after it. */
  datatype Status = Good | Bad | ByZero | Trapped

  /** The value, the text that is left and the error flag. */
  datatype Parsed = Parsed(val: int, rest: string, err: Status)

  predicate IsBlank(c: char) { c == ' ' || c == '\t' }

  /** The next character; the terminator at the end. */
  function Head(t: string): char { if t == [] then '\0' else t[0] }

  function SkipWs(t: string): (u: string)
    ensures |u| <= |t| && !IsBlank(Head(u))
  {
    if t != [] && IsBlank(t[0]) then SkipWs(t[1..]) else t
  }

  /** The value of a digit, or -1 for a character that is none. */
  function DigitOf(base: nat, c: char): int
  {
    if '0' <= c <= '9' then c as int - '0' as int
    else if base == 16 && 'a' <= c <= 'f' then 10 + (c as int - 'a' as int)
    else if base == 16 && 'A' <= c <= 'F' then 10 + (c as int - 'A' as int)
    else -1
  }

  /** The digits of a base and their values, in either case. */
  lemma DigitsMean(base: nat, c: char)
    requires base == 10 || base == 16
    ensures forall d: nat :: d < base ==> DigitOf(base, "0123456789abcdef"[d]) == d
    ensures forall d: nat :: d < base ==> DigitOf(base, "0123456789ABCDEF"[d]) == d
    ensures 0 <= DigitOf(base, c) <==> c in "0123456789abcdef"[..base] || c in "0123456789ABCDEF"[..base]
    ensures IsBlank(c) <==> c in " \t"
  {
    var low, high := "0123456789abcdef", "0123456789ABCDEF";
    var d := DigitOf(base, c);
    if 0 <= d {
      assert low[d] == c || high[d] == c;
      assert low[..base][d] == low[d] && high[..base][d] == high[d];
    }
  }

  /** The digit loop: accumulate while there are digits. */
  function Digits(base: nat, t: string, v: int): (r: Parsed)
    ensures |r.rest| <= |t|
  {
    if t != [] && 0 <= DigitOf(base, t[0]) then Digits(base, t[1..], Wrap(v * base + DigitOf(base, t[0])))
    else Parsed(v, t, Good)
  }

  predicate IsHex(t: string) { 2 <= |t| && t[0] == '0' && (t[1] == 'x' || t[1] == 'X') }

  function Literal(t: string): (r: Parsed)
    ensures |r.rest| <= |t|
  {
    var base := if IsHex(t) then 16 else 10;
    var u := if IsHex(t) then t[2..] else t;
    var r := Digits(base, u, 0);
    r.(err := if r.rest == u then Bad else Good)
  }

  function Factor(t: string): (r: Parsed)
    ensures |r.rest| <= |t|
    decreases |t|, 0
  {
    var u := SkipWs(t);
    if Head(u) == '+' then Factor(u[1..])
    else if Head(u) == '-' then
      var r := Factor(u[1..]);
      r.(val := Wrap(-r.val))
    else if Head(u) == '(' then
      var r := Expr(u[1..]);
      var w := SkipWs(r.rest);
      if r.err == Trapped then r
      else if Head(w) == ')' then r.(rest := w[1..])
      else Parsed(r.val, w, Bad)
    else Literal(u)
  }

  function Term(t: string): (r: Parsed)
    ensures |r.rest| <= |t|
    decreases |t|, 1
  {
    var r := Factor(t);
    if r.err != Good then r else TermRest(r.rest, r.val)
  }

  /** The loop of calc_parse_term, from a product so far. */
  function TermRest(t: string, left: int): (r: Parsed)
    ensures |r.rest| <= |t|
    decreases |t|, 0
  {
    var u := SkipWs(t);
    var op := Head(u);
    if !IsMul(op) then Parsed(left, u, Good)
    else
      var r := Factor(u[1..]);
      if r.err == Trapped then r
      else if IsDiv(op) && r.val == 0 then Parsed(0, r.rest, ByZero)
      else if Faults(op, left, r.val) then Parsed(0, r.rest, Trapped)
      else if r.err != Good then r.(val := Apply(op, left, r.val))
      else TermRest(r.rest, Apply(op, left, r.val))
  }

  function Expr(t: string): (r: Parsed)
    ensures |r.rest| <= |t|
    decreases |t|, 2
  {
    var r := Term(t);
    if r.err != Good then r else ExprRest(r.rest, r.val)
  }

  /** The loop of calc_parse_expr, from a sum so far. */
  function ExprRest(t: string, left: int): (r: Parsed)
    ensures |r.rest| <= |t|
    decreases |t|, 1
  {
    var u := SkipWs(t);
    var op := Head(u);
    if !IsAdd(op) then Parsed(left, u, Good)
    else
      var r := Term(u[1..]);
      if r.err != Good then r.(val := Apply(op, left, r.val))
      else ExprRest(r.rest, Apply(op, left, r.val))
  }

  // ---------------------------------------------------------------- the calculator

  class Calculator {
    const s: string
    var pos: nat
    var err: Status

    constructor (s: string)
      ensures this.s == s && pos == 0 && err == Good
    {
      this.s, pos, err := s, 0, Good;
    }

    function Peek(): char
      reads this
    {
      if pos < |s| then s[pos] else '\0'
    }

    /** calc_skip_ws. */
    method SkipBlanks()
      requires pos <= |s|
      modifies this`pos
      ensures old(pos) <= pos <= |s| && s[pos..] == SkipWs(s[old(pos)..])
    {
      while Peek() == ' ' || Peek() == '\t'
        invariant old(pos) <= pos <= |s| && SkipWs(s[pos..]) == SkipWs(s[old(pos)..])
        decreases |s| - pos
      {
        assert s[pos..][1..] == s[pos + 1..];
        pos := pos + 1;
      }
    }

    method ReadDigits(base: nat) returns (val: int, digits: nat)
      requires pos <= |s|
      modifies this`pos
      ensures old(pos) <= pos <= |s| && digits == pos - old(pos)
      ensures Parsed(val, s[pos..], Good) == Digits(base, s[old(pos)..], 0)
    {
      val, digits := 0, 0;
      while pos < |s| && 0 <= DigitOf(base, s[pos])
        invariant old(pos) <= pos <= |s| && digits == pos - old(pos)
        invariant Digits(base, s[pos..], val) == Digits(base, s[old(pos)..], 0)
      {
        assert s[pos..][1..] == s[pos + 1..];
        val := Wrap(val * base + DigitOf(base, s[pos]));
        pos := pos + 1;
        digits := digits + 1;
      }
    }

    /** calc_parse_factor. */
    method ParseFactor() returns (v: int)
      requires pos <= |s| && err == Good
      modifies this`pos, this`err
      ensures old(pos) <= pos <= |s| && Parsed(v, s[pos..], err) == Factor(s[old(pos)..])
      decreases |s| - pos, 0
    {
      hide Expr, Digits, SkipWs;
      SkipBlanks();
      ghost var u := s[pos..];
      if Peek() == '+' {
        pos := pos + 1;
        assert s[pos..] == u[1..];
        v := ParseFactor();
        return;
      }
      if Peek() == '-' {
        pos := pos + 1;
        assert s[pos..] == u[1..];
        v := ParseFactor();
        return Wrap(-v);
      }
      if Peek() == '(' {
        pos := pos + 1;
        assert s[pos..] == u[1..];
        v := ParseExpr();
        if err == Trapped { return; }
        SkipBlanks();
        ghost var w := s[pos..];
        if Peek() == ')' {
          pos := pos + 1;
          assert s[pos..] == w[1..];
        } else {
          err := Bad;
        }
        return;
      }
      v := ParseLiteral();
    }

    /** The literal part of calc_parse_factor. */
    method ParseLiteral() returns (v: int)
      requires pos <= |s| && err == Good
      modifies this`pos, this`err
      ensures old(pos) <= pos <= |s| && Parsed(v, s[pos..], err) == Literal(s[old(pos)..])
    {
      var digits: nat;
      ghost var u := s[pos..];
      if pos + 1 < |s| && s[pos] == '0' && (s[pos + 1] == 'x' || s[pos + 1] == 'X') {
        pos := pos + 2;
        assert s[pos..] == u[2..];
        v, digits := ReadDigits(16);
      } else {
        v, digits := ReadDigits(10);
      }
      if digits == 0 { err := Bad; }
    }

    /** calc_parse_term. */
    method ParseTerm() returns (left: int)
      requires pos <= |s| && err == Good
      modifies this`pos, this`err
      ensures old(pos) <= pos <= |s| && Parsed(left, s[pos..], err) == Term(s[old(pos)..])
      decreases |s| - pos, 1
    {
      hide Factor, SkipWs, Apply;
      left := ParseFactor();
      while err == Good
        invariant old(pos) <= pos <= |s|
        invariant Term(s[old(pos)..]) == if err == Good then TermRest(s[pos..], left) else Parsed(left, s[pos..], err)
        decreases |s| - pos + (if err == Good then 1 else 0)
      {
        SkipBlanks();
        var op := Peek();
        if op != '*' && op != '/' && op != '%' { break; }
        ghost var u := s[pos..];
        pos := pos + 1;
        assert s[pos..] == u[1..];
        var right := ParseFactor();
        if err == Trapped { return right; }
        if op != '*' && right == 0 {
          err := ByZero;
          return 0;
        }
        if Faults(op, left, right) {
          err := Trapped;
          return 0;
        }
        left := Apply(op, left, right);
      }
    }

    /** calc_parse_expr. */
    method ParseExpr() returns (left: int)
      requires pos <= |s| && err == Good
      modifies this`pos, this`err
      ensures old(pos) <= pos <= |s| && Parsed(left, s[pos..], err) == Expr(s[old(pos)..])
      decreases |s| - pos, 2
    {
      hide Term, SkipWs, Apply;
      left := ParseTerm();
      while err == Good
        invariant old(pos) <= pos <= |s|
        invariant Expr(s[old(pos)..]) == if err == Good then ExprRest(s[pos..], left) else Parsed(left, s[pos..], err)
        decreases |s| - pos + (if err == Good then 1 else 0)
      {
        SkipBlanks();
        var op := Peek();
        if op != '+' && op != '-' { break; }
        ghost var u := s[pos..];
        pos := pos + 1;
        assert s[pos..] == u[1..];
        var right := ParseTerm();
        left := Apply(op, left, right);
      }
    }

    /** The calc command: the whole text must be read. */
    method Evaluate() returns (res: int)
      requires pos == 0 && err == Good
      modifies this`pos, this`err
      ensures (res, err) == Evaluated(s)
    {
      hide Expr, SkipWs;
      assert s[0..] == s;
      res := ParseExpr();
      if err == Trapped { return; }
      SkipBlanks();
      if Peek() != '\0' && err == Good { err := Bad; }
    }
  }

  /** The value and the final error flag for a whole text. */
  function Evaluated(t: string): (int, Status)
  {
    var r := Expr(t);
    (r.val, if Head(SkipWs(r.rest)) != '\0' && r.err == Good then Bad else r.err)
  }

  // ---------------------------------------------------------------- trees and their text

  /** Expressions with the blanks that stand in front of each token; a parenthesis also has some in front of its
      close. */
  datatype Tree =
    | Dec(ws: string, digits: string)
    | Hex(ws: string, x: char, digits: string)
    | Unary(ws: string, op: char, arg: Tree)
    | Paren(ws: string, inner: Tree, close: string)
    | Binary(op: char, left: Tree, ws: string, right: Tree)

  ghost predicate Blanks(ws: string) { forall i :: 0 <= i < |ws| ==> IsBlank(ws[i]) }

  ghost predicate Numeral(base: nat, ds: string) { 0 < |ds| && forall i :: 0 <= i < |ds| ==> 0 <= DigitOf(base, ds[i]) }

  /** Blanks are blanks, digits digits and operators operators. */
  ghost predicate WellFormed(t: Tree)
  {
    match t
    case Dec(ws, ds) => Blanks(ws) && Numeral(10, ds)
    case Hex(ws, x, ds) => Blanks(ws) && (x == 'x' || x == 'X') && Numeral(16, ds)
    case Unary(ws, op, arg) => Blanks(ws) && IsAdd(op) && WellFormed(arg)
    case Paren(ws, inner, close) => Blanks(ws) && Blanks(close) && WellFormed(inner)
    case Binary(op, left, ws, right) => (IsAdd(op) || IsMul(op)) && Blanks(ws) && WellFormed(left) && WellFormed(right)
  }

  /** A tree whose printed form needs no further parentheses where a factor (0), a term (1) or an expression (2)
      stands. */
  predicate Fits(t: Tree, level: nat)
  {
    match t
    case Dec(_, _) => true
    case Hex(_, _, _) => true
    case Unary(_, _, arg) => Fits(arg, 0)
    case Paren(_, inner, _) => Fits(inner, 2)
    case Binary(op, left, _, right) =>
      if IsMul(op) then 1 <= level && Fits(left, 1) && Fits(right, 0)
      else 2 <= level && Fits(left, 2) && Fits(right, 1)
  }

  function Text(t: Tree): string
  {
    match t
    case Dec(ws, ds) => ws + ds
    case Hex(ws, x, ds) => ws + (['0', x] + ds)
    case Unary(ws, op, arg) => ws + ([op] + Text(arg))
    case Paren(ws, inner, close) => ws + (['('] + (Text(inner) + (close + [')'])))
    case Binary(op, left, ws, right) => Text(left) + (ws + ([op] + Text(right)))
  }

  /** The digits read from left to right, in machine arithmetic. */
  function Accumulated(base: nat, ds: string, v: int): int
  {
    if ds == [] then v else Accumulated(base, ds[1..], Wrap(v * base + DigitOf(base, ds[0])))
  }

  /** What evaluating a tree comes to: its value; an error, with the value that is passed on all the same and whether
      the text of the tree was read to its end; or a processor exception. */
  datatype Outcome = Done(val: int) | Failed(val: int, status: Status, whole: bool) | Trap

  /** A binary operator on the value of its left operand and what the right one came to.  An error in the right operand
      does not keep the operator from being carried out. */
  function Combined(op: char, a: int, b: Outcome): Outcome
  {
    if b.Trap? then Trap
    else if IsDiv(op) && b.val == 0 then Failed(0, ByZero, b.Done? || b.whole)
    else if Faults(op, a, b.val) then Trap
    else b.(val := Apply(op, a, b.val))
  }

  /** Evaluation in machine arithmetic, from left to right. */
  function Run(t: Tree): Outcome
  {
    match t
    case Dec(_, ds) => Done(Accumulated(10, ds, 0))
    case Hex(_, _, ds) => Done(Accumulated(16, ds, 0))
    case Unary(_, op, arg) =>
      var a := Run(arg);
      if a.Trap? || op == '+' then a else a.(val := Wrap(-a.val))
    case Paren(_, inner, _) =>
      var a := Run(inner);
      if a.Failed? && !a.whole then a.(status := Bad) else a
    case Binary(op, left, _, right) =>
      Joined(op, Run(left), Run(right))
  }

  /** An error on the left keeps the operator from being read. */
  function Joined(op: char, a: Outcome, b: Outcome): Outcome
  {
    match a
    case Trap => Trap
    case Failed(v, status, _) => Failed(v, status, false)
    case Done(v) => Combined(op, v, b)
  }

  // ---------------------------------------------------------------- reading printed text

  /** No numeral can go on with this text. */
  predicate Stops(t: string) { DigitOf(16, Head(t)) < 0 && Head(t) != 'x' && Head(t) != 'X' }

  lemma {:induction false} SkipOver(ws: string, t: string)
    requires Blanks(ws)
    ensures SkipWs(ws + t) == SkipWs(t)
  {
    if ws == [] {
      assert ws + t == t;
    } else {
      SkipOver(ws[1..], t);
      assert (ws + t)[1..] == ws[1..] + t;
    }
  }

  lemma {:induction false} DigitsRead(base: nat, ds: string, rest: string, v: int)
    requires (base == 10 || base == 16) && (forall i :: 0 <= i < |ds| ==> 0 <= DigitOf(base, ds[i])) && Stops(rest)
    ensures Digits(base, ds + rest, v) == Parsed(Accumulated(base, ds, v), rest, Good)
  {
    if ds == [] {
      assert ds + rest == rest;
    } else {
      DigitsRead(base, ds[1..], rest, Wrap(v * base + DigitOf(base, ds[0])));
      assert (ds + rest)[1..] == ds[1..] + rest;
    }
  }

  lemma FactorBlank(ws: string, t: string)
    requires Blanks(ws)
    ensures Factor(ws + t) == Factor(t)
  {
    hide Expr, Literal, SkipWs;
    SkipOver(ws, t);
  }

  lemma FactorSign(op: char, t: string)
    requires IsAdd(op)
    ensures var r := Factor(t); Factor([op] + t) == if op == '+' then r else r.(val := Wrap(-r.val))
  {
    hide Expr, Literal, Wrap;
    assert SkipWs([op] + t) == [op] + t && ([op] + t)[1..] == t;
  }

  /** What calc_parse_factor does with the expression it has read behind an open parenthesis. */
  ghost function ParenRound(r: Parsed): Parsed
  {
    var w := SkipWs(r.rest);
    if r.err == Trapped then r else if Head(w) == ')' then r.(rest := w[1..]) else Parsed(r.val, w, Bad)
  }

  lemma FactorParen(t: string)
    ensures Factor(['('] + t) == ParenRound(Expr(t))
  {
    hide Expr, Literal;
    assert SkipWs(['('] + t) == ['('] + t && (['('] + t)[1..] == t;
  }

  lemma FactorDec(ds: string, rest: string)
    requires Numeral(10, ds) && Stops(rest)
    ensures Factor(ds + rest) == Parsed(Accumulated(10, ds, 0), rest, Good)
  {
    hide Expr, Digits, Accumulated;
    var u := ds + rest;
    assert u[0] == ds[0] && 0 <= DigitOf(10, ds[0]);
    assert SkipWs(u) == u;
    assert 1 < |u| ==> u[1] == if 1 < |ds| then ds[1] else rest[0];
    assert 1 < |ds| ==> 0 <= DigitOf(10, ds[1]);
    assert !IsHex(u);
    DigitsRead(10, ds, rest, 0);
  }

  lemma FactorHex(x: char, ds: string, rest: string)
    requires (x == 'x' || x == 'X') && Numeral(16, ds) && Stops(rest)
    ensures Factor((['0', x] + ds) + rest) == Parsed(Accumulated(16, ds, 0), rest, Good)
  {
    hide Expr, Digits, Accumulated;
    var u := (['0', x] + ds) + rest;
    assert SkipWs(u) == u && IsHex(u) && u[2..] == ds + rest;
    DigitsRead(16, ds, rest, 0);
  }

  /** The text goes on with an operator. */
  predicate OperatorNext(t: string) { IsAdd(Head(SkipWs(t))) || IsMul(Head(SkipWs(t))) }

  /** What reading a printed tree in front of `rest` gives: its value and then what `after` says, an error that stopped
      at the end of the tree or in front of one of its operators, or a processor exception. */
  ghost predicate Reads(r: Parsed, o: Outcome, rest: string, after: Parsed)
  {
    match o
    case Done(_) => r == after
    case Failed(v, status, whole) =>
      && r.val == v && r.err == status && (status == Bad || status == ByZero)
      && (if whole then r.rest == rest else OperatorNext(r.rest))
    case Trap => r.err == Trapped
  }

  ghost function ValueOf(o: Outcome): int { if o.Trap? then 0 else o.val }

  lemma {:induction false} FactorReads(t: Tree, rest: string)
    requires WellFormed(t) && Fits(t, 0) && Stops(rest)
    ensures Reads(Factor(Text(t) + rest), Run(t), rest, Parsed(ValueOf(Run(t)), rest, Good))
    decreases t, 0
  {
    hide Factor, Expr, ExprRest, SkipWs, Stops, Accumulated, Wrap;
    match t
    case Dec(ws, ds) =>
      FactorBlank(ws, ds + rest);
      FactorDec(ds, rest);
      assert Text(t) + rest == ws + (ds + rest);
    case Hex(ws, x, ds) =>
      var u := (['0', x] + ds) + rest;
      FactorBlank(ws, u);
      FactorHex(x, ds, rest);
      assert Text(t) + rest == ws + u;
    case Unary(ws, op, arg) =>
      var u := Text(arg) + rest;
      FactorBlank(ws, [op] + u);
      FactorSign(op, u);
      FactorReads(arg, rest);
      assert Text(t) + rest == ws + ([op] + u);
    case Paren(ws, inner, close) =>
      CloseTail(close, rest);
      ExprReads(inner, close + ([')'] + rest));
      ParenReads(t, rest);
  }

  lemma ParenReads(t: Tree, rest: string)
    requires t.Paren? && WellFormed(t)
    requires var tail := t.close + ([')'] + rest);
             Reads(Expr(Text(t.inner) + tail), Run(t.inner), tail, ExprRest(tail, ValueOf(Run(t.inner))))
    ensures Reads(Factor(Text(t) + rest), Run(t), rest, Parsed(ValueOf(Run(t)), rest, Good))
  {
    hide Factor, Expr, ExprRest, SkipWs, Reads, ParenRound;
    var tail := t.close + ([')'] + rest);
    var u := Text(t.inner) + tail;
    FactorBlank(t.ws, ['('] + u);
    FactorParen(u);
    CloseRead(t.close, rest, ValueOf(Run(t.inner)));
    ParenJoined(Expr(u), Run(t.inner), t.close, rest);
    assert Text(t) + rest == t.ws + (['('] + u);
  }

  lemma ParenJoined(r: Parsed, o: Outcome, close: string, rest: string)
    requires Blanks(close)
    requires Reads(r, o, close + ([')'] + rest), Parsed(ValueOf(o), [')'] + rest, Good))
    ensures var p := if o.Failed? && !o.whole then o.(status := Bad) else o;
            Reads(ParenRound(r), p, rest, Parsed(ValueOf(p), rest, Good))
  {
    hide SkipWs;
    CloseTail(close, rest);
    SkipTwice(r.rest);
    assert ([')'] + rest)[1..] == rest;
  }

  lemma SkipTwice(t: string)
    ensures SkipWs(SkipWs(t)) == SkipWs(t)
  {
  }

  lemma CloseTail(close: string, rest: string)
    requires Blanks(close)
    ensures var tail := close + ([')'] + rest);
            Stops(tail) && SkipWs(tail) == [')'] + rest && SkipWs([')'] + rest) == [')'] + rest
  {
    var t := [')'] + rest;
    SkipOver(close, t);
    assert SkipWs(t) == t;
    assert Head(close + t) == if close == [] then ')' else close[0];
  }

  lemma CloseRead(close: string, rest: string, v: int)
    requires Blanks(close)
    ensures ExprRest(close + ([')'] + rest), v) == Parsed(v, [')'] + rest, Good) && ([')'] + rest)[1..] == rest
  {
    CloseTail(close, rest);
    hide SkipWs, Term;
  }

  /** The text an operator starts, seen from in front of its blanks. */
  lemma OperatorTail(ws: string, op: char, t: string)
    requires Blanks(ws) && (IsAdd(op) || IsMul(op))
    ensures var tail := ws + ([op] + t);
            Stops(tail) && SkipWs(tail) == [op] + t && Head([op] + t) == op && ([op] + t)[1..] == t
  {
    var u := [op] + t;
    SkipOver(ws, u);
    assert u[0] == op && !IsBlank(u[0]);
    assert SkipWs(u) == u;
    assert Head(ws + u) == if ws == [] then op else ws[0];
  }

  /** What one round of the loop of calc_parse_term does with the factor it has read. */
  ghost function TermRound(op: char, left: int, r: Parsed): Parsed
  {
    if r.err == Trapped then r
    else if IsDiv(op) && r.val == 0 then Parsed(0, r.rest, ByZero)
    else if Faults(op, left, r.val) then Parsed(0, r.rest, Trapped)
    else if r.err != Good then r.(val := Apply(op, left, r.val))
    else TermRest(r.rest, Apply(op, left, r.val))
  }

  lemma TermStep(ws: string, op: char, t: string, left: int)
    requires Blanks(ws) && IsMul(op)
    ensures TermRest(ws + ([op] + t), left) == TermRound(op, left, Factor(t))
  {
    OperatorTail(ws, op, t);
    hide SkipWs, Factor, Apply;
  }

  lemma TermJoined(op: char, r: Parsed, a: Outcome, tail: string, f: Parsed, b: Outcome, rest: string)
    requires OperatorNext(tail) && Reads(r, a, tail, TermRound(op, ValueOf(a), f))
    requires Reads(f, b, rest, Parsed(ValueOf(b), rest, Good))
    ensures Reads(r, Joined(op, a, b), rest, TermRest(rest, ValueOf(Joined(op, a, b))))
  {
    hide TermRest, Apply, SkipWs;
  }

  lemma ExprStep(ws: string, op: char, t: string, left: int)
    requires Blanks(ws) && IsAdd(op)
    ensures var r := Term(t);
            ExprRest(ws + ([op] + t), left) ==
            if r.err != Good then r.(val := Apply(op, left, r.val)) else ExprRest(r.rest, Apply(op, left, r.val))
  {
    OperatorTail(ws, op, t);
    hide SkipWs, Term, Apply;
  }

  lemma {:induction false} TermReads(t: Tree, rest: string)
    requires WellFormed(t) && Fits(t, 1) && Stops(rest)
    ensures Reads(Term(Text(t) + rest), Run(t), rest, TermRest(rest, ValueOf(Run(t))))
    decreases t, 1
  {
    hide Factor, TermRest, SkipWs, Stops, Apply, Joined, TermRound, Reads;
    match t
    case Binary(op, left, ws, right) =>
      var u := Text(right) + rest;
      var tail := ws + ([op] + u);
      OperatorTail(ws, op, u);
      TermReads(left, tail);
      FactorReads(right, rest);
      TermStep(ws, op, u, ValueOf(Run(left)));
      assert Text(t) + rest == Text(left) + tail;
      TermJoined(op, Term(Text(t) + rest), Run(left), tail, Factor(u), Run(right), rest);
    case _ =>
      FactorReads(t, rest);
      FactorIsTerm(t, rest);
  }

  lemma FactorIsTerm(t: Tree, rest: string)
    requires Reads(Factor(Text(t) + rest), Run(t), rest, Parsed(ValueOf(Run(t)), rest, Good))
    ensures Reads(Term(Text(t) + rest), Run(t), rest, TermRest(rest, ValueOf(Run(t))))
  {
    hide Factor, TermRest, SkipWs, Run, Text;
  }

  /** Where no term goes on, the loop of a term ends behind the blanks. */
  lemma TermEnds(rest: string, v: int)
    requires !IsMul(Head(SkipWs(rest)))
    ensures TermRest(rest, v) == Parsed(v, SkipWs(rest), Good)
  {
    hide SkipWs, Factor;
  }

  lemma ExprSkips(rest: string, v: int)
    ensures ExprRest(SkipWs(rest), v) == ExprRest(rest, v)
  {
    assert SkipWs(SkipWs(rest)) == SkipWs(rest);
    hide SkipWs, Term;
  }

  lemma {:induction false} ExprReads(t: Tree, rest: string)
    requires WellFormed(t) && Fits(t, 2) && Stops(rest) && !IsMul(Head(SkipWs(rest)))
    ensures Reads(Expr(Text(t) + rest), Run(t), rest, ExprRest(rest, ValueOf(Run(t))))
    decreases t, 2
  {
    hide Term, TermRest, ExprRest, SkipWs, Stops, Apply;
    if t.Binary? && IsAdd(t.op) {
      var u := Text(t.right) + rest;
      var tail := t.ws + ([t.op] + u);
      OperatorTail(t.ws, t.op, u);
      ExprReads(t.left, tail);
      TermReads(t.right, rest);
      TermEnds(rest, ValueOf(Run(t.right)));
      ExprStep(t.ws, t.op, u, ValueOf(Run(t.left)));
      ExprSkips(rest, ValueOf(Run(t)));
      assert Text(t) + rest == Text(t.left) + tail;
    } else {
      TermReads(t, rest);
      TermEnds(rest, ValueOf(Run(t)));
      ExprSkips(rest, ValueOf(Run(t)));
    }
  }

  /** The calculator on a printed tree: all text is read without error and the value is the machine's, or it reports
      just the error that evaluating the tree runs into, or it traps exactly when evaluating the tree does. */
  lemma PrintedEvaluates(t: Tree, trailing: string)
    requires WellFormed(t) && Fits(t, 2) && Blanks(trailing)
    ensures var r := Evaluated(Text(t) + trailing);
            match Run(t)
            case Done(v) => r == (v, Good)
            case Failed(v, status, _) => r == (v, status) && (status == Bad || status == ByZero)
            case Trap => r.1 == Trapped
  {
    hide Expr, Term, Apply;
    SkipOver(trailing, []);
    assert trailing + [] == trailing;
    assert Head(trailing) == if trailing == [] then '\0' else trailing[0];
    ExprReads(t, trailing);
  }

  // ---------------------------------------------------------------- exact arithmetic

  /** The number a numeral denotes. */
  function Value(base: nat, ds: string): int
  {
    if ds == [] then 0 else Value(base, ds[..|ds| - 1]) * base + DigitOf(base, ds[|ds| - 1])
  }

  /** What an operator means in the integers; / and % by the law of division. */
  ghost function ExactOp(op: char, a: int, b: int): int
    requires IsDiv(op) ==> b != 0
  {
    if op == '+' then a + b
    else if op == '-' then a - b
    else if op == '*' then a * b
    else if IsDiv(op) then
      QuotientTruncates(a, b);
      var q, r :| IsDivision(a, b, q, r);
      if op == '/' then q else r
    else 0
  }

  lemma OpExact(op: char, a: int, b: int)
    requires IsDiv(op) ==> b != 0
    ensures ApplyExact(op, a, b) == ExactOp(op, a, b)
  {
    hide Quotient, Remainder;
    if IsDiv(op) {
      QuotientTruncates(a, b);
      var q, r := Quotient(a, b), Remainder(a, b);
      forall q', r' | IsDivision(a, b, q', r') ensures q' == q && r' == r {
        DivisionUnique(a, b, q, r, q', r');
      }
    }
  }

  /** The value in the integers; None when a divisor is zero. */
  ghost function Exact(t: Tree): Option<int>
  {
    match t
    case Dec(_, ds) => Some(Value(10, ds))
    case Hex(_, _, ds) => Some(Value(16, ds))
    case Unary(_, op, arg) =>
      var a := Exact(arg);
      if a.None? || op == '+' then a else Some(-a.value)
    case Paren(_, inner, _) => Exact(inner)
    case Binary(op, left, _, right) =>
      var a, b := Exact(left), Exact(right);
      if a.None? || b.None? || (IsDiv(op) && b.value == 0) then None
      else Some(ExactOp(op, a.value, b.value))
  }

  /** Every literal and every intermediate result is an int; for % so is the quotient the machine computes with it. */
  ghost predicate InRange(t: Tree)
  {
    && (Exact(t).Some? ==> FitsInt(Exact(t).value))
    && match t
       case Dec(_, _) => true
       case Hex(_, _, _) => true
       case Unary(_, _, arg) => InRange(arg)
       case Paren(_, inner, _) => InRange(inner)
       case Binary(op, left, _, right) =>
         && InRange(left) && InRange(right)
         && (op == '%' && Exact(t).Some? ==> FitsInt(ExactOp('/', Exact(left).value, Exact(right).value)))
  }

  lemma WrapFits(x: int)
    requires FitsInt(x)
    ensures Wrap(x) == x
  {
  }

  lemma {:induction false} AccumulatedSnoc(base: nat, ds: string, c: char, v: int)
    ensures Accumulated(base, ds + [c], v) == Wrap(Accumulated(base, ds, v) * base + DigitOf(base, c))
  {
    hide Wrap, DigitOf;
    if ds == [] {
      assert ds + [c] == [c];
      assert [c][1..] == [];
    } else {
      AccumulatedSnoc(base, ds[1..], c, Wrap(v * base + DigitOf(base, ds[0])));
      assert (ds + [c])[1..] == ds[1..] + [c];
    }
  }

  lemma {:induction false} NumeralExact(base: nat, ds: string)
    requires 1 <= base && (forall i :: 0 <= i < |ds| ==> 0 <= DigitOf(base, ds[i])) && Value(base, ds) < HALF
    ensures 0 <= Value(base, ds) == Accumulated(base, ds, 0)
  {
    hide Wrap, DigitOf;
    if ds != [] {
      var init, c := ds[..|ds| - 1], ds[|ds| - 1];
      assert ds == init + [c];
      assert 0 <= DigitOf(base, c);
      assert HALF <= Value(base, init) ==> Value(base, init) <= Value(base, init) * base;
      NumeralExact(base, init);
      AccumulatedSnoc(base, init, c, 0);
      WrapFits(Value(base, ds));
    }
  }

  /** Where everything fits an int the machine computes the exact value, and none where there is none. */
  lemma {:induction false} MachineExact(t: Tree)
    requires WellFormed(t) && InRange(t)
    ensures if Exact(t).Some? then Run(t) == Done(Exact(t).value) else !Run(t).Done?
  {
    hide Wrap, Accumulated, Value, DigitOf, ApplyExact, ExactOp, Quotient;
    match t
    case Dec(_, ds) => NumeralExact(10, ds);
    case Hex(_, _, ds) => NumeralExact(16, ds);
    case Unary(_, op, arg) =>
      MachineExact(arg);
      if op != '+' && Exact(arg).Some? { WrapFits(-Exact(arg).value); }
    case Paren(_, inner, _) => MachineExact(inner);
    case Binary(op, left, _, right) =>
      MachineExact(left);
      MachineExact(right);
      if Exact(t).Some? {
        WrapFits(Exact(t).value);
        OpExact(op, Exact(left).value, Exact(right).value);
        NoFault(t);
      }
  }

  lemma NoFault(t: Tree)
    requires t.Binary? && InRange(t) && Exact(t).Some?
    ensures !Faults(t.op, Exact(t.left).value, Exact(t.right).value)
  {
    var a, b := Exact(t.left).value, Exact(t.right).value;
    hide ExactOp, Quotient;
    if IsDiv(t.op) {
      FaultIsOverflow(t.op, a, b);
      OpExact('/', a, b);
    }
  }

  // ---------------------------------------------------------------- arithmetic modulo 2^32

  predicate NoDivision(t: Tree)
  {
    match t
    case Dec(_, _) => true
    case Hex(_, _, _) => true
    case Unary(_, _, arg) => NoDivision(arg)
    case Paren(_, inner, _) => NoDivision(inner)
    case Binary(op, left, _, right) => !IsDiv(op) && NoDivision(left) && NoDivision(right)
  }

  /** Wrapping gives the one int that differs by a multiple of 2^32. */
  lemma WrapMeans(x: int, y: int)
    ensures FitsInt(Wrap(x)) && (x - Wrap(x)) % (2 * HALF) == 0
    ensures FitsInt(y) && (x - y) % (2 * HALF) == 0 ==> y == Wrap(x)
  {
  }

  function Turns(x: int): int { (x + HALF) / (2 * HALF) }

  lemma WrapBy(x: int)
    ensures x == Wrap(x) + Turns(x) * (2 * HALF)
  {
  }

  lemma WrapShift(x: int, k: int)
    ensures Wrap(x + k * (2 * HALF)) == Wrap(x)
  {
  }

  lemma WrapOp(op: char, a: int, b: int)
    requires !IsDiv(op)
    ensures Apply(op, Wrap(a), Wrap(b)) == Wrap(ExactOp(op, a, b))
  {
    var i, j := Turns(a), Turns(b);
    WrapBy(a);
    WrapBy(b);
    var a', b' := Wrap(a), Wrap(b);
    hide Wrap, Turns;
    if op == '+' {
      WrapShift(a' + b', i + j);
    } else if op == '-' {
      WrapShift(a' - b', i - j);
    } else if op == '*' {
      ShiftedProduct(a', i, b', j, 2 * HALF);
      WrapShift(a' * b', a' * j + b' * i + i * j * (2 * HALF));
    }
  }

  lemma ShiftedProduct(a: int, i: int, b: int, j: int, m: int)
    ensures (a + i * m) * (b + j * m) == a * b + (a * j + b * i + i * j * m) * m
  {
  }

  lemma {:induction false} NumeralWraps(base: nat, ds: string)
    ensures Accumulated(base, ds, 0) == Wrap(Value(base, ds))
  {
    if ds == [] {
      WrapFits(0);
    } else {
      hide Wrap, DigitOf;
      var init, c := ds[..|ds| - 1], ds[|ds| - 1];
      assert ds == init + [c];
      NumeralWraps(base, init);
      AccumulatedSnoc(base, init, c, 0);
      WrapDigit(Value(base, init), base, DigitOf(base, c));
    }
  }

  lemma WrapDigit(v: int, base: int, d: int)
    ensures Wrap(Wrap(v) * base + d) == Wrap(v * base + d)
  {
    hide Wrap, Turns;
    WrapBy(v);
    MovedProduct(Wrap(v), Turns(v), base, 2 * HALF);
    WrapShift(Wrap(v) * base + d, Turns(v) * base);
  }

  lemma MovedProduct(a: int, i: int, b: int, m: int)
    ensures (a + i * m) * b == a * b + i * b * m
  {
  }

  /** Whether anything fits an int or not, without division the machine computes the exact value modulo 2^32. */
  lemma {:induction false} MachineWraps(t: Tree)
    requires NoDivision(t)
    ensures Exact(t).Some? && Run(t) == Done(Wrap(Exact(t).value))
  {
    hide Wrap, Accumulated, Value, ExactOp, Apply, IsDiv, Turns;
    match t
    case Dec(_, ds) => NumeralWraps(10, ds);
    case Hex(_, _, ds) => NumeralWraps(16, ds);
    case Unary(_, op, arg) =>
      MachineWraps(arg);
      var v := Exact(arg).value;
      WrapBy(v);
      WrapShift(-Wrap(v), -Turns(v));
    case Paren(_, inner, _) => MachineWraps(inner);
    case Binary(op, left, _, right) =>
      MachineWraps(left);
      MachineWraps(right);
      WrapOp(op, Exact(left).value, Exact(right).value);
      NeverFaults(op, Wrap(Exact(left).value), Wrap(Exact(right).value));
  }

  lemma NeverFaults(op: char, a: int, b: int)
    requires !IsDiv(op)
    ensures !Faults(op, a, b)
  {
  }

  // ---------------------------------------------------------------- every tree

  function AtLevel(t: Tree, level: nat): Tree { if Fits(t, level) then t else Paren([], t, []) }

  /** The same expression with parentheses around the operands that need them. */
  function Parenthesized(t: Tree): Tree
  {
    match t
    case Dec(_, _) => t
    case Hex(_, _, _) => t
    case Unary(ws, op, arg) => Unary(ws, op, AtLevel(Parenthesized(arg), 0))
    case Paren(ws, inner, close) => Paren(ws, Parenthesized(inner), close)
    case Binary(op, left, ws, right) =>
      if IsMul(op) then Binary(op, AtLevel(Parenthesized(left), 1), ws, AtLevel(Parenthesized(right), 0))
      else Binary(op, Parenthesized(left), ws, AtLevel(Parenthesized(right), 1))
  }

  /** Parentheses may turn the error that is reported into a syntax error, and do nothing else to an outcome. */
  predicate Alike(o: Outcome, p: Outcome)
  {
    match o
    case Done(_) => p == o
    case Failed(v, _, _) => p.Failed? && p.val == v
    case Trap => p.Trap?
  }

  lemma AtLevelMeans(t: Tree, level: nat)
    requires WellFormed(t) && Fits(t, 2)
    ensures var p := AtLevel(t, level);
            WellFormed(p) && Fits(p, level) && Alike(Run(t), Run(p)) && (Fits(t, level) ==> p == t)
  {
    hide Apply, Accumulated, Wrap;
  }

  lemma AlikeChain(o: Outcome, p: Outcome, q: Outcome)
    requires Alike(o, p) && Alike(p, q)
    ensures Alike(o, q)
  {
  }

  lemma UnaryAlike(ws: string, op: char, t: Tree, u: Tree)
    requires Alike(Run(t), Run(u))
    ensures Alike(Run(Unary(ws, op, t)), Run(Unary(ws, op, u)))
  {
  }

  lemma BinaryAlike(op: char, l: Tree, l': Tree, ws: string, r: Tree, r': Tree)
    requires Alike(Run(l), Run(l')) && Alike(Run(r), Run(r'))
    ensures Alike(Run(Binary(op, l, ws, r)), Run(Binary(op, l', ws, r')))
  {
    JoinedAlike(op, Run(l), Run(l'), Run(r), Run(r'));
  }

  lemma JoinedAlike(op: char, a: Outcome, a': Outcome, b: Outcome, b': Outcome)
    requires Alike(a, a') && Alike(b, b')
    ensures Alike(Joined(op, a, b), Joined(op, a', b'))
  {
    hide Apply;
  }

  /** Adding parentheses makes a tree printable, keeps its value, and does nothing where none are missing. */
  lemma {:induction false} ParenthesizedMeans(t: Tree)
    requires WellFormed(t)
    ensures var p := Parenthesized(t);
            WellFormed(p) && Fits(p, 2) && Alike(Run(t), Run(p)) && (Fits(t, 2) ==> p == t)
  {
    hide Run, Alike, AtLevel, IsMul, IsAdd;
    match t
    case Dec(_, _) => AlikeSame(Run(t));
    case Hex(_, _, _) => AlikeSame(Run(t));
    case Unary(ws, op, arg) =>
      var a := Parenthesized(arg);
      ParenthesizedMeans(arg);
      LevelsNest(arg);
      AtLevelMeans(a, 0);
      AlikeChain(Run(arg), Run(a), Run(AtLevel(a, 0)));
      UnaryAlike(ws, op, arg, AtLevel(a, 0));
    case Paren(ws, inner, close) =>
      ParenthesizedMeans(inner);
      ParenAlike(ws, inner, Parenthesized(inner), close);
    case Binary(op, left, ws, right) =>
      var l, r, level := Parenthesized(left), Parenthesized(right), if IsMul(op) then 0 else 1;
      ParenthesizedMeans(left);
      ParenthesizedMeans(right);
      LevelsNest(left);
      LevelsNest(right);
      AtLevelMeans(r, level);
      AlikeChain(Run(right), Run(r), Run(AtLevel(r, level)));
      if IsMul(op) {
        AtLevelMeans(l, 1);
        AlikeChain(Run(left), Run(l), Run(AtLevel(l, 1)));
        BinaryAlike(op, left, AtLevel(l, 1), ws, right, AtLevel(r, level));
      } else {
        BinaryAlike(op, left, l, ws, right, AtLevel(r, level));
      }
  }

  lemma AlikeSame(o: Outcome)
    ensures Alike(o, o)
  {
  }

  lemma ParenAlike(ws: string, t: Tree, u: Tree, close: string)
    requires Alike(Run(t), Run(u))
    ensures Alike(Run(Paren(ws, t, close)), Run(Paren(ws, u, close)))
  {
  }

  lemma LevelsNest(t: Tree)
    ensures (Fits(t, 0) ==> Fits(t, 1)) && (Fits(t, 1) ==> Fits(t, 2))
  {
  }

  /** Every expression, printed with any spacing and the parentheses it needs: the calculator reads it to the end
      without error and gives its exact value when all intermediate results fit an int, unless a divisor is zero; then
      it reports an error, or traps when evaluating the tree does. */
  lemma EveryExpressionEvaluates(t: Tree, trailing: string)
    requires WellFormed(t) && Blanks(trailing) && InRange(t)
    ensures var r := Evaluated(Text(Parenthesized(t)) + trailing);
            if Exact(t).Some? then r == (Exact(t).value, Good) else r.1 != Good && (r.1 == Trapped <==> Run(t).Trap?)
  {
    hide Evaluated, Text, Run, Exact, InRange, WellFormed;
    ParenthesizedMeans(t);
    MachineExact(t);
    PrintedEvaluates(Parenthesized(t), trailing);
  }

  /** Every expression without division: the calculator gives its exact value modulo 2^32, whatever does not fit. */
  lemma DivisionFreeEvaluates(t: Tree, trailing: string)
    requires WellFormed(t) && Blanks(trailing) && NoDivision(t)
    ensures Exact(t).Some? && Evaluated(Text(Parenthesized(t)) + trailing) == (Wrap(Exact(t).value), Good)
  {
    hide Evaluated, Text, Run, Exact, WellFormed, NoDivision, Wrap;
    ParenthesizedMeans(t);
    MachineWraps(t);
    PrintedEvaluates(Parenthesized(t), trailing);
  }

  // ---------------------------------------------------------------- zero divisors and exceptions

  /** No divisor has a division in it. */
  predicate PlainDivisors(t: Tree)
  {
    match t
    case Dec(_, _) => true
    case Hex(_, _, _) => true
    case Unary(_, _, arg) => PlainDivisors(arg)
    case Paren(_, inner, _) => PlainDivisors(inner)
    case Binary(op, left, _, right) => PlainDivisors(left) && PlainDivisors(right) && (IsDiv(op) ==> NoDivision(right))
  }

  lemma {:induction false} NoDivisionDone(t: Tree)
    requires NoDivision(t)
    ensures Run(t).Done?
  {
    hide Apply, Wrap, Accumulated;
    match t
    case Dec(_, _) =>
    case Hex(_, _, _) =>
    case Unary(_, _, arg) => NoDivisionDone(arg);
    case Paren(_, inner, _) => NoDivisionDone(inner);
    case Binary(_, left, _, right) =>
      NoDivisionDone(left);
      NoDivisionDone(right);
  }

  /** Where everything fits an int and no divisor has a division in it, a zero divisor is always reported. */
  lemma {:induction false} PlainNeverTraps(t: Tree)
    requires WellFormed(t) && InRange(t) && PlainDivisors(t)
    ensures !Run(t).Trap?
  {
    hide Apply, ExactOp, Wrap, Accumulated, Value, Quotient;
    match t
    case Dec(_, _) =>
    case Hex(_, _, _) =>
    case Unary(_, _, arg) => PlainNeverTraps(arg);
    case Paren(_, inner, _) => PlainNeverTraps(inner);
    case Binary(op, left, _, right) =>
      PlainNeverTraps(left);
      PlainNeverTraps(right);
      MachineExact(left);
      MachineExact(right);
      if IsDiv(op) { NoDivisionDone(right); }
      if Exact(t).Some? { NoFault(t); }
  }

  /** The smallest int, written 0x80000000, divided by -1 stops the processor. */
  lemma TrapExample()
    ensures Evaluated("0x80000000/-1").1 == Trapped
  {
    hide Evaluated, Accumulated;
    var l, r := Hex([], 'x', "80000000"), Unary([], '-', Dec([], "1"));
    var t := Binary('/', l, [], r);
    SmallestInt();
    OneDigit(10, '1');
    assert Run(l) == Done(-HALF) && Run(r) == Done(-1);
    assert Text(l) == "0x80000000" && Text(r) == "-1";
    assert Text(t) + [] == "0x80000000/-1";
    PrintedEvaluates(t, []);
  }

  lemma {:induction false} OneMoreDigit(base: nat, ds: string, c: char, v: int, more: string)
    requires Accumulated(base, ds, 0) == v && Value(base, ds) == v && more == ds + [c]
    ensures Accumulated(base, more, 0) == Wrap(v * base + DigitOf(base, c)) &&
            Value(base, more) == v * base + DigitOf(base, c)
  {
    hide Wrap, DigitOf;
    AccumulatedSnoc(base, ds, c, 0);
    assert more[..|more| - 1] == ds;
  }

  lemma OneDigit(base: nat, c: char)
    ensures Accumulated(base, [c], 0) == Wrap(DigitOf(base, c)) && Value(base, [c]) == DigitOf(base, c)
  {
    hide Wrap, DigitOf;
    OneMoreDigit(base, [], c, 0, [c]);
  }

  lemma SmallestInt()
    ensures Accumulated(16, "80000000", 0) == -HALF
  {
    hide Accumulated, Value;
    OneDigit(16, '8');
    OneMoreDigit(16, "8", '0', 8, "80");
    OneMoreDigit(16, "80", '0', 0x80, "800");
    OneMoreDigit(16, "800", '0', 0x800, "8000");
    OneMoreDigit(16, "8000", '0', 0x8000, "80000");
    OneMoreDigit(16, "80000", '0', 0x8_0000, "800000");
    OneMoreDigit(16, "800000", '0', 0x80_0000, "8000000");
    OneMoreDigit(16, "8000000", '0', 0x800_0000, "80000000");
  }

  /** A tree with its outcome and its exact value. */
  ghost predicate Example(t: Tree, o: Outcome, x: Option<int>)
  {
    WellFormed(t) && InRange(t) && Run(t) == o && Exact(t) == x
  }

  lemma DecExample(ds: string, v: int)
    requires Numeral(10, ds) && Accumulated(10, ds, 0) == v && Value(10, ds) == v && FitsInt(v)
    ensures Example(Dec([], ds), Done(v), Some(v))
  {
    hide Accumulated, Value;
  }

  lemma NegExample(t: Tree, v: int)
    requires Example(t, Done(v), Some(v)) && FitsInt(-v)
    ensures Example(Unary([], '-', t), Done(-v), Some(-v))
  {
    hide Accumulated, Value, ApplyExact, Apply;
    WrapFits(-v);
  }

  lemma BinaryExample(op: char, l: Tree, v: int, r: Tree, o: Outcome, x: Option<int>)
    requires Example(l, Done(v), Some(v)) && Example(r, o, x) && (IsAdd(op) || IsMul(op))
    requires op != '%' && (x.Some? ==>
             (IsDiv(op) ==> x.value == 0) && (!IsDiv(op) ==> FitsInt(ExactOp(op, v, x.value))))
    ensures Example(Binary(op, l, [], r), Combined(op, v, o),
                    if x.None? || IsDiv(op) then None else Some(ExactOp(op, v, x.value)))
  {
    hide Accumulated, Value, ExactOp, Apply, Combined;
  }

  /** The tree of -32768*65536/(-1+1/0). */
  function UnreportedDivisor(): Tree
  {
    var one := Dec([], "1");
    Binary('/', Binary('*', Unary([], '-', Dec([], "32768")), [], Dec([], "65536")), [],
           Binary('+', Unary([], '-', one), [], Binary('/', one, [], Dec([], "0"))))
  }

  /** A zero divisor inside a divisor stops the processor instead of being reported when the value passed on in its
      place is -1 and the dividend is the smallest int, although everything fits an int. */
  lemma UnreportedExample()
    ensures var t := UnreportedDivisor();
            && WellFormed(t) && InRange(t) && Exact(t).None?
            && Evaluated(Text(Parenthesized(t)) + []).1 == Trapped
  {
    hide Example, Evaluated, Text, Parenthesized, Accumulated, Value, WellFormed, InRange, Run, Exact;
    var one, t := Dec([], "1"), UnreportedDivisor();
    Numeral32768();
    Numeral65536();
    OneDigit(10, '1');
    OneDigit(10, '0');
    DecExample("32768", 32768);
    NegExample(Dec([], "32768"), 32768);
    DecExample("65536", 65536);
    BinaryExample('*', t.left.left, -32768, t.left.right, Done(65536), Some(65536));
    DecExample("1", 1);
    NegExample(one, 1);
    DecExample("0", 0);
    BinaryExample('/', one, 1, t.right.right.right, Done(0), Some(0));
    BinaryExample('+', t.right.left, -1, t.right.right, Failed(0, ByZero, true), None);
    BinaryExample('/', t.left, -HALF, t.right, Failed(-1, ByZero, true), None);
    ExampleMeans(t, Trap, None);
    EveryExpressionEvaluates(t, []);
  }

  lemma ExampleMeans(t: Tree, o: Outcome, x: Option<int>)
    requires Example(t, o, x)
    ensures WellFormed(t) && InRange(t) && Run(t) == o && Exact(t) == x
  {
  }

  lemma Numeral32768()
    ensures Accumulated(10, "32768", 0) == 32768 == Value(10, "32768")
  {
    hide Accumulated, Value;
    OneDigit(10, '3');
    OneMoreDigit(10, "3", '2', 3, "32");
    OneMoreDigit(10, "32", '7', 32, "327");
    OneMoreDigit(10, "327", '6', 327, "3276");
    OneMoreDigit(10, "3276", '8', 3276, "32768");
  }

  lemma Numeral65536()
    ensures Accumulated(10, "65536", 0) == 65536 == Value(10, "65536")
  {
    hide Accumulated, Value;
    OneDigit(10, '6');
    OneMoreDigit(10, "6", '5', 6, "65");
    OneMoreDigit(10, "65", '5', 65, "655");
    OneMoreDigit(10, "655", '3', 655, "6553");
    OneMoreDigit(10, "6553", '6', 6553, "65536");
  }

  /** A zero divisor is reported as such when it ends its parentheses, and as a syntax error when more follows. */
  lemma StatusExamples()
    ensures Evaluated("1/0").1 == ByZero && Evaluated("(1/0)").1 == ByZero && Evaluated("(1/0+2)").1 == Bad
  {
    hide Evaluated, Accumulated;
    var q := Binary('/', Dec([], "1"), [], Dec([], "0"));
    var sum := Binary('+', q, [], Dec([], "2"));
    OneDigit(10, '0');
    OneDigit(10, '1');
    assert Run(q) == Failed(0, ByZero, true);
    assert Text(q) == "1/0" && Text(sum) == "1/0+2";
    assert Text(q) + [] == "1/0" && Text(Paren([], q, [])) + [] == "(1/0)" &&
           Text(Paren([], sum, [])) + [] == "(1/0+2)";
    PrintedEvaluates(q, []);
    PrintedEvaluates(Paren([], q, []), []);
    PrintedEvaluates(Paren([], sum, []), []);
  }

  // ---------------------------------------------------------------- only expressions

  lemma {:induction false} SkipSplit(t: string) returns (ws: string)
    ensures Blanks(ws) && t == ws + SkipWs(t)
  {
    ws := [];
    if t != [] && IsBlank(t[0]) {
      ws := SkipSplit(t[1..]);
      ws := [t[0]] + ws;
    }
  }

  lemma {:induction false} DigitsSplit(base: nat, t: string, v: int) returns (ds: string)
    ensures var r := Digits(base, t, v);
            t == ds + r.rest && r.val == Accumulated(base, ds, v) && forall i :: 0 <= i < |ds| ==>
              0 <= DigitOf(base, ds[i])
  {
    hide Wrap, DigitOf;
    ds := [];
    if t != [] && 0 <= DigitOf(base, t[0]) {
      var more := DigitsSplit(base, t[1..], Wrap(v * base + DigitOf(base, t[0])));
      ds := [t[0]] + more;
      assert ds[1..] == more;
    }
  }

  lemma LiteralAccepted(ws: string, u: string) returns (tree: Tree)
    requires Blanks(ws) && Literal(u).err == Good
    ensures WellFormed(tree) && Fits(tree, 0) && ws + u == Text(tree) + Literal(u).rest
    ensures Run(tree) == Done(Literal(u).val)
  {
    hide Digits, Accumulated, DigitOf;
    if IsHex(u) {
      var t := u[2..];
      var ds := DigitsSplit(16, t, 0);
      SomeDigits(ds, Digits(16, t, 0).rest, t);
      RegroupHex(ws, u, ds, Digits(16, t, 0).rest);
      tree := Hex(ws, u[1], ds);
    } else {
      var ds := DigitsSplit(10, u, 0);
      SomeDigits(ds, Digits(10, u, 0).rest, u);
      RegroupDec(ws, u, ds, Digits(10, u, 0).rest);
      tree := Dec(ws, ds);
    }
  }

  lemma SomeDigits(ds: string, rest: string, t: string)
    requires t == ds + rest && rest != t
    ensures 0 < |ds|
  {
    assert [] + rest == rest;
  }

  lemma RegroupHex(ws: string, u: string, ds: string, rest: string)
    requires IsHex(u) && u[2..] == ds + rest
    ensures ws + u == (ws + (['0', u[1]] + ds)) + rest
  {
    assert u == ['0', u[1]] + u[2..];
    assert u == (['0', u[1]] + ds) + rest;
  }

  lemma RegroupDec(ws: string, u: string, ds: string, rest: string)
    requires u == ds + rest
    ensures ws + u == (ws + ds) + rest
  {
  }

  lemma Regroup(left: string, pending: string, blanks: string, op: char, right: string, after: string, rest: string)
    ensures left + (pending + (blanks + ([op] + (right + (after + rest))))) ==
            (left + ((pending + blanks) + ([op] + right))) + (after + rest)
  {
    assert pending + (blanks + ([op] + (right + (after + rest)))) ==
           ((pending + blanks) + ([op] + right)) + (after + rest);
  }

  lemma RegroupParen(ws: string, inner: string, close: string, more: string, rest: string)
    ensures ws + (['('] + (inner + (close + (more + ([')'] + rest))))) ==
            (ws + (['('] + (inner + ((close + more) + [')'])))) + rest
  {
    assert inner + (close + (more + ([')'] + rest))) == (inner + ((close + more) + [')'])) + rest;
  }

  lemma SuffixClean(init: string, w: string, t: string)
    requires t == init + w && forall i :: 0 <= i < |t| ==> t[i] != '\0'
    ensures Head(w) == '\0' ==> w == []
  {
    assert forall i :: 0 <= i < |w| ==> w[i] == t[|init| + i];
  }

  lemma {:induction false} FactorAccepted(t: string) returns (tree: Tree)
    requires Factor(t).err == Good
    ensures WellFormed(tree) && Fits(tree, 0) && t == Text(tree) + Factor(t).rest && Run(tree) == Done(Factor(t).val)
    decreases |t|, 0
  {
    hide Expr, Literal, SkipWs, Wrap;
    var u := SkipWs(t);
    var ws := SkipSplit(t);
    if Head(u) == '+' || Head(u) == '-' {
      var arg := FactorAccepted(u[1..]);
      tree := Unary(ws, u[0], arg);
      assert u == [u[0]] + u[1..];
    } else if Head(u) == '(' {
      var inner, close := ExprAccepted(u[1..]);
      var r := Expr(u[1..]);
      var more := SkipSplit(r.rest);
      var w := SkipWs(r.rest);
      tree := Paren(ws, inner, close + more);
      assert u == ['('] + u[1..] && w == [')'] + w[1..];
      RegroupParen(ws, Text(inner), close, more, w[1..]);
    } else {
      tree := LiteralAccepted(ws, u);
    }
  }

  lemma {:induction false} TermAccepted(t: string) returns (tree: Tree, ws: string)
    requires Term(t).err == Good
    ensures WellFormed(tree) && Fits(tree, 1) && Blanks(ws) && t == Text(tree) + (ws + Term(t).rest)
    ensures Run(tree) == Done(Term(t).val)
    decreases |t|, 1
  {
    hide Factor, TermRest;
    var left := FactorAccepted(t);
    LevelsNest(left);
    tree, ws := TermRestAccepted(Factor(t).rest, left, []);
    assert [] + Factor(t).rest == Factor(t).rest;
  }

  lemma {:induction false} TermRestAccepted(t: string, left: Tree, pending: string) returns (tree: Tree, ws: string)
    requires WellFormed(left) && Fits(left, 1) && Blanks(pending) && Run(left).Done?
    requires TermRest(t, Run(left).val).err == Good
    ensures WellFormed(tree) && Fits(tree, 1) && Blanks(ws)
    ensures var r := TermRest(t, Run(left).val);
            Text(left) + (pending + t) == Text(tree) + (ws + r.rest) && Run(tree) == Done(r.val)
    decreases |t|, 0
  {
    hide Factor, SkipWs, Apply;
    var u := SkipWs(t);
    var blanks := SkipSplit(t);
    if IsMul(Head(u)) {
      var right := FactorAccepted(u[1..]);
      var r := Factor(u[1..]);
      var more := Binary(u[0], left, pending + blanks, right);
      tree, ws := TermRestAccepted(r.rest, more, []);
      assert u == [u[0]] + u[1..];
      assert [] + r.rest == r.rest;
      Regroup(Text(left), pending, blanks, u[0], Text(right), [], r.rest);
    } else {
      tree, ws := left, pending + blanks;
    }
  }

  lemma {:induction false} ExprAccepted(t: string) returns (tree: Tree, ws: string)
    requires Expr(t).err == Good
    ensures WellFormed(tree) && Fits(tree, 2) && Blanks(ws) && t == Text(tree) + (ws + Expr(t).rest)
    ensures Run(tree) == Done(Expr(t).val)
    decreases |t|, 2
  {
    hide Term, ExprRest;
    var left, blanks := TermAccepted(t);
    LevelsNest(left);
    tree, ws := ExprRestAccepted(Term(t).rest, left, blanks);
  }

  lemma {:induction false} ExprRestAccepted(t: string, left: Tree, pending: string) returns (tree: Tree, ws: string)
    requires WellFormed(left) && Fits(left, 2) && Blanks(pending) && Run(left).Done?
    requires ExprRest(t, Run(left).val).err == Good
    ensures WellFormed(tree) && Fits(tree, 2) && Blanks(ws)
    ensures var r := ExprRest(t, Run(left).val);
            Text(left) + (pending + t) == Text(tree) + (ws + r.rest) && Run(tree) == Done(r.val)
    decreases |t|, 1
  {
    hide Term, SkipWs, Apply;
    var u := SkipWs(t);
    var blanks := SkipSplit(t);
    if IsAdd(Head(u)) {
      var right, after := TermAccepted(u[1..]);
      var r := Term(u[1..]);
      var more := Binary(u[0], left, pending + blanks, right);
      tree, ws := ExprRestAccepted(r.rest, more, after);
      assert u == [u[0]] + u[1..];
      Regroup(Text(left), pending, blanks, u[0], Text(right), after, r.rest);
    } else {
      tree, ws := left, pending + blanks;
    }
  }

  /** The text is a printed tree that evaluates to this value. */
  ghost predicate Denotes(t: string, tree: Tree, trailing: string, v: int)
  {
    t == Text(tree) + trailing && WellFormed(tree) && Fits(tree, 2) && Blanks(trailing) && Run(tree) == Done(v)
  }

  /** The calculator accepts exactly the printed expressions that evaluate without a zero divisor or an exception, each
      with its own value. */
  lemma AcceptsExactly(t: string, v: int)
    requires forall i :: 0 <= i < |t| ==> t[i] != '\0'
    ensures Evaluated(t) == (v, Good) <==> exists tree, trailing :: Denotes(t, tree, trailing, v)
  {
    hide Expr, Term, ExprRest, Text, WellFormed, Run, Fits, SkipWs;
    if Evaluated(t) == (v, Good) {
      var tree, ws := ExprAccepted(t);
      var rest := Expr(t).rest;
      var more := SkipSplit(rest);
      var w := SkipWs(rest);
      assert t == Text(tree) + ((ws + more) + w);
      SuffixClean(Text(tree) + (ws + more), w, t);
      assert t == Text(tree) + (ws + more);
      assert Denotes(t, tree, ws + more, v);
    }
    forall tree, trailing | Denotes(t, tree, trailing, v) ensures Evaluated(t) == (v, Good) {
      PrintedEvaluates(tree, trailing);
    }
  }
}
