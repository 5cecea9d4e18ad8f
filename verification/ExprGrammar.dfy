// The boolean expressions of verification assertions: their text, their value,
// and the recursive-descent parser as a function (`verify_runtime.cpp`).

module ExprGrammar {
  import opened Options

  // ---- Characters and variables ----

  predicate IsSpace(c: char) {
    c == ' ' || '\t' <= c <= '\r'
  }

  predicate IsIdent(c: char) {
    'a' <= c <= 'z' || 'A' <= c <= 'Z' || '0' <= c <= '9' || c == '_'
  }

  datatype VarEntry = VarEntry(name: string, value: bool)

  type Table = seq<VarEntry>

  // The first entry of that name.
  function Find(table: Table, name: string): Option<bool> {
    if table == [] then None
    else if table[0].name == name then Some(table[0].value)
    else Find(table[1..], name)
  }

  function Lookup(table: Table, ident: string): bool {
    if ident == "true" || ident == "1" then true
    else if ident == "false" || ident == "0" then false
    else var found := Find(table, ident); found.Some? && found.value
  }

  // ---- Expressions, with the spaces in front of each token ----

  datatype Op = OrOr | Or | AndAnd | And | Xor | Eq | Neq

  datatype Expr =
    | Bin(op: Op, left: Expr, right: Expr, gap: string)
    | Not(tilde: bool, arg: Expr, gap: string)
    | Paren(inner: Expr, gap: string, close: string)
    | Atom(name: string, gap: string)

  const UNARY: nat := 4

  function Level(op: Op): nat {
    match op
    case OrOr => 0
    case Or => 0
    case AndAnd => 1
    case And => 1
    case Xor => 2
    case Eq => 3
    case Neq => 3
  }

  function OpText(op: Op): string {
    match op
    case OrOr => "||"
    case Or => "|"
    case AndAnd => "&&"
    case And => "&"
    case Xor => "^"
    case Eq => "=="
    case Neq => "!="
  }

  function Apply(op: Op, a: bool, b: bool): bool {
    match op
    case OrOr => a || b
    case Or => a || b
    case AndAnd => a && b
    case And => a && b
    case Xor => a != b
    case Eq => a == b
    case Neq => a != b
  }

  predicate Blank(gap: string) {
    forall i :: 0 <= i < |gap| ==> gap[i] in {' ', '\t', '\n', '\U{000b}', '\U{000c}', '\r'}
  }

  // An expression that needs no parentheses where an operand of `level` stands:
  // operators of one level associate to the left.
  predicate WellFormed(e: Expr, level: nat) {
    match e
    case Bin(op, l, r, gap) => level <= Level(op) && WellFormed(l, Level(op)) && WellFormed(r, Level(op) + 1)
      && Blank(gap)
    case Not(_, arg, gap) => WellFormed(arg, UNARY) && Blank(gap)
    case Paren(inner, gap, close) => WellFormed(inner, 0) && Blank(gap) && Blank(close)
    case Atom(name, gap) => name != "" && (forall i :: 0 <= i < |name| ==> IsIdent(name[i])) && Blank(gap)
  }

  function Text(e: Expr): string {
    match e
    case Bin(op, l, r, gap) => Text(l) + gap + OpText(op) + Text(r)
    case Not(tilde, arg, gap) => gap + (if tilde then "~" else "!") + Text(arg)
    case Paren(inner, gap, close) => gap + "(" + Text(inner) + close + ")"
    case Atom(name, gap) => gap + name
  }

  function Value(e: Expr, table: Table): bool {
    match e
    case Bin(op, l, r, _) => Apply(op, Value(l, table), Value(r, table))
    case Not(_, arg, _) => !Value(arg, table)
    case Paren(inner, _, _) => Value(inner, table)
    case Atom(name, _) => Lookup(table, name)
  }

  // ---- The parser ----

  function Skip(s: string, p: nat): (q: nat)
    requires p <= |s|
    ensures p <= q <= |s| && (q < |s| ==> !IsSpace(s[q]))
    decreases |s| - p
  {
    if p < |s| && IsSpace(s[p]) then Skip(s, p + 1) else p
  }

  predicate Starts(s: string, p: nat, token: string) {
    p + |token| <= |s| && forall i {:trigger token[i]} :: 0 <= i < |token| ==> s[p + i] == token[i]
  }

  predicate Sees(s: string, q: nat, c: char) {
    q < |s| && s[q] == c
  }

  // The operator that comes next, the longer of two where one begins another,
  // and where it ends.
  function NextOp(s: string, p: nat): (r: Option<(Op, nat)>)
    requires p <= |s|
    ensures r.Some? ==> p < r.value.1 <= |s|
  {
    var q := Skip(s, p);
    if Sees(s, q, '|') then Some(if Sees(s, q + 1, '|') then (OrOr, q + 2) else (Or, q + 1))
    else if Sees(s, q, '&') then Some(if Sees(s, q + 1, '&') then (AndAnd, q + 2) else (And, q + 1))
    else if Sees(s, q, '^') then Some((Xor, q + 1))
    else if Sees(s, q, '=') && Sees(s, q + 1, '=') then Some((Eq, q + 2))
    else if Sees(s, q, '!') && Sees(s, q + 1, '=') then Some((Neq, q + 2))
    else None
  }

  // Whether it is one of `level`.
  function OpAt(level: nat, s: string, p: nat): (r: Option<(Op, nat)>)
    requires p <= |s|
    ensures r.Some? ==> p < r.value.1 <= |s| && Level(r.value.0) == level
  {
    var next := NextOp(s, p);
    if next.Some? && Level(next.value.0) == level then next else None
  }

  function IdentEnd(s: string, p: nat): (q: nat)
    requires p <= |s|
    ensures p <= q <= |s| && (q < |s| ==> !IsIdent(s[q])) && forall i :: p <= i < q ==> IsIdent(s[i])
    decreases |s| - p
  {
    if p < |s| && IsIdent(s[p]) then IdentEnd(s, p + 1) else p
  }

  // An operand of `level` read at `p`: its value, and where reading stopped.
  function Parse(level: nat, s: string, p: nat, table: Table): (r: (bool, nat))
    requires p <= |s| && level <= UNARY
    ensures p <= r.1 <= |s|
    decreases |s| - p, UNARY + 1 - level
  {
    if level == UNARY then ParseUnary(s, p, table)
    else
      var first := Parse(level + 1, s, p, table);
      Rest(level, first.0, s, first.1, table)
  }

  function ParseUnary(s: string, p: nat, table: Table): (r: (bool, nat))
    requires p <= |s|
    ensures p <= r.1 <= |s|
    decreases |s| - p, 0
  {
    var q := Skip(s, p);
    if Sees(s, q, '!') || Sees(s, q, '~') then
      var arg := ParseUnary(s, q + 1, table);
      (!arg.0, arg.1)
    else if Sees(s, q, '(') then
      var inner := Parse(0, s, q + 1, table);
      var end := Skip(s, inner.1);
      (inner.0, if Sees(s, end, ')') then end + 1 else end)
    else
      var end := IdentEnd(s, q);
      (Lookup(table, s[q..end]), end)
  }

  // The further operands of `level`, joined to `v`.
  function Rest(level: nat, v: bool, s: string, p: nat, table: Table): (r: (bool, nat))
    requires p <= |s| && level < UNARY
    ensures p <= r.1 <= |s|
    decreases |s| - p, 0
  {
    match OpAt(level, s, p)
    case None => (v, Skip(s, p))
    case Some((op, q)) =>
      var right := Parse(level + 1, s, q, table);
      Rest(level, Apply(op, v, right.0), s, right.1, table)
  }

  // ---- Reading a text back ----

  lemma StartsJoin(s: string, p: nat, a: string, b: string)
    requires Starts(s, p, a + b)
    ensures Starts(s, p, a) && Starts(s, p + |a|, b)
  {
    var t := a + b;
    forall i | 0 <= i < |a| ensures s[p + i] == a[i] {
      assert t[i] == a[i];
    }
    forall i | 0 <= i < |b| ensures s[p + |a| + i] == b[i] {
      assert t[|a| + i] == b[i];
    }
  }

  lemma {:induction false} SkipBlank(s: string, p: nat, gap: string)
    requires Starts(s, p, gap) && Blank(gap)
    ensures Skip(s, p) == Skip(s, p + |gap|)
    decreases |gap|
  {
    if gap != "" {
      StartsJoin(s, p, gap[..1], gap[1..]);
      assert gap == gap[..1] + gap[1..];
      assert s[p] == gap[0];
      SkipBlank(s, p + 1, gap[1..]);
    }
  }

  lemma {:induction false} SkipTwice(s: string, p: nat)
    requires p <= |s|
    ensures Skip(s, Skip(s, p)) == Skip(s, p)
  {
  }

  // Nothing at `p` continues an operand of `level`.
  predicate Stops(level: nat, s: string, p: nat) {
    && p <= |s| && (p < |s| ==> !IsIdent(s[p]))
    && (NextOp(s, p).Some? ==> Level(NextOp(s, p).value.0) < level)
  }

  // Where an expression may start.
  predicate Starter(c: char) {
    IsSpace(c) || IsIdent(c) || c == '(' || c == '!' || c == '~'
  }

  lemma {:induction false} TextStarts(e: Expr, level: nat)
    requires WellFormed(e, level)
    ensures Text(e) != "" && Starter(Text(e)[0])
    ensures Text(e)[0] == '!' ==> |Text(e)| > 1 && Starter(Text(e)[1])
  {
    match e
    case Bin(op, l, r, gap) =>
      TextStarts(l, Level(op));
      TextStarts(r, Level(op) + 1);
    case Not(tilde, arg, gap) =>
      TextStarts(arg, UNARY);
    case Paren(inner, gap, close) =>
    case Atom(name, gap) =>
  }

  // An operator is read as itself when an operand follows.
  lemma OpRead(s: string, p: nat, op: Op, gap: string, rest: string)
    requires Starts(s, p, gap + OpText(op) + rest) && Blank(gap) && rest != "" && Starter(rest[0])
    ensures p <= |s| && NextOp(s, p) == Some((op, p + |gap| + |OpText(op)|))
    ensures p < |s| && !IsIdent(s[p])
  {
    StartsJoin(s, p, gap + OpText(op), rest);
    StartsJoin(s, p, gap, OpText(op));
    SkipBlank(s, p, gap);
    var q, text := p + |gap|, OpText(op);
    assert s[q + 0] == text[0] && (|text| > 1 ==> s[q + 1] == text[1]) && s[q + |text| + 0] == rest[0];
    assert Skip(s, p) == q;
    if gap != "" {
      assert s[p + 0] == gap[0];
    }
  }

  lemma SeesToken(s: string, q: nat, token: string)
    requires token != "" && |token| <= 2
    ensures Starts(s, q, token) <==> Sees(s, q, token[0]) && (|token| > 1 ==> Sees(s, q + 1, token[1]))
  {
    if Starts(s, q, token) {
      assert s[q + 0] == token[0] && (|token| > 1 ==> s[q + 1] == token[1]);
    }
  }

  // Nothing but a closing parenthesis or the end follows.
  lemma ClosedStops(s: string, p: nat, gap: string)
    requires Starts(s, p, gap) && Blank(gap)
    requires p + |gap| == |s| || s[p + |gap|] == ')'
    ensures Stops(0, s, p)
  {
    SkipBlank(s, p, gap);
    if gap != "" {
      assert s[p + 0] == gap[0];
    }
  }

  // Reading an operand: its value, ending where it ends, give or take spaces.
  ghost predicate ReadsAs(r: (bool, nat), v: bool, s: string, end: nat) {
    end <= |s| && r.1 <= |s| && r.0 == v && end <= r.1 && Skip(s, r.1) == Skip(s, end)
  }

  ghost predicate Yields(level: nat, s: string, p: nat, v: bool, end: nat, table: Table) {
    p <= |s| && level <= UNARY && ReadsAs(Parse(level, s, p, table), v, s, end)
  }

  // Reading goes on from `end` with the value `v`, operators of `level` still to
  // come.
  ghost predicate Continues(level: nat, s: string, p: nat, v: bool, end: nat, table: Table) {
    p <= |s| && end <= |s| && level < UNARY && Parse(level, s, p, table) == Rest(level, v, s, end, table)
  }

  // The text of `e`, an operand of `level`, is at `p`, and nothing that follows
  // continues an operand of `stop`.
  ghost predicate Stands(e: Expr, level: nat, stop: nat, s: string, p: nat) {
    WellFormed(e, level) && Starts(s, p, Text(e)) && Stops(stop, s, p + |Text(e)|)
  }

  lemma {:induction false} ReadBack(e: Expr, level: nat, s: string, p: nat, table: Table) returns (v: bool, end: nat)
    requires level <= UNARY && Stands(e, level, level, s, p)
    ensures v == Value(e, table) && end == p + |Text(e)| && Yields(level, s, p, v, end, table)
    decreases e, 2 * (UNARY - level) + 2
  {
    if level < UNARY {
      v, end := ReadChain(e, level, s, p, table);
      Stopped(level, v, s, p, end, table);
    } else {
      v, end := ReadUnary(e, s, p, table);
    }
  }

  lemma {:induction false} ReadUnary(e: Expr, s: string, p: nat, table: Table) returns (v: bool, end: nat)
    requires Stands(e, UNARY, UNARY, s, p)
    ensures v == Value(e, table) && end == p + |Text(e)| && Yields(UNARY, s, p, v, end, table)
    decreases e, 1
  {
    match e
    case Not(_, _, _) => v, end := ReadNegated(e, s, p, table);
    case Paren(_, _, _) => v, end := ReadInner(e, s, p, table);
    case Atom(_, _) =>
      ReadAtom(e, s, p, table);
      v, end := Value(e, table), p + |Text(e)|;
  }

  lemma {:induction false} ReadNegated(e: Expr, s: string, p: nat, table: Table) returns (v: bool, end: nat)
    requires e.Not? && Stands(e, UNARY, UNARY, s, p)
    ensures v == Value(e, table) && end == p + |Text(e)| && Yields(UNARY, s, p, v, end, table)
    decreases e, 0
  {
    var q := ReadNot(e, s, p);
    var w;
    w, end := ReadUnary(e.arg, s, q + 1, table);
    NotStep(s, p, q, end, w, table);
    v := !w;
  }

  lemma {:induction false} ReadInner(e: Expr, s: string, p: nat, table: Table) returns (v: bool, end: nat)
    requires e.Paren? && Stands(e, UNARY, UNARY, s, p)
    ensures v == Value(e, table) && end == p + |Text(e)| && Yields(UNARY, s, p, v, end, table)
    decreases e, 0
  {
    var q, mid := ReadParen(e, s, p);
    v, mid := ReadBack(e.inner, 0, s, q + 1, table);
    end := p + |Text(e)|;
    ParenStep(s, p, q, mid, end, v, table);
  }

  lemma Stopped(level: nat, v: bool, s: string, p: nat, end: nat, table: Table)
    requires Continues(level, s, p, v, end, table) && Stops(level, s, end)
    ensures Yields(level, s, p, v, end, table)
  {
    SkipTwice(s, end);
  }

  lemma NotStep(s: string, p: nat, q: nat, end: nat, v: bool, table: Table)
    requires p <= |s| && Skip(s, p) == q && (Sees(s, q, '!') || Sees(s, q, '~'))
    requires Yields(UNARY, s, q + 1, v, end, table)
    ensures Yields(UNARY, s, p, !v, end, table)
  {
  }

  lemma ParenStep(s: string, p: nat, q: nat, mid: nat, end: nat, v: bool, table: Table)
    requires p <= |s| && Skip(s, p) == q && Sees(s, q, '(')
    requires Yields(0, s, q + 1, v, mid, table)
    requires end > 0 && Skip(s, mid) == end - 1 && Sees(s, end - 1, ')')
    ensures Yields(UNARY, s, p, v, end, table)
  {
  }

  // With operators of `level` still to come, reading goes on from the end of `e`
  // with its value.
  lemma {:induction false} ReadChain(e: Expr, level: nat, s: string, p: nat, table: Table) returns (v: bool, end: nat)
    requires level < UNARY && Stands(e, level, level + 1, s, p)
    ensures v == Value(e, table) && end == p + |Text(e)| && Continues(level, s, p, v, end, table)
    decreases e, 2 * (UNARY - level) + 1
  {
    if e.Bin? && Level(e.op) == level {
      v, end := ReadBinary(e, s, p, table);
    } else {
      assert Stands(e, level + 1, level + 1, s, p);
      v, end := ReadBack(e, level + 1, s, p, table);
      Climbed(level, s, p, v, end, table);
    }
  }

  lemma Climbed(level: nat, s: string, p: nat, v: bool, end: nat, table: Table)
    requires level < UNARY && Yields(level + 1, s, p, v, end, table)
    ensures Continues(level, s, p, v, end, table)
  {
    SameRest(level, v, s, Parse(level + 1, s, p, table).1, end, table);
  }

  lemma {:induction false} ReadBinary(e: Expr, s: string, p: nat, table: Table) returns (v: bool, end: nat)
    requires e.Bin? && Stands(e, Level(e.op), Level(e.op) + 1, s, p)
    ensures v == Value(e, table) && end == p + |Text(e)| && Continues(Level(e.op), s, p, v, end, table)
    decreases e, 0
  {
    var mid, q := ReadBin(e, s, p);
    var a, b;
    a, mid := ReadChain(e.left, Level(e.op), s, p, table);
    b, end := ReadBack(e.right, Level(e.op) + 1, s, q, table);
    BinStep(e.op, a, b, s, p, mid, q, end, table);
    v := Apply(e.op, a, b);
  }

  lemma SameRest(level: nat, v: bool, s: string, p: nat, q: nat, table: Table)
    requires p <= |s| && q <= |s| && level < UNARY && Skip(s, p) == Skip(s, q)
    ensures Rest(level, v, s, p, table) == Rest(level, v, s, q, table)
  {
    assert NextOp(s, p) == NextOp(s, q);
  }

  // From the end of the left operand to the end of the right.
  lemma BinStep(op: Op, a: bool, b: bool, s: string, p: nat, mid: nat, q: nat, end: nat, table: Table)
    requires Continues(Level(op), s, p, a, mid, table) && NextOp(s, mid) == Some((op, q))
    requires Yields(Level(op) + 1, s, q, b, end, table)
    ensures Continues(Level(op), s, p, Apply(op, a, b), end, table)
  {
    var read := Parse(Level(op) + 1, s, q, table);
    SameRest(Level(op), Apply(op, a, b), s, read.1, end, table);
  }

  // Where the parts of a binary operator's text are.
  lemma ReadBin(e: Expr, s: string, p: nat) returns (mid: nat, q: nat)
    requires e.Bin? && Stands(e, Level(e.op), Level(e.op) + 1, s, p)
    ensures mid == p + |Text(e.left)| && q + |Text(e.right)| == p + |Text(e)|
    ensures Stands(e.left, Level(e.op), Level(e.op) + 1, s, p)
    ensures Stands(e.right, Level(e.op) + 1, Level(e.op) + 1, s, q)
    ensures NextOp(s, mid) == Some((e.op, q))
  {
    var Bin(op, l, r, gap) := e;
    StartsFour(s, p, Text(l), gap, OpText(op), Text(r));
    TextStarts(r, Level(op) + 1);
    mid := p + |Text(l)|;
    q := mid + |gap| + |OpText(op)|;
    OpRead(s, mid, op, gap, Text(r));
  }

  lemma StartsFour(s: string, p: nat, a: string, b: string, c: string, d: string)
    requires Starts(s, p, a + b + c + d)
    ensures Starts(s, p, a) && Starts(s, p + |a|, b + c + d) && Starts(s, p + |a| + |b| + |c|, d)
  {
    assert a + b + c + d == a + (b + c + d);
    StartsJoin(s, p, a, b + c + d);
    StartsJoin(s, p + |a|, b + c, d);
  }

  lemma ReadNot(e: Expr, s: string, p: nat) returns (q: nat)
    requires e.Not? && Stands(e, UNARY, UNARY, s, p)
    ensures p <= |s| && Skip(s, p) == q && (Sees(s, q, '!') || Sees(s, q, '~'))
    ensures Stands(e.arg, UNARY, UNARY, s, q + 1) && q + 1 + |Text(e.arg)| == p + |Text(e)|
  {
    var sign := if e.tilde then "~" else "!";
    q := p + |e.gap|;
    assert Text(e) == e.gap + (sign + Text(e.arg));
    StartsJoin(s, p, e.gap, sign + Text(e.arg));
    StartsJoin(s, q, sign, Text(e.arg));
    SkipBlank(s, p, e.gap);
    SeesToken(s, q, sign);
  }

  lemma ReadParen(e: Expr, s: string, p: nat) returns (q: nat, mid: nat)
    requires e.Paren? && Stands(e, UNARY, UNARY, s, p)
    ensures p <= |s| && Skip(s, p) == q && Sees(s, q, '(')
    ensures Stands(e.inner, 0, 0, s, q + 1) && mid == q + 1 + |Text(e.inner)|
    ensures Skip(s, mid) == p + |Text(e)| - 1 && Sees(s, p + |Text(e)| - 1, ')')
  {
    q := p + |e.gap|;
    mid := q + 1 + |Text(e.inner)|;
    ParenParts(s, p, e.gap, Text(e.inner), e.close);
    SkipBlank(s, p, e.gap);
    SeesToken(s, q, "(");
    SeesToken(s, mid + |e.close|, ")");
    SkipBlank(s, mid, e.close);
    ClosedStops(s, mid, e.close);
  }

  lemma ParenParts(s: string, p: nat, gap: string, inner: string, close: string)
    requires Starts(s, p, gap + "(" + inner + close + ")")
    ensures Starts(s, p, gap) && Starts(s, p + |gap|, "(") && Starts(s, p + |gap| + 1, inner)
    ensures var mid := p + |gap| + 1 + |inner|; Starts(s, mid, close) && Starts(s, mid + |close|, ")")
  {
    StartsJoin(s, p, gap + "(" + inner + close, ")");
    StartsFour(s, p, gap, "(", inner, close);
    StartsJoin(s, p + |gap|, "(" + inner, close);
    StartsJoin(s, p + |gap|, "(", inner);
  }

  lemma ReadAtom(e: Expr, s: string, p: nat, table: Table)
    requires e.Atom? && Stands(e, UNARY, UNARY, s, p)
    ensures ParseUnary(s, p, table) == (Value(e, table), p + |Text(e)|)
    ensures Yields(UNARY, s, p, Value(e, table), p + |Text(e)|, table)
  {
    StartsJoin(s, p, e.gap, e.name);
    SkipBlank(s, p, e.gap);
    var q, end := p + |e.gap|, p + |Text(e)|;
    forall i | q <= i < end ensures IsIdent(s[i]) {
      assert s[q + (i - q)] == e.name[i - q];
    }
    assert s[q..end] == e.name;
    IdentRuns(s, q, end);
  }

  lemma {:induction false} IdentRuns(s: string, p: nat, end: nat)
    requires p <= end <= |s| && (forall i :: p <= i < end ==> IsIdent(s[i])) && (end < |s| ==> !IsIdent(s[end]))
    ensures IdentEnd(s, p) == end
    decreases end - p
  {
    if p < end {
      IdentRuns(s, p + 1, end);
    }
  }

  // The parser takes the whole text of an expression and gives its value.
  lemma RoundTrip(e: Expr, trailing: string, table: Table)
    requires WellFormed(e, 0) && Blank(trailing)
    ensures Parse(0, Text(e) + trailing, 0, table) == (Value(e, table), |Text(e) + trailing|)
  {
    var s := Text(e) + trailing;
    var end := |Text(e)|;
    TextThenBlank(s, Text(e), trailing);
    assert Stops(1, s, end);
    var v, last := ReadChain(e, 0, s, 0, table);
    Ended(v, s, end, table);
  }

  // ---- What operators and names mean ----

  // A name that is no constant stands for what was stored under it, and for
  // false if nothing was.
  ghost predicate Holds(table: Table, name: string) {
    name == "true" || name == "1" || (name != "false" && name != "0" && Find(table, name) == Some(true))
  }

  ghost predicate IsName(name: string) {
    name != "" && forall i :: 0 <= i < |name| ==>
      'a' <= name[i] <= 'z' || 'A' <= name[i] <= 'Z' || '0' <= name[i] <= '9' || name[i] == '_'
  }

  // The text is that of an operand of `level` with this value.
  ghost predicate Says(text: string, level: nat, v: bool, table: Table) {
    exists e {:trigger Text(e)} :: WellFormed(e, level) && Text(e) == text && Value(e, table) == v
  }

  lemma NameSays(name: string, table: Table)
    requires IsName(name)
    ensures Says(name, 4, Holds(table, name), table)
  {
    assert Text(Atom(name, "")) == name;
  }

  lemma NotSays(sign: string, text: string, v: bool, table: Table)
    requires sign in {"!", "~"} && Says(text, 4, v, table)
    ensures Says(sign + text, 4, !v, table)
  {
    var e :| WellFormed(e, UNARY) && Text(e) == text && Value(e, table) == v;
    assert Text(Not(sign == "~", e, "")) == sign + text;
  }

  lemma WeakerLevel(e: Expr, level: nat, weaker: nat)
    requires WellFormed(e, level) && weaker <= level
    ensures WellFormed(e, weaker)
  {
  }

  lemma BinSays(op: Op, text: string, level: nat, v: bool, text': string, level': nat, v': bool, table: Table)
    requires Level(op) <= level && Says(text, level, v, table) && Level(op) < level' && Says(text', level', v', table)
    ensures Says(text + OpText(op) + text', Level(op), Apply(op, v, v'), table)
  {
    var l :| WellFormed(l, level) && Text(l) == text && Value(l, table) == v;
    var r :| WellFormed(r, level') && Text(r) == text' && Value(r, table) == v';
    var e := Bin(op, l, r, "");
    WeakerLevel(l, level, Level(op));
    WeakerLevel(r, level', Level(op) + 1);
    assert Text(e) == text + "" + OpText(op) + text' == text + OpText(op) + text';
    assert WellFormed(e, Level(op));
    assert Value(e, table) == Apply(op, v, v');
  }

  lemma SaidIsRead(text: string, level: nat, v: bool, table: Table)
    requires Says(text, level, v, table)
    ensures Parse(0, text, 0, table) == (v, |text|)
  {
    var e :| WellFormed(e, level) && Text(e) == text && Value(e, table) == v;
    assert text + "" == text;
    RoundTrip(e, "", table);
  }

  lemma ParenSays(text: string, v: bool, table: Table)
    requires Says(text, 0, v, table)
    ensures Says("(" + text + ")", 4, v, table)
  {
    var e :| WellFormed(e, 0) && Text(e) == text && Value(e, table) == v;
    assert Text(Paren(e, "", "")) == "(" + text + ")";
  }

  // What binds tighter may stand where what binds looser may.
  lemma SaysLooser(text: string, level: nat, looser: nat, v: bool, table: Table)
    requires looser <= level && Says(text, level, v, table)
    ensures Says(text, looser, v, table)
  {
    var e :| WellFormed(e, level) && Text(e) == text && Value(e, table) == v;
    WeakerLevel(e, level, looser);
    assert Text(e) == text;
  }

  // Each operator, with the operands it takes.
  lemma OpsSay(text: string, v: bool, text': string, v': bool, table: Table)
    ensures Says(text, 3, v, table) && Says(text', 4, v', table) ==>
      Says(text + "==" + text', 3, v == v', table) && Says(text + "!=" + text', 3, v != v', table)
    ensures Says(text, 2, v, table) && Says(text', 3, v', table) ==> Says(text + "^" + text', 2, v != v', table)
    ensures Says(text, 1, v, table) && Says(text', 2, v', table) ==>
      Says(text + "&" + text', 1, v && v', table) && Says(text + "&&" + text', 1, v && v', table)
    ensures Says(text, 0, v, table) && Says(text', 1, v', table) ==>
      Says(text + "|" + text', 0, v || v', table) && Says(text + "||" + text', 0, v || v', table)
  {
    if Says(text, 3, v, table) && Says(text', 4, v', table) {
      BinSays(Eq, text, 3, v, text', 4, v', table);
      BinSays(Neq, text, 3, v, text', 4, v', table);
    }
    if Says(text, 2, v, table) && Says(text', 3, v', table) {
      BinSays(Xor, text, 2, v, text', 3, v', table);
    }
    if Says(text, 1, v, table) && Says(text', 2, v', table) {
      BinSays(And, text, 1, v, text', 2, v', table);
      BinSays(AndAnd, text, 1, v, text', 2, v', table);
    }
    if Says(text, 0, v, table) && Says(text', 1, v', table) {
      BinSays(Or, text, 0, v, text', 1, v', table);
      BinSays(OrOr, text, 0, v, text', 1, v', table);
    }
  }

  // For one: conjunction binds tighter than disjunction.
  lemma AndBeforeOr(a: string, b: string, c: string, table: Table)
    requires IsName(a) && IsName(b) && IsName(c)
    ensures Parse(0, a + "|" + (b + "&" + c), 0, table).0 <==>
      Holds(table, a) || (Holds(table, b) && Holds(table, c))
  {
    var va, vb, vc := Holds(table, a), Holds(table, b), Holds(table, c);
    assert Says(b + "&" + c, 1, vb && vc, table) by {
      NameSays(b, table);
      NameSays(c, table);
      SaysLooser(b, 4, 1, vb, table);
      SaysLooser(c, 4, 2, vc, table);
      OpsSay(b, vb, c, vc, table);
    }
    assert Says(a + "|" + (b + "&" + c), 0, va || (vb && vc), table) by {
      NameSays(a, table);
      SaysLooser(a, 4, 0, va, table);
      OpsSay(a, va, b + "&" + c, vb && vc, table);
    }
    SaidIsRead(a + "|" + (b + "&" + c), 0, va || (vb && vc), table);
  }

  lemma TextThenBlank(s: string, text: string, trailing: string)
    requires s == text + trailing && Blank(trailing)
    ensures Starts(s, 0, text) && Stops(0, s, |text|) && Skip(s, |text|) == |s|
  {
    assert s[0..|text|] == text && s[|text|..|s|] == trailing;
    ClosedStops(s, |text|, trailing);
    SkipBlank(s, |text|, trailing);
  }

  lemma Ended(v: bool, s: string, p: nat, table: Table)
    requires Continues(0, s, 0, v, p, table) && Stops(0, s, p) && Skip(s, p) == |s|
    ensures Parse(0, s, 0, table) == (v, |s|)
  {
  }
}
