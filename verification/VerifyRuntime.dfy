// The assertion runtime: the variable table and the parser with its cursor
// (`verify_runtime.cpp`).

module VerifyRuntime {
  import opened Options
  import opened ExprGrammar

  const ENTRIES: nat := 64

  // `strncpy` into 64 bytes.
  function Stored(name: string): string {
    if |name| <= 63 then name else name[..63]
  }

  // ---- The table ----

  ghost predicate FirstAt(table: Table, i: nat, name: string)
    requires i < |table|
  {
    table[i].name == name && forall k :: 0 <= k < i ==> table[k].name != name
  }

  class Variables {
    // The valid entries, which come first.
    var table: Table

    constructor ()
      ensures table == []
    {
      table := [];
    }

    // `__VERIFY_STORE_VAR`: an existing entry is overwritten, a new one goes into
    // the first free place, if any.
    method StoreVar(name: string, value: bool)
      requires |table| <= ENTRIES
      modifies this
      ensures table == AfterStore(old(table), name, value) && |table| <= ENTRIES
      ensures forall i: nat :: i < |old(table)| && FirstAt(old(table), i, name) ==>
        table == old(table)[i := VarEntry(name, value)]
      // A name cut off at 63 characters goes into the first free place of 64.
      ensures (forall i :: 0 <= i < |old(table)| ==> old(table)[i].name != name) ==>
        table == if |old(table)| == 64 then old(table)
                 else old(table) + [VarEntry(if |name| <= 63 then name else name[..63], value)]
    {
      var i := 0;
      while i < ENTRIES
        invariant i <= |table| && table == old(table)
        invariant forall k :: 0 <= k < i ==> table[k].name != name
        decreases ENTRIES - i
      {
        if i == |table| {
          AppendIsStore(table, name, value);
          table := table + [VarEntry(Stored(name), value)];
          return;
        } else if table[i].name == name {
          UpdateIsStore(table, i, name, value);
          table := table[i := VarEntry(name, value)];
          return;
        }
        i := i + 1;
      }
      FullIsStore(table, name, value);
    }
  }

  // The table after a store: recursion over its entries.
  function AfterStore(table: Table, name: string, value: bool): Table {
    if Find(table, name).Some? then Overwritten(table, name, value)
    else if |table| < ENTRIES then table + [VarEntry(Stored(name), value)]
    else table
  }

  function Overwritten(table: Table, name: string, value: bool): (r: Table)
    ensures |r| == |table|
  {
    if table == [] then []
    else if table[0].name == name then [VarEntry(name, value)] + table[1..]
    else [table[0]] + Overwritten(table[1..], name, value)
  }

  lemma {:induction false} FindNone(table: Table, name: string)
    ensures Find(table, name).None? <==> forall k :: 0 <= k < |table| ==> table[k].name != name
  {
    if table != [] {
      FindNone(table[1..], name);
      assert forall k :: 1 <= k < |table| ==> table[k] == table[1..][k - 1];
      assert forall k :: 0 <= k < |table[1..]| ==> table[1..][k] == table[k + 1];
    }
  }

  lemma AppendIsStore(table: Table, name: string, value: bool)
    requires |table| < ENTRIES && forall k :: 0 <= k < |table| ==> table[k].name != name
    ensures AfterStore(table, name, value) == table + [VarEntry(Stored(name), value)]
  {
    FindNone(table, name);
  }

  lemma FullIsStore(table: Table, name: string, value: bool)
    requires |table| == ENTRIES && forall k :: 0 <= k < |table| ==> table[k].name != name
    ensures AfterStore(table, name, value) == table
  {
    FindNone(table, name);
  }

  lemma UpdateIsStore(table: Table, i: nat, name: string, value: bool)
    requires i < |table| && table[i].name == name && forall k :: 0 <= k < i ==> table[k].name != name
    ensures AfterStore(table, name, value) == table[i := VarEntry(name, value)]
  {
    FindNone(table, name);
    OverwrittenAt(table, i, name, value);
  }

  lemma {:induction false} OverwrittenAt(table: Table, i: nat, name: string, value: bool)
    requires i < |table| && table[i].name == name && forall k :: 0 <= k < i ==> table[k].name != name
    ensures Overwritten(table, name, value) == table[i := VarEntry(name, value)]
  {
    if i > 0 {
      var rest := table[1..];
      assert forall k :: 0 <= k < |rest| ==> rest[k] == table[k + 1];
      OverwrittenAt(rest, i - 1, name, value);
      assert [table[0]] + rest[i - 1 := VarEntry(name, value)] == table[i := VarEntry(name, value)];
    } else {
      assert [VarEntry(name, value)] + table[1..] == table[0 := VarEntry(name, value)];
    }
  }

  // ---- What a run of stores leaves ----

  datatype Store = Store(name: string, value: bool)

  function AfterStores(stores: seq<Store>): Table {
    if stores == [] then []
    else
      var last := stores[|stores| - 1];
      AfterStore(AfterStores(stores[..|stores| - 1]), last.name, last.value)
  }

  // The last value stored under a name.
  function LastStored(stores: seq<Store>, name: string): Option<bool> {
    if stores == [] then None
    else
      var last := stores[|stores| - 1];
      if last.name == name then Some(last.value) else LastStored(stores[..|stores| - 1], name)
  }

  function Names(table: Table): set<string> {
    set k | 0 <= k < |table| :: table[k].name
  }

  function StoreNames(stores: seq<Store>): set<string> {
    set k | 0 <= k < |stores| :: stores[k].name
  }

  lemma {:induction false} FindAppend(table: Table, e: VarEntry, n: string)
    ensures Find(table + [e], n) == if Find(table, n).Some? then Find(table, n)
      else if e.name == n then Some(e.value) else None
  {
    if table != [] {
      FindAppend(table[1..], e, n);
      assert (table + [e])[1..] == table[1..] + [e];
    }
  }

  lemma {:induction false} FindOverwritten(table: Table, name: string, value: bool, n: string)
    ensures Find(Overwritten(table, name, value), n) ==
      if n == name && Find(table, name).Some? then Some(value) else Find(table, n)
  {
    if table != [] {
      FindOverwritten(table[1..], name, value, n);
      var r := Overwritten(table, name, value);
      assert r[1..] == if table[0].name == name then table[1..] else Overwritten(table[1..], name, value);
    }
  }

  // Every entry of the table stands for a name that was stored, once.
  ghost predicate Faithful(table: Table, stores: seq<Store>) {
    && (forall k :: 0 <= k < |table| ==> table[k].name in StoreNames(stores))
    && (forall j, k :: 0 <= j < k < |table| ==> table[j].name != table[k].name)
    && (forall n {:trigger Find(table, n)} :: Find(table, n) == LastStored(stores, n))
  }

  lemma {:induction false} DistinctNames(table: Table)
    requires forall j, k :: 0 <= j < k < |table| ==> table[j].name != table[k].name
    ensures |Names(table)| == |table|
  {
    if table != [] {
      var n := |table| - 1;
      DistinctNames(table[..n]);
      assert Names(table) == Names(table[..n]) + {table[n].name};
      assert table[n].name !in Names(table[..n]);
    }
  }

  // With at most 64 different names of at most 63 characters, the table holds the
  // last value stored under each.
  lemma {:induction false} StoresKept(stores: seq<Store>)
    requires Fit(stores)
    ensures Faithful(AfterStores(stores), stores)
  {
    if stores != [] {
      var n := |stores| - 1;
      var before, last := stores[..n], stores[n];
      NamesStep(before, last);
      assert stores == before + [last];
      Fewer(StoreNames(before), StoreNames(stores));
      StoresKept(before);
      StoreKept(AfterStores(before), before, last);
    }
  }

  // Whatever was stored, there are at most 64 entries, with names that fit.
  lemma {:induction false} TableFits(stores: seq<Store>)
    ensures |AfterStores(stores)| <= ENTRIES
    ensures forall k :: 0 <= k < |AfterStores(stores)| ==> |AfterStores(stores)[k].name| <= 63
  {
    if stores != [] {
      var n := |stores| - 1;
      TableFits(stores[..n]);
      OverwrittenNames(AfterStores(stores[..n]), stores[n].name, stores[n].value);
    }
  }

  lemma {:induction false} StoredOnce(stores: seq<Store>, k: nat)
    requires k < |stores|
    ensures LastStored(stores, stores[k].name).Some?
  {
    if k < |stores| - 1 {
      StoredOnce(stores[..|stores| - 1], k);
    }
  }

  // Every look-up finds the last value stored under its name, if there is one.
  ghost predicate Kept(stores: seq<Store>) {
    forall n {:trigger LastStored(stores, n)} :: Find(AfterStores(stores), n) == LastStored(stores, n)
  }

  ghost predicate Fit(stores: seq<Store>) {
    |StoreNames(stores)| <= 64 && forall k :: 0 <= k < |stores| ==> |stores[k].name| <= 63
  }

  // That holds exactly when there are at most 64 names, of at most 63 characters.
  lemma StoresKeptIff(stores: seq<Store>)
    ensures Kept(stores) <==> Fit(stores)
  {
    if Fit(stores) {
      StoresKept(stores);
    }
    if Kept(stores) {
      KeptMeansFit(stores);
    }
  }

  lemma KeptMeansFit(stores: seq<Store>)
    requires Kept(stores)
    ensures Fit(stores)
  {
    var table := AfterStores(stores);
    TableFits(stores);
    forall k | 0 <= k < |stores| ensures stores[k].name in Names(table) && |stores[k].name| <= 63 {
      StoredOnce(stores, k);
      FindNone(table, stores[k].name);
    }
    Fewer(StoreNames(stores), Names(table));
    NamesFewer(table);
  }

  lemma {:induction false} NamesFewer(table: Table)
    ensures |Names(table)| <= |table|
  {
    if table != [] {
      var n := |table| - 1;
      NamesFewer(table[..n]);
      assert Names(table) == Names(table[..n]) + {table[n].name};
    }
  }

  // Under a name of 64 characters nothing is found again.
  method LongNameIsLost() returns (v: Variables, name: string)
    ensures fresh(v) && |name| == 64 && Find(v.table, name).None?
  {
    name := seq(64, i => 'x');
    v := new Variables();
    v.StoreVar(name, true);
    assert v.table == [VarEntry(Stored(name), true)];
  }

  lemma NamesStep(before: seq<Store>, last: Store)
    ensures StoreNames(before + [last]) == StoreNames(before) + {last.name}
  {
    var stores := before + [last];
    assert stores[|before|] == last;
    forall n | n in StoreNames(before) ensures n in StoreNames(stores) {
      var k :| 0 <= k < |before| && before[k].name == n;
      assert stores[k].name == n;
    }
  }

  lemma Fewer(a: set<string>, b: set<string>)
    requires a <= b
    ensures |a| <= |b|
  {
    assert b == a + (b - a);
  }

  lemma StoreKept(table: Table, before: seq<Store>, last: Store)
    requires Faithful(table, before) && |last.name| <= 63 && |StoreNames(before + [last])| <= ENTRIES
    ensures Faithful(AfterStore(table, last.name, last.value), before + [last])
  {
    var stores := before + [last];
    assert stores[..|before|] == before;
    NamesStep(before, last);
    var table' := AfterStore(table, last.name, last.value);
    if Find(table, last.name).Some? {
      forall n ensures Find(table', n) == LastStored(stores, n) {
        FindOverwritten(table, last.name, last.value, n);
      }
      OverwrittenNames(table, last.name, last.value);
    } else {
      FindNone(table, last.name);
      DistinctNames(table);
      assert Names(table) + {last.name} <= StoreNames(stores);
      Fewer(Names(table) + {last.name}, StoreNames(stores));
      assert |Names(table) + {last.name}| == |table| + 1;
      forall n ensures Find(table', n) == LastStored(stores, n) {
        FindAppend(table, VarEntry(last.name, last.value), n);
      }
    }
  }

  lemma {:induction false} OverwrittenNames(table: Table, name: string, value: bool)
    ensures forall k :: 0 <= k < |table| ==> Overwritten(table, name, value)[k].name == table[k].name
  {
    if table != [] {
      OverwrittenNames(table[1..], name, value);
    }
  }

  // ---- The parser with its cursor ----

  class ExprParser {
    const s: string
    const table: Table
    var pos: nat

    constructor (expr: string, table: Table)
      ensures s == expr && this.table == table && pos == 0
    {
      s, this.table, pos := expr, table, 0;
    }

    method SkipWs()
      requires pos <= |s|
      modifies this
      ensures pos == Skip(s, old(pos))
    {
      while pos < |s| && IsSpace(s[pos])
        invariant pos <= |s| && Skip(s, pos) == Skip(s, old(pos))
      {
        pos := pos + 1;
      }
    }

    method Match(token: string) returns (matched: bool)
      requires pos <= |s|
      modifies this
      ensures matched <==> Starts(s, Skip(s, old(pos)), token)
      ensures pos == Skip(s, old(pos)) + (if matched then |token| else 0) && pos <= |s|
    {
      SkipWs();
      matched := pos + |token| <= |s| && s[pos..pos + |token|] == token;
      StartsIsSlice(s, pos, token);
      if matched {
        pos := pos + |token|;
      }
    }

    // The `match` calls that look for an operator of `level`, in their order.
    method MatchOp(level: nat) returns (op: Option<Op>)
      requires pos <= |s| && level < UNARY
      modifies this
      ensures if op.Some? then OpAt(level, s, old(pos)) == Some((op.value, pos)) && Level(op.value) == level
              else OpAt(level, s, old(pos)).None? && pos == Skip(s, old(pos))
    {
      SkipTwice(s, pos);
      TokensOf(level, s, pos);
      var tokens := Tokens(level);
      var matched := Match(OpText(tokens[0]));
      if matched {
        return Some(tokens[0]);
      }
      op := None;
      if |tokens| > 1 {
        matched := Match(OpText(tokens[1]));
        if matched {
          op := Some(tokens[1]);
        }
      }
    }

    method ParseOr() returns (val: bool)
      requires pos <= |s|
      modifies this
      ensures (val, pos) == Parse(0, s, old(pos), table)
      decreases |s| - pos, 6
    {
      val := ParseAnd();
      while true
        invariant old(pos) <= pos <= |s| && Parse(0, s, old(pos), table) == Rest(0, val, s, pos, table)
        decreases |s| - pos
      {
        var op := MatchOp(0);
        if op.None? {
          break;
        }
        var right := ParseAnd();
        val := val || right;
      }
    }

    method ParseAnd() returns (val: bool)
      requires pos <= |s|
      modifies this
      ensures (val, pos) == Parse(1, s, old(pos), table)
      decreases |s| - pos, 5
    {
      val := ParseXor();
      while true
        invariant old(pos) <= pos <= |s| && Parse(1, s, old(pos), table) == Rest(1, val, s, pos, table)
        decreases |s| - pos
      {
        var op := MatchOp(1);
        if op.None? {
          break;
        }
        var right := ParseXor();
        val := val && right;
      }
    }

    method ParseXor() returns (val: bool)
      requires pos <= |s|
      modifies this
      ensures (val, pos) == Parse(2, s, old(pos), table)
      decreases |s| - pos, 4
    {
      val := ParseEquality();
      while true
        invariant old(pos) <= pos <= |s| && Parse(2, s, old(pos), table) == Rest(2, val, s, pos, table)
        decreases |s| - pos
      {
        var op := MatchOp(2);
        if op.None? {
          break;
        }
        var right := ParseEquality();
        val := val != right;
      }
    }

    method ParseEquality() returns (val: bool)
      requires pos <= |s|
      modifies this
      ensures (val, pos) == Parse(3, s, old(pos), table)
      decreases |s| - pos, 3
    {
      val := ParseUnary();
      while true
        invariant old(pos) <= pos <= |s| && Parse(3, s, old(pos), table) == Rest(3, val, s, pos, table)
        decreases |s| - pos
      {
        var op := MatchOp(3);
        if op.None? {
          break;
        }
        var right := ParseUnary();
        val := if op.value == Eq then val == right else val != right;
      }
    }

    method MatchSign() returns (matched: bool)
      requires pos <= |s|
      modifies this
      ensures var q := Skip(s, old(pos));
        matched == (Sees(s, q, '!') || Sees(s, q, '~')) && pos == q + (if matched then 1 else 0) && pos <= |s|
    {
      SkipTwice(s, pos);
      SeesToken(s, Skip(s, pos), "!");
      SeesToken(s, Skip(s, pos), "~");
      matched := Match("!");
      if !matched {
        matched := Match("~");
      }
    }

    method ParseUnary() returns (val: bool)
      requires pos <= |s|
      modifies this
      ensures (val, pos) == ExprGrammar.ParseUnary(s, old(pos), table)
      decreases |s| - pos, 2
    {
      SkipWs();
      SkipTwice(s, old(pos));
      var matched := MatchSign();
      if matched {
        val := ParseUnary();
        val := !val;
      } else {
        val := ParsePrimary();
      }
    }

    method ParsePrimary() returns (val: bool)
      requires pos <= |s| && !Sees(s, Skip(s, pos), '!') && !Sees(s, Skip(s, pos), '~')
      modifies this
      ensures (val, pos) == ExprGrammar.ParseUnary(s, old(pos), table)
      decreases |s| - pos, 1
    {
      SkipWs();
      SkipTwice(s, old(pos));
      SeesToken(s, pos, "(");
      var matched := Match("(");
      if matched {
        val := ParseOr();
        SeesToken(s, Skip(s, pos), ")");
        matched := Match(")");
        return;
      }
      var start := pos;
      while pos < |s| && IsIdent(s[pos])
        invariant start <= pos <= |s| && IdentEnd(s, pos) == IdentEnd(s, start)
      {
        pos := pos + 1;
      }
      var ident := s[start..pos];
      if ident == "true" || ident == "1" {
        return true;
      }
      if ident == "false" || ident == "0" {
        return false;
      }
      var found := FindVar(ident);
      val := found.Some? && found.value;
    }

    method FindVar(ident: string) returns (found: Option<bool>)
      ensures found == Find(table, ident)
    {
      for i := 0 to |table|
        invariant Find(table, ident) == Find(table[i..], ident)
      {
        if table[i].name == ident {
          return Some(table[i].value);
        }
        assert table[i..][1..] == table[i + 1..];
      }
      found := None;
    }
  }

  // The operators of a level, in the order they are looked for.
  function Tokens(level: nat): (r: seq<Op>)
    requires level < UNARY
    ensures 1 <= |r| <= 2 && forall op :: op in r ==> Level(op) == level
  {
    if level == 0 then [OrOr, Or] else if level == 1 then [AndAnd, And] else if level == 2 then [Xor] else [Eq, Neq]
  }

  // The first of two operators whose text comes at `q`.
  function FirstOf(t: seq<Op>, s: string, q: nat): Option<(Op, nat)>
    requires 1 <= |t| <= 2
  {
    if Starts(s, q, OpText(t[0])) then Some((t[0], q + |OpText(t[0])|))
    else if |t| > 1 && Starts(s, q, OpText(t[1])) then Some((t[1], q + |OpText(t[1])|))
    else None
  }

  // They are told apart by their text.
  lemma TokensOf(level: nat, s: string, p: nat)
    requires p <= |s| && level < UNARY
    ensures OpAt(level, s, p) == FirstOf(Tokens(level), s, Skip(s, p))
  {
    match level
    case 0 => PairTokens(0, "||", "|", s, p);
    case 1 => PairTokens(1, "&&", "&", s, p);
    case 2 => SeesToken(s, Skip(s, p), "^");
    case _ => PairTokens(3, "==", "!=", s, p);
  }

  lemma PairTokens(level: nat, first: string, second: string, s: string, p: nat)
    requires p <= |s| && level < UNARY && |Tokens(level)| == 2
    requires OpText(Tokens(level)[0]) == first && OpText(Tokens(level)[1]) == second
    ensures OpAt(level, s, p) == FirstOf(Tokens(level), s, Skip(s, p))
  {
    SeesToken(s, Skip(s, p), first);
    SeesToken(s, Skip(s, p), second);
  }

  lemma StartsIsSlice(s: string, p: nat, token: string)
    ensures Starts(s, p, token) <==> p + |token| <= |s| && s[p..p + |token|] == token
  {
    if p + |token| <= |s| {
      assert forall i {:trigger token[i]} :: 0 <= i < |token| ==> s[p..p + |token|][i] == s[p + i];
    }
  }

  // `__VERIFY_ASSERT` on the text of an expression gives the expression's value
  // under the values last stored.
  method VerifyAssert(e: Expr, trailing: string, stores: seq<Store>) returns (result: bool)
    requires WellFormed(e, 0) && Blank(trailing)
    requires |StoreNames(stores)| <= 64 && forall k :: 0 <= k < |stores| ==> |stores[k].name| <= 63
    ensures result == Value(e, AfterStores(stores))
    ensures forall n {:trigger Find(AfterStores(stores), n)} :: Find(AfterStores(stores), n) == LastStored(stores, n)
  {
    StoresKept(stores);
    RoundTrip(e, trailing, AfterStores(stores));
    var variables := new Variables();
    for i := 0 to |stores|
      invariant variables.table == AfterStores(stores[..i]) && |variables.table| <= ENTRIES && fresh(variables)
    {
      assert stores[..i + 1][..i] == stores[..i];
      variables.StoreVar(stores[i].name, stores[i].value);
    }
    assert stores[..|stores|] == stores;
    var parser := new ExprParser(Text(e) + trailing, variables.table);
    result := parser.ParseOr();
  }
}
