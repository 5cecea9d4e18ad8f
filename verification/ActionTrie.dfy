// The radix trie over action clocks: 32-bit clocks, four bits a level
// (`actionlist.cc`).

module ActionTrie {
  import opened Options

  const LEVELS: nat := 8
  const WIDTH: nat := 16

  // `clock >> (4 * level)`
  function Prefix(k: nat, level: nat): nat {
    if level == 0 then k else Prefix(k, level - 1) / WIDTH
  }

  // The node whose block of clocks share a prefix; its children are at `level - 1`.
  datatype Node = Node(level: nat, prefix: nat)

  // The nodes below the root, and the clocks that have a leaf.
  datatype Trie = Trie(nodes: set<Node>, keys: set<nat>, count: map<Node, nat>)

  // Whether the child pointer for `prefix` at `level` is set.
  predicate Has(t: Trie, level: nat, prefix: nat) {
    if level == 0 then prefix in t.keys else Node(level, prefix) in t.nodes
  }

  function PathNode(k: nat, level: nat): Node {
    Node(level, Prefix(k, level))
  }

  function NumChildren(t: Trie, n: Node, i: nat): (c: nat)
    requires n.level > 0
    ensures c <= i
  {
    if i == 0 then 0
    else NumChildren(t, n, i - 1) + if Has(t, n.level - 1, WIDTH * n.prefix + i - 1) then 1 else 0
  }

  // Some clock has this prefix.
  ghost predicate Occupied(t: Trie, level: nat, prefix: nat) {
    exists k {:trigger Prefix(k, level)} :: k in t.keys && Prefix(k, level) == prefix
  }

  // Below the root exactly the non-empty nodes exist; up to level `done` the
  // nodes on the way to clock `path` may be empty, or must exist already.
  ghost predicate ShapeBut(t: Trie, path: nat, from: nat) {
    && (forall k {:trigger k in t.keys} :: k in t.keys ==> Prefix(k, LEVELS) == 0)
    && (forall n {:trigger n in t.nodes} :: n in t.nodes ==> 0 < n.level < LEVELS)
    && forall n: Node {:trigger Has(t, n.level, n.prefix)} :: n.level < LEVELS ==>
         (Has(t, n.level, n.prefix) <==>
           Occupied(t, n.level, n.prefix) || (n.level >= from && n == PathNode(path, n.level)))
  }

  ghost predicate Shaped(t: Trie) {
    ShapeBut(t, 0, LEVELS)
  }

  ghost predicate CountsBut(t: Trie, wrong: Node) {
    && Node(LEVELS, 0) in t.count
    && forall n {:trigger n in t.count} :: (n in t.count <==> n in t.nodes || n == Node(LEVELS, 0))
         && (n in t.count && n.level > 0 && n != wrong ==> t.count[n] == NumChildren(t, n, WIDTH))
  }

  ghost predicate TrieOk(t: Trie) {
    Shaped(t) && CountsBut(t, Node(0, 0))
  }

  // ---- Prefixes ----

  lemma {:induction false} PrefixMonotone(a: nat, b: nat, level: nat)
    requires a <= b
    ensures Prefix(a, level) <= Prefix(b, level)
  {
    if level > 0 {
      PrefixMonotone(a, b, level - 1);
    }
  }

  // ---- Searching backwards ----

  // Every clock below `clock` has, at this level, a prefix of at most `c`.
  ghost predicate Bound(t: Trie, clock: nat, level: nat, c: int) {
    && c < Prefix(clock, level)
    && forall k {:trigger Prefix(k, level)} :: k in t.keys && k < clock ==> Prefix(k, level) <= c
  }

  lemma BoundStarts(t: Trie, clock: nat)
    ensures Bound(t, clock, 0, clock - 1)
  {
  }

  // Nothing there: look one to the left.
  lemma BoundSkips(t: Trie, clock: nat, level: nat, c: nat)
    requires Bound(t, clock, level, c) && !Occupied(t, level, c)
    ensures Bound(t, clock, level, c - 1)
  {
  }

  // Past the first child: the search goes on one level up.
  lemma BoundClimbs(t: Trie, clock: nat, level: nat, c: int)
    requires Bound(t, clock, level, c) && c == WIDTH * Prefix(clock, level + 1) - 1
    ensures Bound(t, clock, level + 1, Prefix(clock, level + 1) - 1)
  {
    var p := Prefix(clock, level + 1);
    forall k | k in t.keys && k < clock ensures Prefix(k, level + 1) < p {
      assert Prefix(k, level) <= c;
    }
  }

  // A child found: the last of its block comes first.
  lemma BoundDescends(t: Trie, clock: nat, level: nat, c: nat)
    requires level > 0 && Bound(t, clock, level, c)
    ensures Bound(t, clock, level - 1, WIDTH * c + WIDTH - 1)
  {
    forall k | k in t.keys && k < clock ensures Prefix(k, level - 1) <= WIDTH * c + WIDTH - 1 {
      assert Prefix(k, level) <= c;
    }
  }

  // `allnode::findPrev`, from the node that holds the leaf of `clock`.  `c` stands
  // for `index >> totalshift`; the bits of `index` below are all ones.
  method FindPrev(t: Trie, clock: nat, ghost from: nat) returns (prev: Option<nat>)
    requires Prefix(clock, LEVELS) == 0 && ShapeBut(t, clock, from)
    ensures prev.Some? ==> prev.value in t.keys && prev.value < clock
    ensures forall k {:trigger k in t.keys} :: k in t.keys && k < clock ==> prev.Some? && k <= prev.value
  {
    BoundStarts(t, clock);
    var level: nat, c := 0, clock - 1;
    while true
      invariant level < LEVELS && Bound(t, clock, level, c) && c >= WIDTH * Prefix(clock, level + 1) - 1
      decreases LEVELS - level, c + 1
    {
      if c % WIDTH != WIDTH - 1 {
        if Has(t, level, c) {
          break;
        }
        assert !Occupied(t, Node(level, c).level, Node(level, c).prefix);
        BoundSkips(t, clock, level, c);
        c := c - 1;
      } else {
        BoundClimbs(t, clock, level, c);
        level := level + 1;
        c := Prefix(clock, level) - 1;
        if level == LEVELS {
          return None;
        }
      }
    }
    prev := Descend(t, clock, level, c, from);
  }

  // The second half: down to the last leaf of the block found.
  method Descend(t: Trie, clock: nat, level0: nat, c0: nat, ghost from: nat) returns (prev: Option<nat>)
    requires level0 < LEVELS && ShapeBut(t, clock, from) && Bound(t, clock, level0, c0) && Has(t, level0, c0)
    ensures prev.Some? && prev.value in t.keys && prev.value < clock
    ensures forall k {:trigger k in t.keys} :: k in t.keys && k < clock ==> k <= prev.value
  {
    var level: nat, c: nat := level0, c0;
    while level > 0
      invariant level < LEVELS && Bound(t, clock, level, c) && Has(t, level, c)
    {
      assert Has(t, Node(level, c).level, Node(level, c).prefix);
      assert Occupied(t, level, c);
      ghost var k :| k in t.keys && Prefix(k, level) == c;
      BoundDescends(t, clock, level, c);
      level, c := level - 1, WIDTH * c + WIDTH - 1;
      while !Has(t, level, c)
        invariant Bound(t, clock, level, c) && c >= Prefix(k, level)
        decreases c
      {
        assert !Occupied(t, Node(level, c).level, Node(level, c).prefix);
        BoundSkips(t, clock, level, c);
        c := c - 1;
      }
    }
    forall k | k in t.keys && k < clock ensures k <= c {
      assert Prefix(k, 0) <= c;
    }
    prev := Some(c);
  }

  // ---- Growing ----

  function Child(n: Node, i: nat): Node
    requires n.level > 0
  {
    Node(n.level - 1, WIDTH * n.prefix + i)
  }

  function ToInt(b: bool): int {
    if b then 1 else 0
  }

  // Two tries that differ in at most one child of a node.
  lemma {:induction false} CountsDiffer(t: Trie, t': Trie, n: Node, j: nat, i: nat)
    requires n.level > 0 && i <= WIDTH && j < WIDTH
    requires forall m: nat {:trigger Child(n, m)} :: m < WIDTH && m != j ==>
      Has(t', n.level - 1, Child(n, m).prefix) == Has(t, n.level - 1, Child(n, m).prefix)
    ensures NumChildren(t', n, i) == NumChildren(t, n, i)
      + if i > j then ToInt(Has(t', n.level - 1, Child(n, j).prefix))
        - ToInt(Has(t, n.level - 1, Child(n, j).prefix)) else 0
  {
    if i > 0 {
      CountsDiffer(t, t', n, j, i - 1);
      assert Child(n, i - 1).prefix == WIDTH * n.prefix + i - 1;
    }
  }

  lemma {:induction false} NoChildren(t: Trie, n: Node, i: nat)
    requires n.level > 0 && i <= WIDTH
    ensures NumChildren(t, n, i) == 0 <==> forall m: nat {:trigger Child(n, m)} :: m < i ==>
      !Has(t, n.level - 1, Child(n, m).prefix)
  {
    if i > 0 {
      NoChildren(t, n, i - 1);
      assert Child(n, i - 1).prefix == WIDTH * n.prefix + i - 1;
    }
  }

  // The child on the way to a clock, and its place in its parent.
  lemma PathStep(k: nat, level: nat)
    requires level > 0
    ensures var n := PathNode(k, level); var j := Prefix(k, level - 1) % WIDTH;
      j < WIDTH && Child(n, j) == PathNode(k, level - 1)
  {
  }

  // What one new or lost child of `parent` does to the counts.
  lemma CountsOneChild(t: Trie, t': Trie, k: nat, level: nat, n: Node)
    requires 0 < n.level && 0 < level
    requires forall m: Node {:trigger Has(t', m.level, m.prefix)} :: m != PathNode(k, level - 1) ==>
      Has(t', m.level, m.prefix) == Has(t, m.level, m.prefix)
    ensures NumChildren(t', n, WIDTH) == NumChildren(t, n, WIDTH) + if n == PathNode(k, level)
      then ToInt(Has(t', level - 1, Prefix(k, level - 1))) - ToInt(Has(t, level - 1, Prefix(k, level - 1))) else 0
  {
    PathStep(k, level);
    var j := Prefix(k, level - 1) % WIDTH;
    forall m: nat | m < WIDTH && (m != j || n != PathNode(k, level))
      ensures Has(t', n.level - 1, Child(n, m).prefix) == Has(t, n.level - 1, Child(n, m).prefix)
    {
      var c := Child(n, m);
      assert Has(t', c.level, c.prefix) == Has(t, c.level, c.prefix);
    }
    CountsDiffer(t, t', n, j, WIDTH);
  }

  // `new allnode` for the child at `level` on the way to `clock`, if missing.
  function WithPathNode(t: Trie, clock: nat, level: nat): Trie
    requires PathNode(clock, level + 1) in t.count
  {
    var n, parent := PathNode(clock, level), PathNode(clock, level + 1);
    if n in t.nodes then t
    else Trie(t.nodes + {n}, t.keys, t.count[parent := t.count[parent] + 1][n := 0])
  }

  lemma OccupiedUp(t: Trie, level: nat, prefix: nat)
    requires Occupied(t, level, prefix)
    ensures Occupied(t, level + 1, prefix / WIDTH)
  {
    var k :| k in t.keys && Prefix(k, level) == prefix;
    assert Prefix(k, level + 1) == prefix / WIDTH;
  }

  lemma PathNodeShape(t: Trie, clock: nat, level: nat)
    requires 0 < level < LEVELS && Prefix(clock, LEVELS) == 0 && ShapeBut(t, clock, level + 1)
    requires PathNode(clock, level + 1) in t.count
    ensures ShapeBut(WithPathNode(t, clock, level), clock, level)
  {
    var t' := WithPathNode(t, clock, level);
    forall n: Node | n.level < LEVELS
      ensures Has(t', n.level, n.prefix) <==>
        Occupied(t', n.level, n.prefix) || (n.level >= level && n == PathNode(clock, n.level))
    {
      assert Occupied(t', n.level, n.prefix) <==> Occupied(t, n.level, n.prefix);
      assert Has(t, n.level, n.prefix) <==>
        Occupied(t, n.level, n.prefix) || (n.level >= level + 1 && n == PathNode(clock, n.level));
    }
  }

  lemma PathNodeCounts(t: Trie, clock: nat, level: nat)
    requires 0 < level < LEVELS && Prefix(clock, LEVELS) == 0 && ShapeBut(t, clock, level + 1)
    requires CountsBut(t, Node(0, 0)) && PathNode(clock, level + 1) in t.count
    ensures CountsBut(WithPathNode(t, clock, level), Node(0, 0))
      && PathNode(clock, level) in WithPathNode(t, clock, level).count
  {
    var t', n := WithPathNode(t, clock, level), PathNode(clock, level);
    if n !in t.nodes {
      forall m: Node | m != n ensures Has(t', m.level, m.prefix) == Has(t, m.level, m.prefix) {
      }
      forall m: Node | m in t'.count && m.level > 0 ensures t'.count[m] == NumChildren(t', m, WIDTH) {
        CountsOneChild(t, t', clock, level + 1, m);
        if m == n {
          NewNodeIsEmpty(t, clock, level);
        }
      }
    } else {
      assert n in t.count;
    }
  }

  lemma NewNodeIsEmpty(t: Trie, clock: nat, level: nat)
    requires 0 < level < LEVELS && ShapeBut(t, clock, level + 1) && !Has(t, level, Prefix(clock, level))
    ensures NumChildren(t, PathNode(clock, level), WIDTH) == 0
  {
    var n := PathNode(clock, level);
    assert Has(t, n.level, n.prefix) <==> Occupied(t, n.level, n.prefix) || n.level >= level + 1;
    forall m: nat | m < WIDTH ensures !Has(t, level - 1, Child(n, m).prefix) {
      var c := Child(n, m);
      assert Has(t, c.level, c.prefix) <==> Occupied(t, c.level, c.prefix) || (c.level >= level + 1);
      if Occupied(t, c.level, c.prefix) {
        OccupiedUp(t, c.level, c.prefix);
      }
    }
    NoChildren(t, n, WIDTH);
  }

  // The leaf of `clock`, under nodes that are all there.
  function WithLeaf(t: Trie, clock: nat): Trie
    requires PathNode(clock, 1) in t.count
  {
    if clock in t.keys then t
    else Trie(t.nodes, t.keys + {clock}, t.count[PathNode(clock, 1) := t.count[PathNode(clock, 1)] + 1])
  }

  lemma WithLeafOk(t: Trie, clock: nat)
    requires Prefix(clock, LEVELS) == 0 && ShapeBut(t, clock, 1) && CountsBut(t, Node(0, 0))
      && PathNode(clock, 1) in t.count
    ensures TrieOk(WithLeaf(t, clock))
  {
    var t' := WithLeaf(t, clock);
    forall n: Node | n.level < LEVELS ensures Has(t', n.level, n.prefix) <==> Occupied(t', n.level, n.prefix) {
      assert Has(t, n.level, n.prefix) <==>
        Occupied(t, n.level, n.prefix) || (n.level >= 1 && n == PathNode(clock, n.level));
      assert Occupied(t', n.level, n.prefix) <==> Occupied(t, n.level, n.prefix) || n == PathNode(clock, n.level) by {
        assert clock in t'.keys;
        assert Prefix(clock, n.level) == Prefix(clock, n.level);
      }
    }
    if clock !in t.keys {
      WithLeafCounts(t, clock);
    }
  }

  lemma WithLeafCounts(t: Trie, clock: nat)
    requires CountsBut(t, Node(0, 0)) && PathNode(clock, 1) in t.count && clock !in t.keys
    ensures CountsBut(WithLeaf(t, clock), Node(0, 0))
  {
    var t' := WithLeaf(t, clock);
    forall m: Node | m.level > 0 && m in t'.count ensures t'.count[m] == NumChildren(t', m, WIDTH) {
      CountsOneChild(t, t', clock, 1, m);
    }
  }

  // ---- Shrinking ----

  // The leaf of `clock` gone; the count of the node above is one too high.
  lemma WithoutLeaf(t: Trie, t': Trie, clock: nat)
    requires TrieOk(t) && clock in t.keys && t' == t.(keys := t.keys - {clock})
    ensures Overcounted(t', clock, 1)
  {
    forall n: Node | n.level < LEVELS
      ensures Has(t', n.level, n.prefix) <==>
        Occupied(t', n.level, n.prefix) || (n.level >= 1 && n == PathNode(clock, n.level))
    {
      assert Has(t, n.level, n.prefix) <==> Occupied(t, n.level, n.prefix);
      if Occupied(t, n.level, n.prefix) && n != PathNode(clock, n.level) {
        var k :| k in t.keys && Prefix(k, n.level) == n.prefix;
        assert k in t'.keys;
      }
      assert n == PathNode(clock, n.level) ==> Occupied(t, n.level, n.prefix);
    }
    var above := PathNode(clock, 1);
    assert Has(t, above.level, above.prefix) by {
      assert Prefix(clock, 1) == above.prefix;
    }
    forall m: Node | m.level > 0 ensures NumChildren(t', m, WIDTH) == NumChildren(t, m, WIDTH) - ToInt(m == above) {
      CountsOneChild(t, t', clock, 1, m);
    }
  }

  // A child of the node at `level` on the way to `clock` has gone, and the node
  // does not know yet.
  ghost predicate Overcounted(t: Trie, clock: nat, level: nat) {
    var n := PathNode(clock, level);
    && 0 < level <= LEVELS && Prefix(clock, LEVELS) == 0 && ShapeBut(t, clock, level) && CountsBut(t, n)
    && n in t.count && t.count[n] == NumChildren(t, n, WIDTH) + 1
  }

  // `decrementCount`: empty nodes go, up to the first that is not.
  method DecrementCount(t: Trie, clock: nat, level: nat) returns (t': Trie)
    requires Overcounted(t, clock, level)
    ensures TrieOk(t') && t'.keys == t.keys
    decreases LEVELS - level
  {
    var n := PathNode(clock, level);
    t' := t.(count := t.count[n := t.count[n] - 1]);
    SameShape(t, t', clock, level, n);
    if t'.count[n] == 0 && level < LEVELS {
      NodeRemoved(t', clock, level);
      t' := t'.(nodes := t'.nodes - {n}, count := t'.count - {n});
      t' := DecrementCount(t', clock, level + 1);
    } else if level < LEVELS {
      NodeStays(t', clock, level);
    }
  }

  lemma SameShape(t: Trie, t': Trie, clock: nat, level: nat, n: Node)
    requires ShapeBut(t, clock, level) && CountsBut(t, n) && n in t.count && n.level > 0
    requires t' == t.(count := t.count[n := NumChildren(t, n, WIDTH)])
    ensures ShapeBut(t', clock, level) && CountsBut(t', Node(0, 0))
  {
    forall m: Node | m.level < LEVELS ensures Has(t', m.level, m.prefix) == Has(t, m.level, m.prefix)
      && (Occupied(t', m.level, m.prefix) <==> Occupied(t, m.level, m.prefix)) {
    }
    forall m: Node | m.level > 0 ensures NumChildren(t', m, WIDTH) == NumChildren(t, m, WIDTH) {
      CountsOneChild(t, t', 0, 1, m);
    }
  }

  // With a child left, the node and all above it are occupied.
  lemma NodeStays(t: Trie, clock: nat, level: nat)
    requires 0 < level < LEVELS && ShapeBut(t, clock, level) && NumChildren(t, PathNode(clock, level), WIDTH) > 0
    ensures Shaped(t)
  {
    var n := PathNode(clock, level);
    NoChildren(t, n, WIDTH);
    var m: nat :| m < WIDTH && Has(t, level - 1, Child(n, m).prefix);
    var c := Child(n, m);
    assert Has(t, c.level, c.prefix) <==> Occupied(t, c.level, c.prefix) || c.level >= level;
    OccupiedUp(t, level - 1, c.prefix);
    forall a: Node | a.level < LEVELS ensures Has(t, a.level, a.prefix) <==> Occupied(t, a.level, a.prefix) {
      if a.level >= level && a == PathNode(clock, a.level) {
        PathOccupied(t, clock, level, a.level);
      }
    }
  }

  lemma {:induction false} PathOccupied(t: Trie, clock: nat, low: nat, high: nat)
    requires low <= high && Occupied(t, low, Prefix(clock, low))
    ensures Occupied(t, high, Prefix(clock, high))
    decreases high
  {
    if low < high {
      PathOccupied(t, clock, low, high - 1);
      OccupiedUp(t, high - 1, Prefix(clock, high - 1));
    }
  }

  // Without a child, it goes, and its parent has one child less.
  lemma NodeRemoved(t: Trie, clock: nat, level: nat)
    requires 0 < level < LEVELS && Prefix(clock, LEVELS) == 0 && ShapeBut(t, clock, level)
    requires var n := PathNode(clock, level);
      CountsBut(t, Node(0, 0)) && n in t.count && NumChildren(t, n, WIDTH) == 0
    ensures var n := PathNode(clock, level);
      Overcounted(t.(nodes := t.nodes - {n}, count := t.count - {n}), clock, level + 1)
  {
    var n := PathNode(clock, level);
    var t' := t.(nodes := t.nodes - {n}, count := t.count - {n});
    NotOccupied(t, clock, level);
    forall m: Node | m.level < LEVELS
      ensures Has(t', m.level, m.prefix) <==>
        Occupied(t', m.level, m.prefix) || (m.level >= level + 1 && m == PathNode(clock, m.level))
    {
      assert Has(t, m.level, m.prefix) <==>
        Occupied(t, m.level, m.prefix) || (m.level >= level && m == PathNode(clock, m.level));
      assert Occupied(t', m.level, m.prefix) <==> Occupied(t, m.level, m.prefix);
    }
    var parent := PathNode(clock, level + 1);
    assert level + 1 < LEVELS ==> Has(t, parent.level, parent.prefix);
    assert Has(t, n.level, n.prefix);
    ParentLosesOne(t, t', clock, level);
  }

  lemma ParentLosesOne(t: Trie, t': Trie, clock: nat, level: nat)
    requires 0 < level && Has(t, level, Prefix(clock, level)) && !Has(t', level, Prefix(clock, level))
    requires forall m: Node {:trigger Has(t', m.level, m.prefix)} :: m != PathNode(clock, level) ==>
      Has(t', m.level, m.prefix) == Has(t, m.level, m.prefix)
    ensures forall m: Node :: m.level > 0 ==>
      NumChildren(t', m, WIDTH) == NumChildren(t, m, WIDTH) - ToInt(m == PathNode(clock, level + 1))
  {
    forall m: Node | m.level > 0
      ensures NumChildren(t', m, WIDTH) == NumChildren(t, m, WIDTH) - ToInt(m == PathNode(clock, level + 1)) {
      CountsOneChild(t, t', clock, level + 1, m);
    }
  }

  lemma NotOccupied(t: Trie, clock: nat, level: nat)
    requires 0 < level < LEVELS && ShapeBut(t, clock, level) && NumChildren(t, PathNode(clock, level), WIDTH) == 0
    ensures !Occupied(t, level, Prefix(clock, level))
  {
    var n := PathNode(clock, level);
    NoChildren(t, n, WIDTH);
    forall k | k in t.keys ensures Prefix(k, level) != n.prefix {
      var c, i := PathNode(k, level - 1), Prefix(k, level - 1) % WIDTH;
      assert Child(PathNode(k, level), i) == c;
      assert Occupied(t, c.level, c.prefix) by {
        assert Prefix(k, c.level) == c.prefix;
      }
      assert Has(t, c.level, c.prefix);
    }
  }

  lemma EmptyIffNoChildren(t: Trie)
    requires TrieOk(t)
    ensures t.count[Node(LEVELS, 0)] == 0 <==> t.keys == {}
  {
    var root := Node(LEVELS, 0);
    NoChildren(t, root, WIDTH);
    if t.keys != {} {
      var k :| k in t.keys;
      var c := PathNode(k, LEVELS - 1);
      assert Prefix(k, LEVELS) == 0;
      assert Occupied(t, c.level, c.prefix) by {
        assert Prefix(k, c.level) == c.prefix;
      }
      assert Has(t, c.level, c.prefix) && Child(root, c.prefix) == c;
    } else {
      forall m: nat | m < WIDTH ensures !Has(t, LEVELS - 1, Child(root, m).prefix) {
        var c := Child(root, m);
        assert !Occupied(t, c.level, c.prefix);
      }
    }
  }
}
