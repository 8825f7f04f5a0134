/**
 * The code-word tree of src/hpack.c: built on the heap, one node per prefix of a code word, and freed
 * node by node.
 */
module Trie {

  /** A code word as the table holds it: a right-aligned number and how many of its bits count. */
  datatype Code = Code(bits: nat, length: nat)

  type Path = seq<bool>

  function Pow2(n: nat): (r: nat)
    ensures r > 0
  {
    if n == 0 then 1 else 2 * Pow2(n - 1)
  }

  /** `code & (1 << j)` */
  predicate Bit(code: nat, j: nat) {
    code / Pow2(j) % 2 == 1
  }

  /** The path a code word spells, most significant bit first. */
  function Spell(c: Code): (p: Path)
    ensures |p| == c.length
  {
    seq(c.length, k requires 0 <= k < c.length => Bit(c.bits, c.length - 1 - k))
  }

  /** The number a path is read back as. */
  function Number(p: Path): (r: nat) {
    if p == [] then 0 else 2 * Number(Parent(p)) + if p[|p| - 1] then 1 else 0
  }

  function Parent(q: Path): Path
    requires q != []
  {
    q[..|q| - 1]
  }

  /** The prefixes of a path, itself included. */
  function Prefixes(p: Path): (r: set<Path>)
    ensures forall q :: q in r <==> q <= p
  {
    var r := set k | 0 <= k <= |p| :: p[..k];
    assert forall q | q <= p :: q == p[..|q|];
    r
  }

  /** The prefixes of the first `n` code words of a table, and the empty path. */
  function AllPrefixes(table: seq<Code>, n: nat): (r: set<Path>)
    requires n <= |table|
    ensures [] in r
    ensures forall q :: q in r <==> q == [] || exists i :: 0 <= i < n && q <= Spell(table[i])
  {
    if n == 0 then {[]} else AllPrefixes(table, n - 1) + Prefixes(Spell(table[n - 1]))
  }

  /** The symbol the first `n` code words leave at a path: the last one spelled so, or `calloc`'s zero. */
  function SymbolAt(table: seq<Code>, n: nat, q: Path): int
    requires n <= |table|
  {
    if n == 0 then 0 else if Spell(table[n - 1]) == q then n - 1 else SymbolAt(table, n - 1, q)
  }

  predicate Distinct(table: seq<Code>) {
    forall i, j | 0 <= i < j < |table| :: Spell(table[i]) != Spell(table[j])
  }

  /** Where all code words differ, each one's path holds its own symbol. */
  lemma {:induction false} EachItsSymbol(table: seq<Code>, n: nat, i: nat)
    requires Distinct(table) && i < n <= |table|
    ensures SymbolAt(table, n, Spell(table[i])) == i
  {
    hide Spell;
    if i < n - 1 {
      EachItsSymbol(table, n - 1, i);
    }
  }

  // ---------- the tree on the heap ----------

  class Node {
    var symbol: int
    var left: Node?
    var right: Node?

    constructor ()
      ensures symbol == 0 && left == null && right == null
    {
      symbol, left, right := 0, null, null;
    }
  }

  function Child(n: Node, bit: bool): Node?
    reads n
  {
    if bit then n.right else n.left
  }

  ghost function Lookup(nodes: map<Path, Node>, q: Path): Node? {
    if q in nodes then nodes[q] else null
  }

  ghost predicate Injective(nodes: map<Path, Node>) {
    forall p, q | p in nodes && q in nodes && p != q :: nodes[p] != nodes[q]
  }

  ghost predicate Hang(nodes: map<Path, Node>) {
    forall q | q in nodes && q != [] :: Parent(q) in nodes
  }

  /** What hangs from each node is what the map has one step further. */
  ghost predicate Linked(nodes: map<Path, Node>)
    reads nodes.Values
  {
    forall p, bit | p in nodes :: Child(nodes[p], bit) == Lookup(nodes, p + [bit])
  }

  /** The nodes of a tree by their paths: nothing shared, nothing loose, no way back up. */
  ghost predicate IsTree(nodes: map<Path, Node>, root: Node)
    reads nodes.Values
  {
    [] in nodes && nodes[[]] == root && Injective(nodes) && Hang(nodes) && Linked(nodes)
  }

  /** Walking a path from a node, bit by bit, until there is no child. */
  ghost function Follow(n: Node, path: Path, repr: set<Node>): Node?
    reads repr
    decreases |path|
  {
    if path == [] then n
    else if n !in repr then null
    else
      var next := Child(n, path[0]);
      if next == null then null else Follow(next, path[1..], repr)
  }

  lemma {:induction false} Ancestors(nodes: map<Path, Node>, q: Path, n: nat)
    requires Hang(nodes) && n <= |q|
    ensures q in nodes ==> q[..n] in nodes
    decreases |q|
  {
    if n == |q| {
      assert q[..n] == q;
    } else if q in nodes {
      Ancestors(nodes, Parent(q), n);
      assert Parent(q)[..n] == q[..n];
    }
  }

  /** Walking finds the node at the end of the path, or nothing where the tree has no such path. */
  lemma {:induction false} FollowIsLookup(nodes: map<Path, Node>, root: Node, p: Path, path: Path)
    requires IsTree(nodes, root) && p in nodes
    ensures Follow(nodes[p], path, nodes.Values) == Lookup(nodes, p + path)
    decreases |path|
  {
    if path == [] {
      assert p + path == p;
    } else {
      var q := p + [path[0]];
      assert q + path[1..] == p + path;
      assert Child(nodes[p], path[0]) == Lookup(nodes, q);
      if q in nodes {
        FollowIsLookup(nodes, root, q, path[1..]);
      } else {
        assert (p + path)[..|q|] == q;
        Ancestors(nodes, p + path, |q|);
      }
    }
  }

  // ---------- building ----------

  /** A node per prefix, and at each path its symbol. */
  ghost predicate IsTreeOf(nodes: map<Path, Node>, root: Node, table: seq<Code>, n: nat)
    requires n <= |table|
    reads nodes.Values
  {
    && IsTree(nodes, root)
    && nodes.Keys == AllPrefixes(table, n)
    && forall q | q in nodes :: nodes[q].symbol == SymbolAt(table, n, q)
  }

  /** A path extended by one bit is new where its own last step is. */
  lemma OneStep(nodes: map<Path, Node>, path: Path, bit: bool)
    requires Hang(nodes) && path in nodes && path + [bit] !in nodes
    ensures Parent(path + [bit]) == path
    ensures forall b :: path + [bit] + [b] !in nodes
    ensures forall p, b | p + [b] == path + [bit] :: p == path && b == bit
  {
    assert Parent(path + [bit]) == path;
    forall b ensures path + [bit] + [b] !in nodes {
      assert Parent(path + [bit] + [b]) == path + [bit];
    }
    forall p, b | p + [b] == path + [bit] ensures p == path && b == bit {
      assert Parent(p + [b]) == p && (p + [b])[|p|] == b;
      assert (path + [bit])[|path|] == bit;
    }
  }

  lemma Apart(nodes: map<Path, Node>, path: Path)
    requires Injective(nodes) && path in nodes
    ensures forall p | p in nodes && p != path :: nodes[p] != nodes[path]
  {}

  lemma HangsOn(nodes: map<Path, Node>, q: Path, child: Node)
    requires Hang(nodes) && q != [] && Parent(q) in nodes
    ensures Hang(nodes[q := child])
  {}

  lemma NewNode(nodes: map<Path, Node>, root: Node, q: Path, child: Node)
    requires [] in nodes && nodes[[]] == root && Injective(nodes) && q !in nodes && child !in nodes.Values
    ensures var nodes' := nodes[q := child];
      [] in nodes' && nodes'[[]] == root && Injective(nodes')
  {}

  /** Hang a new node from a node that has no child on that side. */
  method AddChild(node: Node, bit: bool, ghost nodes: map<Path, Node>, ghost root: Node, ghost path: Path)
    returns (child: Node)
    requires IsTree(nodes, root) && path in nodes && nodes[path] == node && path + [bit] !in nodes
    modifies node`left, node`right
    ensures fresh(child) && child.symbol == 0
    ensures IsTree(nodes[path + [bit] := child], root)
  {
    hide Injective, Hang;
    OneStep(nodes, path, bit);
    Apart(nodes, path);
    child := new Node();
    NewNode(nodes, root, path + [bit], child);
    HangsOn(nodes, path + [bit], child);
    if bit {
      node.right := child;
    } else {
      node.left := child;
    }
  }

  /** A path no code word passes through has no symbol. */
  lemma {:induction false} NoSymbol(table: seq<Code>, n: nat, q: Path)
    requires n <= |table| && q !in AllPrefixes(table, n)
    ensures SymbolAt(table, n, q) == 0
  {
    hide Spell;
    if n > 0 {
      NoSymbol(table, n - 1, q);
    }
  }

  /** One step down, making the child first where it is missing. */
  method Descend(node: Node, bit: bool, ghost nodes: map<Path, Node>, ghost root: Node, ghost path: Path)
    returns (next: Node, made: bool, ghost nodes': map<Path, Node>)
    requires IsTree(nodes, root) && path in nodes && nodes[path] == node
    modifies node`left, node`right
    ensures nodes' == nodes[path + [bit] := next]
    ensures made == (path + [bit] !in nodes)
    ensures if made then fresh(next) && next.symbol == 0 else next == nodes[path + [bit]]
    ensures IsTree(nodes', root)
  {
    var child := if bit then node.right else node.left;
    assert child == Lookup(nodes, path + [bit]);
    made := child == null;
    if made {
      next := AddChild(node, bit, nodes, root, path);
    } else {
      next := child;
      assert nodes[path + [bit] := next] == nodes;
    }
    nodes' := nodes[path + [bit] := next];
  }

  /** While a code word is being added: the tree has the prefixes of the words before it, and the path so far. */
  ghost predicate Growing(nodes: map<Path, Node>, root: Node, table: seq<Code>, i: nat, path: Path)
    requires i < |table|
    reads nodes.Values
  {
    && IsTree(nodes, root)
    && nodes.Keys == AllPrefixes(table, i) + Prefixes(path)
    && forall q | q in nodes :: nodes[q].symbol == SymbolAt(table, i, q)
  }

  /** One turn of the inner loop of `build_huffman_tree`. */
  method Grow(node: Node, bit: bool, count: nat, ghost nodes: map<Path, Node>, ghost root: Node,
              ghost table: seq<Code>, ghost i: nat, ghost path: Path)
    returns (next: Node, count': nat, ghost nodes': map<Path, Node>)
    requires i < |table| && Growing(nodes, root, table, i, path) && nodes[path] == node
    requires count == |nodes|
    modifies node`left, node`right
    ensures Growing(nodes', root, table, i, path + [bit])
    ensures path + [bit] in nodes' && nodes'[path + [bit]] == next
    ensures count' == |nodes'|
    ensures nodes.Values <= nodes'.Values && fresh(nodes'.Values - nodes.Values)
  {
    hide SymbolAt, AllPrefixes, Prefixes, IsTree, Spell;
    var made;
    next, made, nodes' := Descend(node, bit, nodes, root, path);
    if made {
      NoSymbol(table, i, path + [bit]);
    }
    PrefixesGrow(path, bit);
    count' := if made then count + 1 else count;
    assert nodes'.Keys == nodes.Keys + {path + [bit]};
  }

  lemma PrefixesGrow(path: Path, bit: bool)
    ensures Prefixes(path + [bit]) == Prefixes(path) + {path + [bit]}
  {
    forall q ensures q in Prefixes(path + [bit]) <==> q in Prefixes(path) + {path + [bit]} {
      if |q| <= |path| {
        assert (path + [bit])[..|q|] == path[..|q|];
        assert q <= path <==> q == path[..|q|];
        assert q <= path + [bit] <==> q == (path + [bit])[..|q|];
      } else if q <= path + [bit] {
        assert q == path + [bit];
      }
    }
  }

  /** What has been spelled while bits `j` and below are still to come. */
  function Spelled(c: Code, j: int): Path
    requires -1 <= j < c.length
  {
    Spell(c)[..c.length - 1 - j]
  }

  lemma SpellStep(c: Code)
    ensures Spelled(c, c.length - 1) == [] && Spelled(c, -1) == Spell(c)
    ensures forall j :: 0 <= j < c.length ==> Spelled(c, j) + [Bit(c.bits, j)] == Spelled(c, j - 1)
  {
    hide Bit;
  }

  /** The inner loop of `build_huffman_tree`. */
  method AddWord(root: Node, count: nat, table: seq<Code>, i: nat, ghost nodes: map<Path, Node>)
    returns (node: Node, count': nat, ghost nodes': map<Path, Node>)
    requires i < |table| && IsTreeOf(nodes, root, table, i) && count == |nodes|
    modifies nodes.Values
    ensures Growing(nodes', root, table, i, Spell(table[i])) && nodes'[Spell(table[i])] == node
    ensures count' == |nodes'|
    ensures nodes.Values <= nodes'.Values && fresh(nodes'.Values - nodes.Values)
  {
    hide IsTreeOf, Growing, Spell, Spelled, Bit;
    var c, j := table[i], table[i].length - 1;
    SpellStep(c);
    node, count', nodes' := root, count, nodes;
    EmptyPath(nodes, root, table, i);
    while j >= 0
      invariant -1 <= j < c.length
      invariant Growing(nodes', root, table, i, Spelled(c, j))
      invariant Spelled(c, j) in nodes' && nodes'[Spelled(c, j)] == node
      invariant count' == |nodes'|
      invariant nodes.Values <= nodes'.Values && fresh(nodes'.Values - nodes.Values)
    {
      ghost var was := nodes';
      node, count', nodes' := Grow(node, Bit(c.bits, j), count', nodes', root, table, i, Spelled(c, j));
      j := j - 1;
      assert nodes'.Values - nodes.Values <= (nodes'.Values - was.Values) + (was.Values - nodes.Values);
    }
  }

  lemma EmptyPath(nodes: map<Path, Node>, root: Node, table: seq<Code>, i: nat)
    requires i < |table| && IsTreeOf(nodes, root, table, i)
    ensures Growing(nodes, root, table, i, []) && [] in nodes && nodes[[]] == root
  {
    hide IsTree, SymbolAt, AllPrefixes;
    assert Prefixes([]) == {[]};
    assert [] in nodes && nodes[[]] == root by { RootIs(nodes, root); }
  }

  lemma RootIs(nodes: map<Path, Node>, root: Node)
    requires IsTree(nodes, root)
    ensures [] in nodes && nodes[[]] == root
  {}

  /** `node->symbol = i` at the end of code word `i`. */
  method Mark(node: Node, table: seq<Code>, i: nat, ghost nodes: map<Path, Node>, ghost root: Node)
    requires i < |table| && Growing(nodes, root, table, i, Spell(table[i])) && nodes[Spell(table[i])] == node
    modifies node`symbol
    ensures IsTreeOf(nodes, root, table, i + 1)
  {
    hide Spell, Prefixes;
    Apart(nodes, Spell(table[i]));
    node.symbol := i;
  }

  /** Build the tree, counting the nodes that were allocated. */
  method Build(table: seq<Code>) returns (root: Node, count: nat, ghost nodes: map<Path, Node>)
    requires |table| == 256
    ensures IsTreeOf(nodes, root, table, 256) && count == |AllPrefixes(table, 256)|
    ensures fresh(nodes.Values)
  {
    hide IsTreeOf, AllPrefixes;
    root := new Node();
    count, nodes := 1, map[[] := root];
    OneNode(root, table);
    var i := 0;
    while i < 256
      invariant 0 <= i <= 256
      invariant IsTreeOf(nodes, root, table, i) && count == |nodes| && fresh(nodes.Values)
    {
      var node;
      ghost var was := nodes;
      node, count, nodes := AddWord(root, count, table, i, nodes);
      assert nodes.Values <= was.Values + (nodes.Values - was.Values);
      Mark(node, table, i, nodes, root);
      i := i + 1;
    }
    NodePerPrefix(nodes, root, table);
  }

  lemma OneNode(root: Node, table: seq<Code>)
    requires root.symbol == 0 && root.left == null && root.right == null
    ensures IsTreeOf(map[[] := root], root, table, 0)
  {}

  lemma NodePerPrefix(nodes: map<Path, Node>, root: Node, table: seq<Code>)
    requires IsTreeOf(nodes, root, table, |table|)
    ensures |nodes| == |AllPrefixes(table, |table|)|
  {
    assert |nodes| == |nodes.Keys|;
  }

  /**
   * Walking the tree: a path exists exactly where it starts a code word, and the path spelled by each
   * code word ends at that word's symbol.
   */
  lemma WalksMeetTable(nodes: map<Path, Node>, root: Node, table: seq<Code>, path: Path, i: nat)
    requires IsTreeOf(nodes, root, table, |table|) && i < |table|
    ensures Follow(root, path, nodes.Values) != null
        <==> path == [] || exists k :: 0 <= k < |table| && path <= Spell(table[k])
    ensures Distinct(table)
        ==> && Follow(root, Spell(table[i]), nodes.Values) != null
            && Follow(root, Spell(table[i]), nodes.Values).symbol == i
  {
    hide Spell, Prefixes;
    FollowIsLookup(nodes, root, [], path);
    FollowIsLookup(nodes, root, [], Spell(table[i]));
    assert [] + path == path && [] + Spell(table[i]) == Spell(table[i]);
    if Distinct(table) {
      EachItsSymbol(table, |table|, i);
    }
  }

  // ---------- a code word and its number ----------

  lemma Quotient(b: nat, d: nat, q: nat, r: nat)
    requires r < d && b == q * d + r
    ensures b / d == q
  {
    var k := b / d - q;
    assert k * d == r - b % d;
    assert k > 0 ==> k * d >= d;
    assert k < 0 ==> k * d + d <= 0;
  }

  lemma HigherBit(b: nat, j: nat)
    ensures Bit(b, j + 1) == Bit(b / 2, j)
  {
    var d := Pow2(j);
    var q, r := b / 2 / d, b / 2 % d;
    assert b / 2 == q * d + r;
    assert b == q * (2 * d) + (2 * r + b % 2);
    Quotient(b, 2 * d, q, 2 * r + b % 2);
  }

  lemma UpperBits(c: Code)
    requires c.length > 0
    ensures Parent(Spell(c)) == Spell(Code(c.bits / 2, c.length - 1))
  {
    hide Bit;
    var d := Code(c.bits / 2, c.length - 1);
    forall k | 0 <= k < d.length ensures Spell(c)[k] == Spell(d)[k] {
      HigherBit(c.bits, d.length - 1 - k);
    }
  }

  /** Reading back the path a code word spells gives its number, where the number fits the length. */
  lemma {:induction false} NumberOfSpell(c: Code)
    requires c.bits < Pow2(c.length)
    ensures Number(Spell(c)) == c.bits
    decreases c.length
  {
    if c.length > 0 {
      UpperBits(c);
      NumberOfSpell(Code(c.bits / 2, c.length - 1));
      assert Spell(c)[c.length - 1] == Bit(c.bits, 0);
      assert c.bits / Pow2(0) == c.bits;
    }
  }

  /** Code words that differ in length or in number spell different paths. */
  lemma SpellInjective(c: Code, d: Code)
    requires c.bits < Pow2(c.length) && d.bits < Pow2(d.length)
    ensures Spell(c) == Spell(d) <==> c == d
  {
    hide Spell, Number;
    NumberOfSpell(c);
    NumberOfSpell(d);
  }

  // ---------- freeing ----------

  /** The paths at and below a path. */
  ghost function Below(nodes: map<Path, Node>, path: Path): (r: set<Path>)
    ensures forall q :: q in r <==> q in nodes && path <= q
  {
    set q | q in nodes && path <= q
  }

  /** What a list of frees released: each node of `paths` once. */
  ghost predicate Released(freed: seq<Node>, nodes: map<Path, Node>, paths: set<Path>) {
    && |freed| == |paths|
    && (forall k | 0 <= k < |freed| :: exists q :: q in paths && q in nodes && nodes[q] == freed[k])
    && (forall q | q in paths :: q in nodes && nodes[q] in freed)
    && forall i, j | 0 <= i < j < |freed| :: freed[i] != freed[j]
  }

  lemma ReleasedTogether(a: seq<Node>, b: seq<Node>, nodes: map<Path, Node>, p: set<Path>, q: set<Path>)
    requires Injective(nodes) && Released(a, nodes, p) && Released(b, nodes, q) && p !! q
    ensures Released(a + b, nodes, p + q)
  {
  }

  lemma NextBit(path: Path, q: Path, b: bool)
    ensures path + [b] <= q <==> path <= q && |q| > |path| && q[|path|] == b
    ensures path <= q && |q| <= |path| ==> q == path
  {
    var p := path + [b];
    assert p <= q <==> |p| <= |q| && p == q[..|p|];
    assert path <= q <==> |path| <= |q| && path == q[..|path|];
  }

  lemma BelowIs(nodes: map<Path, Node>, path: Path)
    requires Hang(nodes) && path in nodes
    ensures Below(nodes, path) == Below(nodes, path + [false]) + Below(nodes, path + [true]) + {path}
    ensures Below(nodes, path + [false]) !! Below(nodes, path + [true])
    ensures path !in Below(nodes, path + [false]) + Below(nodes, path + [true])
  {
    forall q | q in nodes
      ensures path <= q <==> path + [false] <= q || path + [true] <= q || q == path
      ensures !(path + [false] <= q && path + [true] <= q)
    {
      NextBit(path, q, false);
      NextBit(path, q, true);
    }
  }

  lemma BelowNothing(nodes: map<Path, Node>, path: Path)
    requires Hang(nodes) && path !in nodes
    ensures Below(nodes, path) == {}
    ensures Released([], nodes, Below(nodes, path))
  {
    forall q | path <= q ensures q !in nodes {
      assert q[..|path|] == path;
      Ancestors(nodes, q, |path|);
    }
  }

  lemma ReleasedOne(nodes: map<Path, Node>, path: Path)
    requires path in nodes
    ensures Released([nodes[path]], nodes, {path})
  {}

  datatype FreeCode = Ok | Error

  /** `wrd_free_huffman_tree`: its result, and the nodes it gives to `free` in their order. */
  method Free(node: Node?, ghost nodes: map<Path, Node>, ghost root: Node, ghost path: Path)
    returns (code: FreeCode, freed: seq<Node>)
    requires IsTree(nodes, root) && node == Lookup(nodes, path)
    ensures code == if path in nodes then Ok else Error
    ensures Released(freed, nodes, Below(nodes, path))
    ensures node != null ==> freed != [] && freed[|freed| - 1] == node
    decreases Below(nodes, path), 0
  {
    hide Released, Below, Hang;
    if node == null {
      BelowNothing(nodes, path);
      return Error, [];
    }
    BelowIs(nodes, path);
    var first := FreeChild(node.left, nodes, root, path + [false]);
    var second := FreeChild(node.right, nodes, root, path + [true]);
    ghost var below := Below(nodes, path + [false]) + Below(nodes, path + [true]);
    ReleasedTogether(first, second, nodes, Below(nodes, path + [false]), Below(nodes, path + [true]));
    ReleasedOne(nodes, path);
    freed := first + second;
    var n: Node := node;
    var last := [n];
    ReleasedTogether(freed, last, nodes, below, {path});
    return Ok, freed + last;
  }

  method FreeChild(child: Node?, ghost nodes: map<Path, Node>, ghost root: Node, ghost path: Path)
    returns (freed: seq<Node>)
    requires IsTree(nodes, root) && child == Lookup(nodes, path)
    ensures Released(freed, nodes, Below(nodes, path))
    decreases Below(nodes, path), 1
  {
    freed := [];
    if child != null {
      var code;
      code, freed := Free(child, nodes, root, path);
    } else {
      BelowNothing(nodes, path);
    }
  }

  /** Freeing from the root releases as many nodes as were allocated, every one of them, none twice. */
  lemma NothingLeft(nodes: map<Path, Node>, root: Node, table: seq<Code>, freed: seq<Node>)
    requires IsTreeOf(nodes, root, table, |table|) && Released(freed, nodes, Below(nodes, []))
    ensures |freed| == |AllPrefixes(table, |table|)|
    ensures forall q | q in nodes :: nodes[q] in freed
    ensures forall i, j | 0 <= i < j < |freed| :: freed[i] != freed[j]
  {
    hide AllPrefixes, Injective, Linked, SymbolAt;
    assert Below(nodes, []) == nodes.Keys;
  }
}
