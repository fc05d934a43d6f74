/** The parsed syntax tree the scanner walks: a closed variant of the ESTree
    node kinds the usage idioms mention, with every other node kind folded
    into `Other`, which keeps only its children. */
module Syntax {
  import opened Wrappers

  datatype Node =
    | Identifier(name: string)
    | Literal(value: string)
    | Member(obj: Node, property: Node, computed: bool)
    | VarDeclarator(id: Node, init: Option<Node>)
    | Assign(left: Node, right: Node)
    | ObjectPattern(properties: seq<Node>)
    | Property(key: Node, target: Node)  // ESTree `value`: the local binding in a pattern
    | RestElement(argument: Node)
    | Other(children: seq<Node>)

  /** The `name` field of a node: only identifiers carry one, so `n.name`
      reads as undefined on every other kind. */
  function NameOf(n: Node): (r: Option<string>)
    ensures r.Some? <==> n.Identifier?
    ensures r.Some? ==> r.value == n.name
  {
    if n.Identifier? then Some(n.name) else None
  }

  /** Number of nodes in a tree; the measure every traversal decreases. */
  function Size(n: Node): (s: nat)
    ensures s >= 1
  {
    match n
    case Identifier(_) => 1
    case Literal(_) => 1
    case Member(o, p, _) => 1 + Size(o) + Size(p)
    case VarDeclarator(id, init) => 1 + Size(id) + (if init.Some? then Size(init.value) else 0)
    case Assign(l, r) => 1 + Size(l) + Size(r)
    case ObjectPattern(props) => 1 + SizeAll(props)
    case Property(k, v) => 1 + Size(k) + Size(v)
    case RestElement(a) => 1 + Size(a)
    case Other(cs) => 1 + SizeAll(cs)
  }

  function SizeAll(ns: seq<Node>): (s: nat)
    ensures s >= |ns|
    ensures forall i :: 0 <= i < |ns| ==> Size(ns[i]) <= s
  {
    if ns == [] then 0 else Size(ns[0]) + SizeAll(ns[1..])
  }

  lemma {:induction false} SizeAllAppend(a: seq<Node>, b: seq<Node>)
    ensures SizeAll(a + b) == SizeAll(a) + SizeAll(b)
  {
    if a == [] {
      assert a + b == b;
    } else {
      assert (a + b)[1..] == a[1..] + b;
      SizeAllAppend(a[1..], b);
    }
  }

  lemma SizeAllPair(a: Node, b: Node)
    ensures SizeAll([a, b]) == Size(a) + Size(b)
  {
    assert [a, b][1..] == [b];
    assert [b][1..] == [];
    assert SizeAll([b]) == Size(b) + SizeAll([]);
  }

  /** The child nodes the walker descends into, in source order: the object
      before the property, the binding before the initializer, the left side
      before the right, the key before the value. */
  function Children(n: Node): (cs: seq<Node>)
    ensures Size(n) == 1 + SizeAll(cs)
    ensures forall i :: 0 <= i < |cs| ==> Size(cs[i]) < Size(n)
  {
    match n
    case Identifier(_) => []
    case Literal(_) => []
    case Member(o, p, _) => SizeAllPair(o, p); [o, p]
    case VarDeclarator(id, init) => if init.Some? then SizeAllPair(id, init.value); [id, init.value] else [id]
    case Assign(l, r) => SizeAllPair(l, r); [l, r]
    case ObjectPattern(props) => props
    case Property(k, v) => SizeAllPair(k, v); [k, v]
    case RestElement(a) => [a]
    case Other(children) => children
  }

  /** `m` is a node of the tree rooted at `n`: `n` itself or a node of one of
      its children, at any depth. */
  ghost predicate InTree(m: Node, n: Node)
    decreases Size(n)
  {
    m == n || exists i :: 0 <= i < |Children(n)| && InTree(m, Children(n)[i])
  }
}
