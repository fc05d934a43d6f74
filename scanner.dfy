/** The `process.env` usage scanner: a depth-first walk over the parsed tree
    that tests every node against the three access idioms and collects the
    key names they mention into an insertion-ordered set. */
module Scanner {
  import opened Wrappers
  import opened Syntax
  import opened KeySet

  /** The member access `process.env`, written with a dot or, when
      `computed`, as `process[env]`. */
  function EnvObject(computed: bool): Node {
    Member(Identifier("process"), Identifier("env"), computed)
  }

  /** A node that reads `process.env`. Only the `name` fields of the object
      and the property are looked at, so `process[env]` passes too. */
  predicate IsProcessEnv(n: Node): (b: bool)
    ensures b <==> n.Member? && n == EnvObject(n.computed)
  {
    n.Member? && NameOf(n.obj) == Some("process") && NameOf(n.property) == Some("env")
  }

  /** Idiom 1: `process.env.NAME`, `process.env['NAME']`, `process.env[K]`. */
  predicate IsEnvMember(n: Node): (b: bool)
    ensures b <==> n.Member? && n.obj.Member? && n.obj == EnvObject(n.obj.computed)
    ensures b ==> !IsProcessEnv(n)
  {
    n.Member? && IsProcessEnv(n.obj)
  }

  /** Idiom 2: `const { A, B } = process.env`. */
  predicate IsEnvDeclarator(n: Node): (b: bool)
    ensures b <==> (n.VarDeclarator? && n.id.ObjectPattern? && n.init.Some?
                    && n.init.value.Member? && n.init.value == EnvObject(n.init.value.computed))
  {
    n.VarDeclarator? && n.id.ObjectPattern? && n.init.Some? && IsProcessEnv(n.init.value)
  }

  /** Idiom 3: `({ A, B } = process.env)`. */
  predicate IsEnvAssign(n: Node): (b: bool)
    ensures b <==> (n.Assign? && n.left.ObjectPattern?
                    && n.right.Member? && n.right == EnvObject(n.right.computed))
  {
    n.Assign? && n.left.ObjectPattern? && IsProcessEnv(n.right)
  }

  /** The key an idiom-1 member access names: an identifier's name (whether
      written after a dot or inside brackets) or a literal's value. */
  function MemberKey(property: Node): (keys: seq<string>)
    ensures |keys| <= 1
    ensures keys != [] <==> property.Identifier? || property.Literal?
  {
    match property
    case Identifier(x) => [x]
    case Literal(v) => [v]
    case _ => []
  }

  /** The key of one destructuring entry: the source-side name of a
      `Property` whose key is an identifier; nothing for a rest element or
      a non-identifier key. */
  function PatternKey(prop: Node): (keys: seq<string>)
    ensures |keys| <= 1
    ensures forall k :: k in keys <==> IsKeyedEntry(prop, k)
  {
    if prop.Property? && prop.key.Identifier? then [prop.key.name] else []
  }

  /** `prop` is a destructuring entry whose source-side key is the identifier `k`. */
  predicate IsKeyedEntry(prop: Node, k: string) {
    prop.Property? && prop.key.Identifier? && prop.key.name == k
  }

  /** The keys of a destructuring pattern's entries, in order. */
  function PatternKeys(props: seq<Node>): (keys: seq<string>)
    ensures forall k :: k in keys <==>
      exists i :: 0 <= i < |props| && IsKeyedEntry(props[i], k)
  {
    if props == [] then []
    else
      var keys := PatternKey(props[0]) + PatternKeys(props[1..]);
      assert forall k :: k in keys ==>
        exists i :: 0 <= i < |props| && IsKeyedEntry(props[i], k) by {
        forall k | k in keys
          ensures exists i :: 0 <= i < |props| && IsKeyedEntry(props[i], k)
        {
          if k !in PatternKey(props[0]) {
            var i :| 0 <= i < |props[1..]| && IsKeyedEntry(props[1..][i], k);
            assert props[i + 1] == props[1..][i];
          }
        }
      }
      assert forall i, k :: 0 <= i < |props| && IsKeyedEntry(props[i], k) ==> k in keys by {
        forall i, k | 0 <= i < |props| && IsKeyedEntry(props[i], k)
          ensures k in keys
        {
          if i > 0 {
            assert props[1..][i - 1] == props[i];
          }
        }
      }
      keys
  }

  lemma {:induction false} PatternKeysAppend(a: seq<Node>, b: seq<Node>)
    ensures PatternKeys(a + b) == PatternKeys(a) + PatternKeys(b)
    decreases a
  {
    if a == [] {
      assert a + b == b;
    } else {
      assert (a + b)[0] == a[0];
      assert (a + b)[1..] == a[1..] + b;
      PatternKeysAppend(a[1..], b);
    }
  }

  /** A rest element at the end of a pattern (`const { A, ...rest } =
      process.env`) adds no key. */
  lemma RestElementAddsNothing(props: seq<Node>, argument: Node)
    ensures PatternKeys(props + [RestElement(argument)]) == PatternKeys(props)
  {
    PatternKeysAppend(props, [RestElement(argument)]);
    assert [RestElement(argument)][1..] == [];
  }

  /** The keys the walker's `enter` callback adds for one node, in the order
      it adds them. The three idiom tests are on different node kinds, so at
      most one of them applies. */
  function Contrib(n: Node): (keys: seq<string>)
    ensures keys != [] ==> IsEnvMember(n) || IsEnvDeclarator(n) || IsEnvAssign(n)
    ensures IsProcessEnv(n) ==> keys == []
  {
    if IsEnvMember(n) then MemberKey(n.property)
    else if IsEnvDeclarator(n) then PatternKeys(n.id.properties)
    else if IsEnvAssign(n) then PatternKeys(n.left.properties)
    else []
  }

  /** Every key added while walking the tree rooted at `n`, in the order of a
      pre-order walk: a node first, then its children left to right. */
  function Walk(n: Node): (keys: seq<string>)
    ensures |Contrib(n)| <= |keys| && keys[..|Contrib(n)|] == Contrib(n)
    decreases Size(n), 0
  {
    Contrib(n) + WalkAll(Children(n))
  }

  function WalkAll(ns: seq<Node>): (keys: seq<string>)
    decreases SizeAll(ns), 1
  {
    if ns == [] then [] else Walk(ns[0]) + WalkAll(ns[1..])
  }

  lemma {:induction false} WalkAllAppend(a: seq<Node>, b: seq<Node>)
    ensures WalkAll(a + b) == WalkAll(a) + WalkAll(b)
    decreases a
  {
    if a == [] {
      assert a + b == b;
    } else {
      assert (a + b)[0] == a[0];
      assert (a + b)[1..] == a[1..] + b;
      WalkAllAppend(a[1..], b);
    }
  }

  lemma {:induction false} WalkAllMembership(ns: seq<Node>, k: string)
    ensures k in WalkAll(ns) <==> exists i :: 0 <= i < |ns| && k in Walk(ns[i])
    decreases ns
  {
    if ns != [] {
      WalkAllMembership(ns[1..], k);
      if k in WalkAll(ns[1..]) {
        var i :| 0 <= i < |ns[1..]| && k in Walk(ns[1..][i]);
        assert ns[i + 1] == ns[1..][i];
      }
      if exists i :: 0 <= i < |ns| && k in Walk(ns[i]) {
        var i :| 0 <= i < |ns| && k in Walk(ns[i]);
        if i > 0 {
          assert ns[1..][i - 1] == ns[i];
        }
      }
    }
  }

  /** The walk never stops early: a key that any node of the tree
      contributes, at any depth, is added. */
  lemma {:induction false} WalkComplete(m: Node, n: Node, k: string)
    requires InTree(m, n) && k in Contrib(m)
    ensures k in Walk(n)
    decreases Size(n)
  {
    if m != n {
      var i :| 0 <= i < |Children(n)| && InTree(m, Children(n)[i]);
      WalkComplete(m, Children(n)[i], k);
      WalkAllMembership(Children(n), k);
    }
  }

  /** Nothing but the idioms adds a key: every key added comes from the
      contribution of some node of the tree. */
  lemma {:induction false} WalkSound(n: Node, k: string)
    requires k in Walk(n)
    ensures exists m :: InTree(m, n) && k in Contrib(m)
    decreases Size(n)
  {
    if k in Contrib(n) {
      assert InTree(n, n);
    } else {
      WalkAllMembership(Children(n), k);
      var i :| 0 <= i < |Children(n)| && k in Walk(Children(n)[i]);
      WalkSound(Children(n)[i], k);
      var m :| InTree(m, Children(n)[i]) && k in Contrib(m);
      assert InTree(m, n);
    }
  }

  /** What `scanFileForEnvs` returns for a parse outcome: nothing when the
      parse failed, otherwise the keys in the order they were first added. */
  function ScanResult(parsed: Option<Node>): (keys: seq<string>)
    ensures NoDuplicates(keys)
    ensures parsed.None? ==> keys == []
  {
    match parsed
    case None => []
    case Some(root) => AddAll([], Walk(root))
  }

  /** The result is exactly the union of the per-node contributions over
      every node of the tree. */
  lemma ScanIsUnionOfContributions(root: Node, k: string)
    ensures k in ScanResult(Some(root)) <==> exists m :: InTree(m, root) && k in Contrib(m)
  {
    AddAllMembership([], Walk(root), k);
    if k in ScanResult(Some(root)) {
      WalkSound(root, k);
    }
    if exists m :: InTree(m, root) && k in Contrib(m) {
      var m :| InTree(m, root) && k in Contrib(m);
      WalkComplete(m, root, k);
    }
  }

  /** `process.env.NAME`, and `process.env[NAME]` with a bare identifier,
      anywhere in the tree put NAME in the result. */
  lemma DottedKeyFound(root: Node, obj: Node, name: string, computed: bool)
    requires IsProcessEnv(obj)
    requires InTree(Member(obj, Identifier(name), computed), root)
    ensures name in ScanResult(Some(root))
  {
    WalkComplete(Member(obj, Identifier(name), computed), root, name);
    AddAllMembership([], Walk(root), name);
  }

  /** `process.env['NAME']` anywhere in the tree puts NAME in the result, as
      the dotted form does. */
  lemma BracketKeyFound(root: Node, obj: Node, name: string, computed: bool)
    requires IsProcessEnv(obj)
    requires InTree(Member(obj, Literal(name), computed), root)
    ensures name in ScanResult(Some(root))
  {
    WalkComplete(Member(obj, Literal(name), computed), root, name);
    AddAllMembership([], Walk(root), name);
  }

  /** `const { ..., K: alias, ... } = process.env` anywhere in the tree puts
      the source-side name K in the result. */
  lemma DeclaredKeyFound(root: Node, props: seq<Node>, init: Node, k: string, alias: Node)
    requires IsProcessEnv(init)
    requires Property(Identifier(k), alias) in props
    requires InTree(VarDeclarator(ObjectPattern(props), Some(init)), root)
    ensures k in ScanResult(Some(root))
  {
    var i :| 0 <= i < |props| && props[i] == Property(Identifier(k), alias);
    WalkComplete(VarDeclarator(ObjectPattern(props), Some(init)), root, k);
    AddAllMembership([], Walk(root), k);
  }

  /** `({ ..., K: alias, ... } = process.env)` anywhere in the tree puts the
      source-side name K in the result. */
  lemma AssignedKeyFound(root: Node, props: seq<Node>, right: Node, k: string, alias: Node)
    requires IsProcessEnv(right)
    requires Property(Identifier(k), alias) in props
    requires InTree(Assign(ObjectPattern(props), right), root)
    ensures k in ScanResult(Some(root))
  {
    var i :| 0 <= i < |props| && props[i] == Property(Identifier(k), alias);
    WalkComplete(Assign(ObjectPattern(props), right), root, k);
    AddAllMembership([], Walk(root), k);
  }

  lemma PatternKeysSnoc(props: seq<Node>, i: nat)
    requires i < |props|
    ensures PatternKeys(props[..i + 1]) == PatternKeys(props[..i]) + PatternKey(props[i])
  {
    assert props[..i + 1] == props[..i] + [props[i]];
    PatternKeysAppend(props[..i], [props[i]]);
    assert [props[i]][1..] == [];
  }

  lemma AddPatternKey(found: seq<string>, keys: seq<string>, prop: Node)
    ensures AddAll(found, keys + PatternKey(prop)) ==
      (var s := AddAll(found, keys);
       if prop.Property? && prop.key.Identifier? then Insert(s, prop.key.name) else s)
  {
    AddAllAppend(found, keys, PatternKey(prop));
  }

  /** The `forEach` over a pattern's entries: adds the key of every
      `Property` with an identifier key. */
  method AddPatternKeys(found: seq<string>, props: seq<Node>) returns (found': seq<string>)
    ensures found' == AddAll(found, PatternKeys(props))
  {
    found' := found;
    for i := 0 to |props|
      invariant found' == AddAll(found, PatternKeys(props[..i]))
    {
      PatternKeysSnoc(props, i);
      AddPatternKey(found, PatternKeys(props[..i]), props[i]);
      var prop := props[i];
      if prop.Property? && prop.key.Identifier? {
        found' := Insert(found', prop.key.name);
      }
    }
    assert props[..|props|] == props;
  }

  /** The walker's `enter` callback on one node: the three idiom tests and
      the keys each adds. */
  method Enter(found: seq<string>, n: Node) returns (found': seq<string>)
    ensures found' == AddAll(found, Contrib(n))
  {
    found' := found;
    if IsEnvMember(n) {
      match n.property {
        case Identifier(x) =>
          found' := Insert(found', x);
        case Literal(v) =>
          found' := Insert(found', v);
        case _ =>
      }
    }
    if IsEnvDeclarator(n) {
      found' := AddPatternKeys(found', n.id.properties);
    }
    if IsEnvAssign(n) {
      found' := AddPatternKeys(found', n.left.properties);
    }
  }

  lemma WalkAllSingleton(n: Node)
    ensures WalkAll([n]) == Walk(n)
  {
    assert [n][1..] == [];
  }

  /** One step of the work list: the front node is entered and replaced by
      its children, which leaves the keys still to be added unchanged and
      the amount of work strictly smaller. */
  lemma WalkStep(added: seq<string>, pending: seq<Node>)
    requires pending != []
    ensures added + WalkAll(pending) ==
      (added + Contrib(pending[0])) + WalkAll(Children(pending[0]) + pending[1..])
    ensures SizeAll(Children(pending[0]) + pending[1..]) < SizeAll(pending)
  {
    var n, rest := pending[0], pending[1..];
    WalkAllAppend(Children(n), rest);
    SizeAllAppend(Children(n), rest);
    Regroup(added, Contrib(n), WalkAll(Children(n)), WalkAll(rest));
  }

  lemma Regroup(a: seq<string>, b: seq<string>, c: seq<string>, d: seq<string>)
    ensures a + ((b + c) + d) == (a + b) + (c + d)
  {
  }

  /** `scanFileForEnvs` after the file has been read and handed to the
      parser: a failed parse yields no keys; otherwise every node is
      visited in pre-order from a work list of pending nodes. */
  method ScanFileForEnvs(parsed: Option<Node>) returns (keys: seq<string>)
    ensures keys == ScanResult(parsed)
  {
    keys := [];
    if parsed.Some? {
      var root := parsed.value;
      var pending := [root];
      ghost var added: seq<string> := [];
      WalkAllSingleton(root);
      while pending != []
        invariant added + WalkAll(pending) == Walk(root)
        invariant keys == AddAll([], added)
        decreases SizeAll(pending)
      {
        var n := pending[0];
        var rest := pending[1..];
        keys := Enter(keys, n);
        AddAllAppend([], added, Contrib(n));
        WalkStep(added, pending);
        added := added + Contrib(n);
        pending := Children(n) + rest;
      }
      assert added == Walk(root) by {
        assert WalkAll(pending) == [];
        assert added + [] == added;
      }
    }
  }
}
