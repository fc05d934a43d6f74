/** Concrete trees for the scanner: the cases of tests/scanner.test.ts, a
    file mixing all three idioms, and the boundary behaviours that follow
    from testing only `name` fields. Trees are written as the ESTree parser
    shapes them, with kinds the scanner does not inspect (Program,
    ExpressionStatement, CallExpression, VariableDeclaration) as `Other`. */
module ScannerExamples {
  import opened Wrappers
  import opened Syntax
  import opened KeySet
  import opened Scanner

  /** `process.env` */
  const ProcessEnv: Node := Member(Identifier("process"), Identifier("env"), false)

  /** `console.log(arg)` as a statement of its own. */
  function LogStatement(arg: Node): (stmt: Node) {
    Other([Other([Member(Identifier("console"), Identifier("log"), false), arg])])
  }

  /** `{ key }`: a shorthand destructuring entry. */
  function Shorthand(key: string): (prop: Node) {
    Property(Identifier(key), Identifier(key))
  }

  // Small facts about walking the shapes above, so that each example below
  // is computed one subtree at a time.

  lemma WalkOther(cs: seq<Node>)
    ensures Walk(Other(cs)) == WalkAll(cs)
  {
  }

  lemma WalkAllPair(a: Node, b: Node)
    ensures WalkAll([a, b]) == Walk(a) + Walk(b)
  {
    assert [a, b][1..] == [b];
    WalkAllSingleton(b);
  }

  lemma WalkPlainMember(x: string, y: string, c: bool)
    ensures Walk(Member(Identifier(x), Identifier(y), c)) == []
  {
    WalkAllPair(Identifier(x), Identifier(y));
  }

  lemma WalkEnvMember(p: Node, c: bool)
    requires p.Identifier? || p.Literal?
    ensures Walk(Member(ProcessEnv, p, c)) == MemberKey(p)
  {
    var m := Member(ProcessEnv, p, c);
    assert Contrib(m) == MemberKey(p) by {
      assert IsEnvMember(m);
    }
    assert WalkAll(Children(m)) == [] by {
      assert Children(m) == [ProcessEnv, p];
      assert Walk(p) == [];
      WalkAllPair(ProcessEnv, p);
      WalkPlainMember("process", "env", false);
    }
  }

  lemma WalkLog(arg: Node)
    ensures Walk(LogStatement(arg)) == Walk(arg)
  {
    var call := [Member(Identifier("console"), Identifier("log"), false), arg];
    WalkOther([Other(call)]);
    WalkAllSingleton(Other(call));
    WalkOther(call);
    WalkAllPair(call[0], arg);
    WalkPlainMember("console", "log", false);
  }

  lemma WalkStatement(n: Node)
    ensures Walk(Other([n])) == Walk(n)
  {
    WalkOther([n]);
    WalkAllSingleton(n);
  }

  lemma WalkPlainDeclarator(x: string)
    ensures Walk(VarDeclarator(Identifier(x), Some(ProcessEnv))) == []
  {
    var d := VarDeclarator(Identifier(x), Some(ProcessEnv));
    assert Contrib(d) == [];
    assert Children(d) == [Identifier(x), ProcessEnv];
    WalkAllPair(Identifier(x), ProcessEnv);
    WalkPlainMember("process", "env", false);
  }

  lemma WalkEntry(key: string, target: string)
    ensures Walk(Property(Identifier(key), Identifier(target))) == []
  {
    WalkAllPair(Identifier(key), Identifier(target));
  }

  lemma PatternKeysSingleton(p: Node)
    ensures PatternKeys([p]) == PatternKey(p)
  {
    assert [p][1..] == [];
  }

  lemma PatternKeysPair(p: Node, q: Node)
    ensures PatternKeys([p, q]) == PatternKey(p) + PatternKey(q)
  {
    assert [p, q][1..] == [q];
    PatternKeysSingleton(q);
  }

  lemma WalkEnvDeclarator(props: seq<Node>)
    requires WalkAll(props) == []
    ensures Walk(VarDeclarator(ObjectPattern(props), Some(ProcessEnv))) == PatternKeys(props)
  {
    var d := VarDeclarator(ObjectPattern(props), Some(ProcessEnv));
    assert IsEnvDeclarator(d);
    assert Children(d) == [ObjectPattern(props), ProcessEnv];
    WalkAllPair(ObjectPattern(props), ProcessEnv);
    WalkPlainMember("process", "env", false);
  }

  lemma WalkEnvAssign(props: seq<Node>)
    requires WalkAll(props) == []
    ensures Walk(Assign(ObjectPattern(props), ProcessEnv)) == PatternKeys(props)
  {
    var a := Assign(ObjectPattern(props), ProcessEnv);
    assert IsEnvAssign(a);
    assert Children(a) == [ObjectPattern(props), ProcessEnv];
    WalkAllPair(ObjectPattern(props), ProcessEnv);
    WalkPlainMember("process", "env", false);
  }

  lemma WalkAllFour(a: Node, b: Node, c: Node, d: Node)
    ensures WalkAll([a, b, c, d]) == Walk(a) + Walk(b) + Walk(c) + Walk(d)
  {
    assert [a, b, c, d] == [a, b] + [c, d];
    WalkAllAppend([a, b], [c, d]);
    WalkAllPair(a, b);
    WalkAllPair(c, d);
    GroupFour(Walk(a), Walk(b), Walk(c), Walk(d));
  }

  lemma WalkStatementsFour(s0: Node, s1: Node, s2: Node, s3: Node, a: string, b: string, c: string, d: string)
    requires Walk(s0) == [a] && Walk(s1) == [b] && Walk(s2) == [c] && Walk(s3) == [d]
    ensures Walk(Other([s0, s1, s2, s3])) == [a, b, c] + [d]
  {
    WalkOther([s0, s1, s2, s3]);
    WalkAllFour(s0, s1, s2, s3);
    ConcatFour(a, b, c, d);
  }

  lemma GroupFour(p: seq<string>, q: seq<string>, r: seq<string>, t: seq<string>)
    ensures (p + q) + (r + t) == p + q + r + t
  {
  }

  lemma ConcatFour(a: string, b: string, c: string, d: string)
    ensures [a] + [b] + [c] + [d] == [a, b, c] + [d]
  {
  }

  lemma DistinctPair(a: string, b: string)
    requires a != b
    ensures NoDuplicates([a, b])
  {
  }

  lemma DistinctTriple(a: string, b: string, c: string)
    requires a != b && a != c && b != c
    ensures NoDuplicates([a, b, c])
  {
  }

  /** A walk that adds no key twice is the scan result as it stands. */
  lemma ScanOfDistinct(root: Node, keys: seq<string>)
    requires Walk(root) == keys && NoDuplicates(keys)
    ensures ScanResult(Some(root)) == keys
  {
    assert [] + keys == keys;
    AddAllDistinct([], keys);
  }

  /** A walk that meets its first key again last reports three keys. */
  lemma ScanOfRepeat(root: Node, a: string, b: string, c: string)
    requires Walk(root) == [a, b, c] + [a]
    requires a != b && a != c && b != c
    ensures ScanResult(Some(root)) == [a, b, c]
  {
    AddAllAppend([], [a, b, c], [a]);
    assert [] + [a, b, c] == [a, b, c];
    DistinctTriple(a, b, c);
    AddAllDistinct([], [a, b, c]);
  }

  /** `console.log(process.env.DB_URL)` yields DB_URL. */
  lemma DottedAccessExample()
    ensures ScanResult(Some(Other([LogStatement(Member(ProcessEnv, Identifier("DB_URL"), false))]))) == ["DB_URL"]
  {
    WalkEnvMember(Identifier("DB_URL"), false);
    WalkLog(Member(ProcessEnv, Identifier("DB_URL"), false));
    WalkStatement(LogStatement(Member(ProcessEnv, Identifier("DB_URL"), false)));
    ScanOfDistinct(Other([LogStatement(Member(ProcessEnv, Identifier("DB_URL"), false))]), ["DB_URL"]);
  }

  /** `console.log(process.env['API_KEY'])` yields API_KEY, as the dotted
      form would. */
  lemma BracketAccessExample()
    ensures ScanResult(Some(Other([LogStatement(Member(ProcessEnv, Literal("API_KEY"), true))]))) == ["API_KEY"]
  {
    WalkEnvMember(Literal("API_KEY"), true);
    WalkLog(Member(ProcessEnv, Literal("API_KEY"), true));
    WalkStatement(LogStatement(Member(ProcessEnv, Literal("API_KEY"), true)));
    ScanOfDistinct(Other([LogStatement(Member(ProcessEnv, Literal("API_KEY"), true))]), ["API_KEY"]);
  }

  /** `const { a, b } = process.env` with two distinct keys yields both, in order. */
  lemma ShorthandPairDeclared(a: string, b: string)
    requires a != b
    ensures ScanResult(Some(Other([Other([
      VarDeclarator(ObjectPattern([Shorthand(a), Shorthand(b)]), Some(ProcessEnv))])]))) == [a, b]
  {
    var props := [Shorthand(a), Shorthand(b)];
    WalkEntry(a, a);
    WalkEntry(b, b);
    WalkAllPair(props[0], props[1]);
    PatternKeysPair(props[0], props[1]);
    WalkEnvDeclarator(props);
    WalkStatement(VarDeclarator(ObjectPattern(props), Some(ProcessEnv)));
    WalkStatement(Other([VarDeclarator(ObjectPattern(props), Some(ProcessEnv))]));
    DistinctPair(a, b);
    ScanOfDistinct(Other([Other([VarDeclarator(ObjectPattern(props), Some(ProcessEnv))])]), [a, b]);
  }

  /** `const { PORT, NODE_ENV } = process.env` yields PORT and NODE_ENV. */
  lemma DeclarationExample()
    ensures ScanResult(Some(Other([Other([
      VarDeclarator(ObjectPattern([Shorthand("PORT"), Shorthand("NODE_ENV")]), Some(ProcessEnv))])]))) ==
      ["PORT", "NODE_ENV"]
  {
    ShorthandPairDeclared("PORT", "NODE_ENV");
  }

  /** `({ STRIPE_KEY } = process.env)` yields STRIPE_KEY. */
  lemma AssignmentExample()
    ensures ScanResult(Some(Other([Other([
      Assign(ObjectPattern([Shorthand("STRIPE_KEY")]), ProcessEnv)])]))) == ["STRIPE_KEY"]
  {
    var props := [Shorthand("STRIPE_KEY")];
    WalkEntry("STRIPE_KEY", "STRIPE_KEY");
    WalkAllSingleton(props[0]);
    PatternKeysSingleton(props[0]);
    WalkEnvAssign(props);
    WalkStatement(Assign(ObjectPattern(props), ProcessEnv));
    WalkStatement(Other([Assign(ObjectPattern(props), ProcessEnv)]));
    ScanOfDistinct(Other([Other([Assign(ObjectPattern(props), ProcessEnv)])]), ["STRIPE_KEY"]);
  }

  /** `const { DB_URL } = process.env; console.log(process.env.API_KEY);
      process.env['STRIPE_KEY']; console.log(process.env.DB_URL);` yields
      each key once, in the order first seen. */
  lemma MixedIdiomsExample()
    ensures ScanResult(Some(Other([
      Other([VarDeclarator(ObjectPattern([Shorthand("DB_URL")]), Some(ProcessEnv))]),
      LogStatement(Member(ProcessEnv, Identifier("API_KEY"), false)),
      Other([Member(ProcessEnv, Literal("STRIPE_KEY"), true)]),
      LogStatement(Member(ProcessEnv, Identifier("DB_URL"), false))]))) ==
      ["DB_URL", "API_KEY", "STRIPE_KEY"]
  {
    var props := [Shorthand("DB_URL")];
    WalkEntry("DB_URL", "DB_URL");
    WalkAllSingleton(props[0]);
    PatternKeysSingleton(props[0]);
    WalkEnvDeclarator(props);
    var s0 := Other([VarDeclarator(ObjectPattern(props), Some(ProcessEnv))]);
    WalkStatement(VarDeclarator(ObjectPattern(props), Some(ProcessEnv)));
    WalkEnvMember(Identifier("API_KEY"), false);
    var s1 := LogStatement(Member(ProcessEnv, Identifier("API_KEY"), false));
    WalkLog(Member(ProcessEnv, Identifier("API_KEY"), false));
    WalkEnvMember(Literal("STRIPE_KEY"), true);
    var s2 := Other([Member(ProcessEnv, Literal("STRIPE_KEY"), true)]);
    WalkStatement(Member(ProcessEnv, Literal("STRIPE_KEY"), true));
    WalkEnvMember(Identifier("DB_URL"), false);
    var s3 := LogStatement(Member(ProcessEnv, Identifier("DB_URL"), false));
    WalkLog(Member(ProcessEnv, Identifier("DB_URL"), false));
    WalkStatementsFour(s0, s1, s2, s3, "DB_URL", "API_KEY", "STRIPE_KEY", "DB_URL");
    ScanOfRepeat(Other([s0, s1, s2, s3]), "DB_URL", "API_KEY", "STRIPE_KEY");
  }

  /** `const { DB_URL: url, ...others } = process.env` yields the source-side
      name DB_URL, not the alias, and nothing for the rest element. */
  lemma AliasAndRestExample()
    ensures ScanResult(Some(Other([Other([
      VarDeclarator(ObjectPattern([Property(Identifier("DB_URL"), Identifier("url")),
                                   RestElement(Identifier("others"))]),
                    Some(ProcessEnv))])]))) == ["DB_URL"]
  {
    var props := [Property(Identifier("DB_URL"), Identifier("url")), RestElement(Identifier("others"))];
    WalkEntry("DB_URL", "url");
    WalkAllSingleton(Identifier("others"));
    WalkAllPair(props[0], props[1]);
    PatternKeysPair(props[0], props[1]);
    WalkEnvDeclarator(props);
    WalkStatement(VarDeclarator(ObjectPattern(props), Some(ProcessEnv)));
    WalkStatement(Other([VarDeclarator(ObjectPattern(props), Some(ProcessEnv))]));
    ScanOfDistinct(Other([Other([VarDeclarator(ObjectPattern(props), Some(ProcessEnv))])]), ["DB_URL"]);
  }

  /** `process.env[K]` with a variable K yields the variable's name "K",
      because the computed flag is not looked at. */
  lemma ComputedIdentifierExample()
    ensures ScanResult(Some(Other([Other([Member(ProcessEnv, Identifier("K"), true)])]))) == ["K"]
  {
    WalkEnvMember(Identifier("K"), true);
    WalkStatement(Member(ProcessEnv, Identifier("K"), true));
    WalkStatement(Other([Member(ProcessEnv, Identifier("K"), true)]));
    ScanOfDistinct(Other([Other([Member(ProcessEnv, Identifier("K"), true)])]), ["K"]);
  }

  /** `const e = process.env; e.KEY` yields nothing: access through an alias
      is not tracked. */
  lemma AliasedEnvExample()
    ensures ScanResult(Some(Other([
      Other([VarDeclarator(Identifier("e"), Some(ProcessEnv))]),
      Other([Member(Identifier("e"), Identifier("KEY"), false)])]))) == []
  {
    var d := VarDeclarator(Identifier("e"), Some(ProcessEnv));
    var m := Member(Identifier("e"), Identifier("KEY"), false);
    WalkPlainDeclarator("e");
    WalkStatement(d);
    WalkPlainMember("e", "KEY", false);
    WalkStatement(m);
    WalkOther([Other([d]), Other([m])]);
    WalkAllPair(Other([d]), Other([m]));
    ScanOfDistinct(Other([Other([d]), Other([m])]), []);
  }

  /** An empty program yields nothing, and so does a failed parse. */
  lemma EmptyProgramExample()
    ensures ScanResult(Some(Other([]))) == []
    ensures ScanResult(None) == []
  {
  }
}
