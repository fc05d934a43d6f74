/** The auditor: compares the keys the code uses with the keys the stored
    environment file defines, and appends `KEY=` lines for missing keys to
    the template file. File reads and writes and the environment-file parser
    are outside the model: their contents come in and go out as values. */
module Auditor {
  import opened Wrappers
  import opened KeySet

  /** `a` is obtained from `b` by deleting elements, so it keeps `b`'s order. */
  predicate IsSubsequence(a: seq<string>, b: seq<string>)
    decreases |b|
  {
    if b == [] then a == []
    else (a != [] && a[0] == b[0] && IsSubsequence(a[1..], b[1..])) || IsSubsequence(a, b[1..])
  }

  /** `xs.filter(v => ys.includes(v) == present)`. */
  function Filter(xs: seq<string>, ys: seq<string>, present: bool): (r: seq<string>)
    ensures forall v :: v in r <==> v in xs && (v in ys) == present
    ensures IsSubsequence(r, xs)
  {
    if xs == [] then []
    else if (xs[0] in ys) == present then [xs[0]] + Filter(xs[1..], ys, present)
    else Filter(xs[1..], ys, present)
  }

  /** The two filters by membership in `ys` split `xs` between them: every
      occurrence lands in exactly one. */
  lemma {:induction false} FilterPartition(xs: seq<string>, ys: seq<string>)
    ensures multiset(Filter(xs, ys, true)) + multiset(Filter(xs, ys, false)) == multiset(xs)
  {
    if xs != [] {
      FilterPartition(xs[1..], ys);
      assert xs == [xs[0]] + xs[1..];
    }
  }

  datatype AuditResult = AuditResult(missing: seq<string>, unused: seq<string>, existing: seq<string>)

  /** `auditEnvs` once the environment file has been parsed into its keys. */
  function AuditEnvs(codeVars: seq<string>, envKeys: seq<string>): (r: AuditResult)
    ensures forall v :: v in r.missing <==> v in codeVars && v !in envKeys
    ensures forall v :: v in r.unused <==> v in envKeys && v !in codeVars
    ensures forall v :: v in r.existing <==> v in envKeys && v in codeVars
    ensures IsSubsequence(r.missing, codeVars)
    ensures IsSubsequence(r.unused, envKeys) && IsSubsequence(r.existing, envKeys)
    ensures multiset(r.missing) + multiset(Filter(codeVars, envKeys, true)) == multiset(codeVars)
    ensures multiset(r.unused) + multiset(r.existing) == multiset(envKeys)
  {
    FilterPartition(codeVars, envKeys);
    FilterPartition(envKeys, codeVars);
    AuditResult(
      Filter(codeVars, envKeys, false),
      Filter(envKeys, codeVars, false),
      Filter(envKeys, codeVars, true))
  }

  /** Every key the code uses is reported either as missing or as existing,
      never both. */
  lemma CodeVarsMissingOrExisting(codeVars: seq<string>, envKeys: seq<string>, v: string)
    requires v in codeVars
    ensures (v in AuditEnvs(codeVars, envKeys).missing) != (v in AuditEnvs(codeVars, envKeys).existing)
  {
  }

  /** The content `syncTemplate` starts from when the template file is absent. */
  const TemplateHeader: string := "# Environment Variables Template\n"

  /** The header is a single comment line that defines no key. */
  lemma TemplateHeaderIsCommentLine()
    ensures TemplateHeader[0] == '#' && EndsWithNewline(TemplateHeader)
    ensures '\n' !in TemplateHeader[..|TemplateHeader| - 1] && '=' !in TemplateHeader
  {
  }

  /** `t` occurs in `s` starting at index `i`. */
  predicate OccursAt(s: string, t: string, i: int) {
    0 <= i <= |s| - |t| && s[i..i + |t|] == t
  }

  /** `s.includes(t)`. */
  predicate Contains(s: string, t: string): (b: bool)
    ensures b ==> |t| <= |s|
    ensures t <= s ==> b
  {
    assert t <= s ==> OccursAt(s, t, 0);
    exists i :: 0 <= i <= |s| - |t| && OccursAt(s, t, i)
  }

  /** `s.includes(t)` holds exactly when `s` splits into some text, `t`, and
      some more text. */
  lemma ContainsIffSplit(s: string, t: string)
    ensures Contains(s, t) <==> exists u, w :: s == u + t + w
  {
    if Contains(s, t) {
      var i :| 0 <= i <= |s| - |t| && OccursAt(s, t, i);
      assert s == s[..i] + t + s[i + |t|..];
    }
    if exists u, w :: s == u + t + w {
      var u, w :| s == u + t + w;
      assert OccursAt(s, t, |u|) by {
        assert s[|u|..|u| + |t|] == t;
      }
    }
  }

  /** Text found in `s` is still found once `s` is extended. */
  lemma ContainsExtended(s: string, u: string, t: string)
    requires Contains(s, t)
    ensures Contains(s + u, t)
  {
    var i :| 0 <= i <= |s| - |t| && OccursAt(s, t, i);
    assert OccursAt(s + u, t, i) by {
      assert (s + u)[i..i + |t|] == s[i..i + |t|];
    }
  }

  /** The key of an appended line occurs, followed by `=`, in the result. */
  lemma KeyLineContainsKey(content: string, v: string)
    ensures Contains(content + KeyLine(v), v + "=")
  {
    var next := content + KeyLine(v);
    assert OccursAt(next, v + "=", |content|) by {
      assert next[|content|..|content| + |v + "="|] == v + "=";
    }
  }

  /** `content` ends with a newline, or is empty. */
  predicate EndsWithNewline(content: string) {
    content == [] || content[|content| - 1] == '\n'
  }

  /** A newline is added to content that is non-empty and does not already
      end with one; empty content stays empty. */
  function EnsureTrailingNewline(content: string): (r: string)
    ensures EndsWithNewline(r)
    ensures |content| <= |r| && r[..|content|] == content
    ensures r == content || r == content + "\n"
    ensures EndsWithNewline(content) ==> r == content
  {
    if content != [] && content[|content| - 1] != '\n' then content + "\n" else content
  }

  /** The template line for one key. */
  function KeyLine(v: string): (line: string)
    ensures |line| == |v| + 2 && line[..|v| + 1] == v + "=" && EndsWithNewline(line)
  {
    v + "=\n"
  }

  /** One iteration of the `forEach`: the line for `v` is appended unless
      `v=` already occurs anywhere in the content built so far. */
  function AppendIfAbsent(content: string, v: string): (r: string)
    ensures Contains(r, v + "=")
    ensures |content| <= |r| && r[..|content|] == content
    ensures r == content <==> Contains(content, v + "=")
  {
    if Contains(content, v + "=") then content
    else KeyLineContainsKey(content, v); content + KeyLine(v)
  }

  /** The content after the `forEach` over `vars` has run on `content`. */
  function Synced(content: string, vars: seq<string>): (r: string)
    ensures |content| <= |r| && r[..|content|] == content
    decreases |vars|
  {
    if vars == [] then content else Synced(AppendIfAbsent(content, vars[0]), vars[1..])
  }

  /** What `syncTemplate` writes: nothing when no key is missing; otherwise
      the template (or the header when it is absent), newline-terminated,
      with the lines for the missing keys appended. */
  function TemplateAfterSync(missingVars: seq<string>, template: Option<string>): (written: Option<string>)
    ensures written.None? <==> missingVars == []
    ensures written.Some? ==> EndsWithNewline(written.value)
  {
    if missingVars == [] then None
    else
      var start := match template case Some(c) => c case None => TemplateHeader;
      SyncedEndsWithNewline(EnsureTrailingNewline(start), missingVars);
      Some(Synced(EnsureTrailingNewline(start), missingVars))
  }

  /** `syncTemplate`, with the template file's content as input (`None` when
      the file does not exist) and the content written to it as output
      (`None` when nothing is written). */
  method SyncTemplate(missingVars: seq<string>, template: Option<string>) returns (written: Option<string>)
    ensures written == TemplateAfterSync(missingVars, template)
    ensures missingVars == [] <==> written == None
  {
    if |missingVars| == 0 {
      return None;
    }
    var content := if template.Some? then template.value else TemplateHeader;
    if content != [] && content[|content| - 1] != '\n' {
      content := content + "\n";
    }
    ghost var start := content;
    for i := 0 to |missingVars|
      invariant Synced(content, missingVars[i..]) == Synced(start, missingVars)
    {
      var v := missingVars[i];
      assert missingVars[i..][1..] == missingVars[i + 1..];
      if !Contains(content, v + "=") {
        content := content + KeyLine(v);
      }
    }
    return Some(content);
  }

  /** The lines appended for the keys `vs`, in order. */
  function KeyLines(vs: seq<string>): (lines: string) {
    if vs == [] then "" else KeyLine(vs[0]) + KeyLines(vs[1..])
  }

  /** After syncing, `v=` occurs for every key `v` of the list, whether it
      was there before or was appended. */
  lemma {:induction false} SyncedCovers(content: string, vars: seq<string>, v: string)
    requires v in vars
    ensures Contains(Synced(content, vars), v + "=")
    decreases |vars|
  {
    var next := AppendIfAbsent(content, vars[0]);
    if v == vars[0] {
      var r := Synced(next, vars[1..]);
      assert r == r[..|next|] + r[|next|..];
      ContainsExtended(next, r[|next|..], v + "=");
    } else {
      SyncedCovers(next, vars[1..], v);
    }
  }

  /** A list whose every `v=` already occurs leaves the content unchanged. */
  lemma {:induction false} SyncedNoop(content: string, vars: seq<string>)
    requires forall v :: v in vars ==> Contains(content, v + "=")
    ensures Synced(content, vars) == content
    decreases |vars|
  {
    if vars != [] {
      SyncedNoop(content, vars[1..]);
    }
  }

  /** `result` is `content` followed by the lines of the keys `added`,
      which are some of the keys of `vars`, in list order, none twice, and
      none of whose `v=` occurred in `content`. */
  ghost predicate AppendsKeyLines(content: string, vars: seq<string>, added: seq<string>, result: string) {
    && IsSubsequence(added, vars)
    && NoDuplicates(added)
    && (forall v :: v in added ==> !Contains(content, v + "="))
    && result == content + KeyLines(added)
  }

  /** A key whose `v=` already occurs appends nothing. */
  lemma SkipKeyLine(content: string, vars: seq<string>, added: seq<string>, result: string)
    requires vars != [] && Contains(content, vars[0] + "=")
    requires AppendsKeyLines(AppendIfAbsent(content, vars[0]), vars[1..], added, result)
    ensures AppendsKeyLines(content, vars, added, result)
  {
  }

  /** A key whose `v=` does not occur yet has its line appended first. */
  lemma AppendKeyLine(content: string, vars: seq<string>, rest: seq<string>, result: string)
    requires vars != [] && !Contains(content, vars[0] + "=")
    requires AppendsKeyLines(AppendIfAbsent(content, vars[0]), vars[1..], rest, result)
    ensures AppendsKeyLines(content, vars, [vars[0]] + rest, result)
  {
    var v := vars[0];
    var added := [v] + rest;
    assert added[1..] == rest;
    assert IsSubsequence(added, vars);
    KeyLineContainsKey(content, v);
    NoDuplicatesCons(v, rest);
    forall w | w in added
      ensures !Contains(content, w + "=")
    {
      if w != v && Contains(content, w + "=") {
        ContainsExtended(content, KeyLine(v), w + "=");
      }
    }
    assert KeyLines(added) == KeyLine(v) + KeyLines(rest);
  }

  /** Syncing only ever appends `v=` lines: the result is the content
      followed by the lines of some of the keys, in list order, none of
      whose `v=` occurred in the content, and no key twice. */
  lemma {:induction false} SyncedAppendsKeyLines(content: string, vars: seq<string>)
    ensures exists added :: AppendsKeyLines(content, vars, added, Synced(content, vars))
    decreases |vars|
  {
    if vars == [] {
      assert AppendsKeyLines(content, vars, [], Synced(content, vars));
    } else {
      var next := AppendIfAbsent(content, vars[0]);
      SyncedAppendsKeyLines(next, vars[1..]);
      var rest :| AppendsKeyLines(next, vars[1..], rest, Synced(next, vars[1..]));
      if Contains(content, vars[0] + "=") {
        SkipKeyLine(content, vars, rest, Synced(content, vars));
      } else {
        AppendKeyLine(content, vars, rest, Synced(content, vars));
      }
    }
  }

  /** Syncing keeps a content that ends with a newline so terminated. */
  lemma {:induction false} SyncedEndsWithNewline(content: string, vars: seq<string>)
    requires EndsWithNewline(content)
    ensures EndsWithNewline(Synced(content, vars))
    decreases |vars|
  {
    if vars != [] {
      SyncedEndsWithNewline(AppendIfAbsent(content, vars[0]), vars[1..]);
    }
  }

  /** The template's existing content (or the header) survives as a prefix of
      what is written, and only `v=` lines for keys of the list follow the
      newline that terminates it. */
  lemma SyncKeepsTemplate(missingVars: seq<string>, template: Option<string>)
    requires missingVars != []
    ensures var start := match template case Some(c) => c case None => TemplateHeader;
      var w := TemplateAfterSync(missingVars, template);
      w.Some? && |start| <= |w.value| && w.value[..|start|] == start
      && exists added :: AppendsKeyLines(EnsureTrailingNewline(start), missingVars, added, w.value)
  {
    var start := match template case Some(c) => c case None => TemplateHeader;
    var first := EnsureTrailingNewline(start);
    SyncedAppendsKeyLines(first, missingVars);
  }

  /** After a sync, `v=` occurs in the written content for every missing key. */
  lemma SyncCoversMissing(missingVars: seq<string>, template: Option<string>, v: string)
    requires v in missingVars
    ensures TemplateAfterSync(missingVars, template).Some?
    ensures Contains(TemplateAfterSync(missingVars, template).value, v + "=")
  {
    var start := match template case Some(c) => c case None => TemplateHeader;
    SyncedCovers(EnsureTrailingNewline(start), missingVars, v);
  }

  /** Syncing the written template again with the same list writes it back
      unchanged. */
  lemma SyncIdempotent(missingVars: seq<string>, template: Option<string>)
    requires missingVars != []
    ensures var w := TemplateAfterSync(missingVars, template);
      w.Some? && TemplateAfterSync(missingVars, Some(w.value)) == w
  {
    var start := match template case Some(c) => c case None => TemplateHeader;
    var w := Synced(EnsureTrailingNewline(start), missingVars);
    SyncedEndsWithNewline(EnsureTrailingNewline(start), missingVars);
    forall v | v in missingVars
      ensures Contains(w, v + "=")
    {
      SyncedCovers(EnsureTrailingNewline(start), missingVars, v);
    }
    SyncedNoop(w, missingVars);
  }

  /** Content without any `=` contains no `v=`. */
  lemma NoEqualsSignNoKey(s: string, v: string)
    requires '=' !in s
    ensures !Contains(s, v + "=")
  {
    forall i | 0 <= i <= |s| - |v + "="|
      ensures !OccursAt(s, v + "=", i)
    {
      assert s[i..i + |v + "="|][|v|] == s[i + |v|] != '=';
      assert (v + "=")[|v|] == '=';
    }
  }

  /** With no template file, a single missing key gives the header followed
      by that key's line. */
  lemma SyncWithoutTemplateExample(v: string)
    ensures TemplateAfterSync([v], None) == Some(TemplateHeader + KeyLine(v))
  {
    assert '=' !in TemplateHeader;
    NoEqualsSignNoKey(TemplateHeader, v);
    assert EnsureTrailingNewline(TemplateHeader) == TemplateHeader;
    assert AppendIfAbsent(TemplateHeader, v) == TemplateHeader + KeyLine(v);
    assert [v][1..] == [];
    assert Synced(TemplateHeader, [v]) == Synced(TemplateHeader + KeyLine(v), []);
  }

  /** The presence test is a plain substring test, not a per-line one: a
      template defining `DATA=` already counts as containing `A=`, so the
      missing key `A` is not appended. */
  lemma SubstringMatchExample()
    ensures TemplateAfterSync(["A"], Some("DATA=\n")) == Some("DATA=\n")
  {
    assert "A" + "=" == "A=";
    assert OccursAt("DATA=\n", "A=", 3) by {
      assert "DATA=\n"[3..5] == "A=";
    }
    assert Contains("DATA=\n", "A" + "=");
    assert EnsureTrailingNewline("DATA=\n") == "DATA=\n";
    assert AppendIfAbsent("DATA=\n", "A") == "DATA=\n";
    assert ["A"][1..] == [];
    assert Synced("DATA=\n", ["A"]) == Synced("DATA=\n", []);
  }
}
