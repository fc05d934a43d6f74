# env-trace core in Dafny

env-trace looks for the keys of `process.env` that JavaScript code reads
through three idioms, and compares them with the keys a `.env` file defines.
This project models the two parts of it that hold logic:

- **The usage scanner** (`scanFileForEnvs`). It walks the parsed ESTree tree
  of one file depth-first and tests every node against three idioms:
  - member access: `process.env.NAME`, `process.env['NAME']`, `process.env[K]`;
  - declaration destructuring: `const { A, B: alias } = process.env`;
  - assignment destructuring: `({ A } = process.env)`.

  It adds the key names it finds to a `Set`, and returns them in insertion
  order. A file that does not parse yields no keys.
- **The auditor.**
  - `auditEnvs` splits the code's keys and the environment file's keys into
    `missing`, `unused` and `existing`.
  - `syncTemplate` appends a `KEY=` line to the template file for every
    missing key that the template does not yet mention.

Modules:

- `Wrappers` — `Option`.
- `Syntax` — the tree as a closed datatype. It has the ESTree kinds the idioms
  inspect (`Identifier`, `Literal`, `Member`, `VarDeclarator`, `Assign`,
  `ObjectPattern`, `Property`, `RestElement`). Every other kind is `Other`,
  which keeps only its children. `Children` gives the order the walker visits
  children in.
- `KeySet` — the JavaScript `Set<string>` as the sequence of its values in
  insertion order. `Insert` is `add`: it appends a value only if it is absent.
- `Scanner` — the pure specification and the imperative scanner.
  - `Contrib` gives the keys one node adds.
  - `Walk` concatenates them in pre-order.
  - `ScanResult` inserts them into an empty set.
  - `ScanFileForEnvs` is the walk as a loop over a work list of pending
    nodes, with `Enter` as the `enter` callback and `AddPatternKeys` as the
    `forEach` over a pattern's entries. It is proved equal to `ScanResult`.
- `ScannerExamples` — the trees of the repository's scanner tests, plus
  boundary cases, with their results computed.
- `Auditor`.
  - `AuditEnvs` is three order-preserving filters.
  - `SyncTemplate` is the template update as a loop over the missing keys. It
    is proved equal to the fold `Synced`, and the template properties are
    proved about that fold.

Four behaviours of the scanner are worth knowing:

- It returns only the keys, so a failed parse and a file with no keys look
  the same (`[]`).
- It ignores `computed`, so `process.env[K]` yields `"K"`.
- It compares only the `name` fields, so `process[env]` also counts as
  `process.env`.
- The parser accepts only JavaScript, so a TypeScript or JSX file that uses
  type annotations or JSX fails to parse and yields `[]`.

## Model

| member | source | states |
|---|---|---|
| Syntax.NameOf | src/scanner.ts:21-22 | `node?.name` is defined exactly for identifiers and is then the identifier's name |
| Syntax.Children | src/scanner.ts:15-16 | the children of a node together hold every node below it (their sizes add up to one less than the node's), so the walker skips no part of a node; each child is smaller than the node. By definition they come in source order: object before property, binding before initializer, left before right, key before value |
| KeySet.Insert | src/scanner.ts:25 | `Set.add`: the result holds the old values plus `x`, keeps the old values as a prefix, is unchanged when `x` was present, and keeps the values distinct |
| KeySet.AddAll | src/scanner.ts:7 | adding values one after another keeps the values distinct and the earlier values as a prefix |
| KeySet.AddAllMembership | src/scanner.ts:7 | after adding `xs`, a value is in the set iff it was there before or is in `xs` |
| KeySet.AddAllDistinct | src/scanner.ts:66 | values added without repeats, none present yet, come out in the order they were added |
| KeySet.AddAllAppend | src/scanner.ts:39-43 | adding `a + b` is adding `a` and then `b` |
| Scanner.IsProcessEnv | src/scanner.ts:19-22 | holds exactly for the member access `process.env`, under either value of the computed flag (so `process[env]` too) |
| Scanner.IsEnvMember | src/scanner.ts:18-23 | holds exactly for a member access whose object is `process.env`, under either computed flag; such a node is never itself `process.env` |
| Scanner.IsEnvDeclarator | src/scanner.ts:32-38 | holds exactly for a declarator whose binding is an object pattern and whose initializer is present and is `process.env` |
| Scanner.IsEnvAssign | src/scanner.ts:47-53 | holds exactly for an assignment whose left side is an object pattern and whose right side is `process.env` |
| Scanner.MemberKey | src/scanner.ts:24-28 | the property of an env member access yields at most one key, and yields one exactly when it is an identifier or a literal |
| Scanner.PatternKey | src/scanner.ts:40-41 | one pattern entry yields at most one key, and yields `k` exactly when it is a `Property` whose key is the identifier `k` |
| Scanner.PatternKeys | src/scanner.ts:39-43 | a key is produced iff some entry of the pattern is a `Property` whose key is the identifier with that name |
| Scanner.PatternKeysAppend | src/scanner.ts:39-43 | the keys of a concatenated pattern are the keys of its parts, in order |
| Scanner.RestElementAddsNothing | src/scanner.ts:40 | a trailing `...rest` entry adds no key |
| Scanner.Contrib | src/scanner.ts:17-59 | a node adds keys only if it matches one of the three idioms, and a bare `process.env` node adds none |
| Scanner.Walk | src/scanner.ts:15-16 | pre-order: the keys a node adds itself come first, before any key of its descendants |
| Scanner.WalkAll | src/scanner.ts:15-16 | no contract of its own: the walks of a list of siblings, left to right; `WalkAllAppend` and `WalkAllMembership` state its laws |
| Scanner.WalkAllAppend | src/scanner.ts:15-16 | walking a concatenated list of siblings is walking each part in turn |
| Scanner.WalkAllMembership | src/scanner.ts:15-16 | a key comes from a list of siblings iff it comes from one of them |
| Scanner.WalkComplete | src/scanner.ts:15-61 | the walk never stops early: a key added by any node at any depth is in the walk |
| Scanner.WalkSound | src/scanner.ts:15-61 | every key in the walk was added by some node of the tree |
| Scanner.ScanResult | src/scanner.ts:62-66 | the result has no duplicates, and a parse failure gives an empty result |
| Scanner.ScanIsUnionOfContributions | src/scanner.ts:15-61 | a key is in the result iff some node of the tree contributes it |
| Scanner.DottedKeyFound | src/scanner.ts:18-25 | `process.env.NAME` anywhere in the tree puts NAME in the result, with or without the computed flag |
| Scanner.BracketKeyFound | src/scanner.ts:26-27 | `process.env['NAME']` anywhere in the tree puts NAME in the result |
| Scanner.DeclaredKeyFound | src/scanner.ts:32-43 | `const { K: alias } = process.env` anywhere in the tree puts the source-side key K in the result |
| Scanner.AssignedKeyFound | src/scanner.ts:47-58 | `({ K: alias } = process.env)` anywhere in the tree puts the source-side key K in the result |
| Scanner.AddPatternKeys | src/scanner.ts:39-43 | the `forEach` over a pattern's entries adds exactly the pattern's keys, in order |
| Scanner.Enter | src/scanner.ts:16-60 | the `enter` callback adds exactly the node's contribution to the set |
| Scanner.WalkStep | src/scanner.ts:15-16 | entering the front pending node and replacing it by its children leaves the keys still to be added unchanged, and the work left strictly decreases |
| Scanner.ScanFileForEnvs | src/scanner.ts:5-67 | the scanner returns exactly `ScanResult`: the distinct keys of a pre-order walk in first-seen order, or nothing on a parse failure |
| ScannerExamples.DottedAccessExample | tests/scanner.test.ts:8-13 | `console.log(process.env.DB_URL)` yields exactly `["DB_URL"]` |
| ScannerExamples.BracketAccessExample | tests/scanner.test.ts:16-21 | `console.log(process.env['API_KEY'])` yields exactly `["API_KEY"]` |
| ScannerExamples.ShorthandPairDeclared | src/scanner.ts:32-43 | `const { a, b } = process.env` with distinct keys yields exactly `[a, b]` |
| ScannerExamples.DeclarationExample | tests/scanner.test.ts:24-30 | `const { PORT, NODE_ENV } = process.env` yields exactly `["PORT", "NODE_ENV"]` |
| ScannerExamples.AssignmentExample | tests/scanner.test.ts:33-38 | `({ STRIPE_KEY } = process.env)` yields exactly `["STRIPE_KEY"]` |
| ScannerExamples.ScanOfRepeat | src/scanner.ts:7 | a walk that meets its first key again at the end reports each key once |
| ScannerExamples.MixedIdiomsExample | src/scanner.ts:15-66 | a file using all three idioms, with one key twice, yields each key once in first-seen order |
| ScannerExamples.AliasAndRestExample | src/scanner.ts:39-43 | `const { DB_URL: url, ...others } = process.env` yields the source-side key only |
| ScannerExamples.ComputedIdentifierExample | src/scanner.ts:24-25 | `process.env[K]` yields the variable name `"K"` |
| ScannerExamples.AliasedEnvExample | src/scanner.ts:32-37 | `const e = process.env; e.KEY` yields nothing: aliases are not tracked |
| ScannerExamples.EmptyProgramExample | src/scanner.ts:62-66 | an empty program and a failed parse both yield nothing |
| Auditor.Filter | src/auditor.ts:18-20 | `xs.filter(v => ys.includes(v) == present)` keeps exactly the matching values, in `xs` order |
| Auditor.FilterPartition | src/auditor.ts:19-20 | the two filters by membership split every occurrence of `xs` between them |
| Auditor.AuditEnvs | src/auditor.ts:17-21 | `missing` holds exactly the code keys not in the env file, `unused` the env keys not in the code, and `existing` the env keys in the code, each in its list's order; `missing` and the code keys found in the env file partition the code keys, occurrence by occurrence, and `unused` and `existing` partition the env keys |
| Auditor.CodeVarsMissingOrExisting | src/auditor.ts:18-20 | every code key is in exactly one of `missing` and `existing` |
| Auditor.TemplateHeaderIsCommentLine | src/auditor.ts:32 | the default header is a single comment line, starting with `#` and ending with a newline, that defines no key |
| Auditor.Contains | src/auditor.ts:38 | `includes`: text that is found is no longer than the content, and a prefix of the content is always found |
| Auditor.ContainsIffSplit | src/auditor.ts:38 | `s.includes(t)` holds exactly when `s` is some text, then `t`, then some more text |
| Auditor.ContainsExtended | src/auditor.ts:38 | text found by `includes` is still found after the content grows |
| Auditor.KeyLineContainsKey | src/auditor.ts:39 | after `v=\n` is appended, the content includes `v=` |
| Auditor.EnsureTrailingNewline | src/auditor.ts:35 | the result ends with a newline or is empty, keeps the content as a prefix, and adds at most one `\n`, only when the content is non-empty and lacks one |
| Auditor.KeyLine | src/auditor.ts:39 | the line for a key is the key, then `=`, then one newline |
| Auditor.AppendIfAbsent | src/auditor.ts:38-40 | after one iteration `v=` occurs; the content so far is kept as a prefix; and the content is unchanged exactly when `v=` already occurred in it |
| Auditor.Synced | src/auditor.ts:37-41 | the loop only appends: the content before it is a prefix of the content after it |
| Auditor.TemplateAfterSync | src/auditor.ts:27-44 | nothing is written exactly when no key is missing, and what is written ends with a newline |
| Auditor.SyncTemplate | src/auditor.ts:27-44 | nothing is written iff no key is missing; otherwise what is written is the fold `TemplateAfterSync` over the missing keys |
| Auditor.SyncedCovers | src/auditor.ts:37-41 | after the loop, `v=` occurs for every key of the list |
| Auditor.SyncedNoop | src/auditor.ts:38-39 | a list whose every `v=` already occurs changes nothing |
| Auditor.SkipKeyLine | src/auditor.ts:38 | a key whose `v=` already occurs appends nothing |
| Auditor.AppendKeyLine | src/auditor.ts:38-40 | a key whose `v=` does not occur yet has its line appended before the lines of the later keys |
| Auditor.SyncedAppendsKeyLines | src/auditor.ts:37-41 | the loop appends only `v=\n` lines, for keys of the list in list order, none twice, none whose `v=` occurred before |
| Auditor.SyncedEndsWithNewline | src/auditor.ts:35-41 | content that ends with a newline still does after the loop |
| Auditor.SyncKeepsTemplate | src/auditor.ts:30-41 | the template (or the header when it is absent) is a prefix of what is written, followed by at most one newline and then only `v=\n` lines of missing keys |
| Auditor.SyncCoversMissing | src/auditor.ts:37-41 | after a sync, `v=` occurs in the written content for every missing key |
| Auditor.SyncIdempotent | src/auditor.ts:38-39 | syncing the written template again with the same keys writes it back unchanged |
| Auditor.NoEqualsSignNoKey | src/auditor.ts:38 | content without any `=` includes no `v=` |
| Auditor.SyncWithoutTemplateExample | src/auditor.ts:30-39 | with no template file, one missing key gives the header followed by that key's line |
| Auditor.SubstringMatchExample | src/auditor.ts:38 | the presence test is a substring test: a template with `DATA=` is not given an `A=` line |

## Left out

- Parsing: `acorn.parse` is a foreign parser. The scanner takes its outcome as an `Option<Node>`, where `None` is a parse error that the `catch` swallows.
- Reading the file: `fs.readFileSync` in the scanner is I/O. Its errors are outside the `try` and reach the caller, which the model does not represent.
- Tree walking: the `estree-walker` library is not modelled. The walk is the pre-order traversal that `Children` lays out: object before property, binding before initializer, left before right, key before value, and list entries in source order.
- Other node kinds: every ESTree kind the idioms do not inspect is `Other` and keeps only its children. Identifier-like kinds of its own, such as `PrivateIdentifier` and `JSXIdentifier`, also carry a `name`, which the `process`/`env` test would read; the model gives only `Identifier` a name.
- Property and assignment details: the model does not keep `computed`, `shorthand` or `kind` on `Property`, or the operator on `AssignmentExpression`. The code does not read them.
- Literal values: non-string literal values, such as `process.env[0]`, which adds a number to the set, are left out; `Literal` carries a string.
- The `async` wrapper of `scanFileForEnvs` is left out; it never awaits anything.
- Auditor I/O: the environment file and the template file are inputs and outputs.
  - `fs.existsSync` and `readFileSync` give the template as `Option<string>`.
  - `writeFileSync` is the `Some` result of `SyncTemplate`.
  - `dotenv.parse` of the environment file is replaced by its list of keys, `envKeys`.
- src/cli.ts is not part of this model: command-line parsing, globbing, terminal output and prompts, and the plain union of the per-file key lists.
