/** A JavaScript `Set<string>` as the scanner uses it: `add` ignores a value
    that is already present, and `Array.from` lists the values in the order
    they were first added. The set is therefore kept as the sequence of its
    values in insertion order. */
module KeySet {

  /** No value occurs twice. */
  predicate NoDuplicates(s: seq<string>) {
    forall i, j :: 0 <= i < j < |s| ==> s[i] != s[j]
  }

  lemma NoDuplicatesCons(x: string, s: seq<string>)
    requires x !in s && NoDuplicates(s)
    ensures NoDuplicates([x] + s)
  {
    forall i, j | 0 <= i < j < |[x] + s|
      ensures ([x] + s)[i] != ([x] + s)[j]
    {
      if i > 0 {
        assert ([x] + s)[i] == s[i - 1];
      }
      assert ([x] + s)[j] == s[j - 1];
    }
  }

  /** `set.add(x)`: an absent value goes to the end, a present one changes nothing. */
  function Insert(s: seq<string>, x: string): (r: seq<string>)
    ensures NoDuplicates(s) ==> NoDuplicates(r)
    ensures forall y :: y in r <==> y in s || y == x
    ensures |s| <= |r| && r[..|s|] == s
    ensures x in s ==> r == s
  {
    if x in s then s else s + [x]
  }

  /** Adds the values of `xs` one after another, as a `forEach` over `xs` calling `add` does. */
  function AddAll(s: seq<string>, xs: seq<string>): (r: seq<string>)
    ensures NoDuplicates(s) ==> NoDuplicates(r)
    ensures |s| <= |r| && r[..|s|] == s
    decreases xs
  {
    if xs == [] then s else AddAll(Insert(s, xs[0]), xs[1..])
  }

  /** After adding `xs`, the set holds exactly what it held before and the values of `xs`. */
  lemma {:induction false} AddAllMembership(s: seq<string>, xs: seq<string>, y: string)
    ensures y in AddAll(s, xs) <==> y in s || y in xs
    decreases xs
  {
    if xs != [] {
      AddAllMembership(Insert(s, xs[0]), xs[1..], y);
      assert xs == [xs[0]] + xs[1..];
    }
  }

  /** Values added in a run without repeats, none of them present yet, are
      kept in the order given. */
  lemma {:induction false} AddAllDistinct(s: seq<string>, xs: seq<string>)
    requires NoDuplicates(s + xs)
    ensures AddAll(s, xs) == s + xs
    decreases xs
  {
    if xs != [] {
      assert xs[0] !in s by {
        assert (s + xs)[|s|] == xs[0];
        forall i | 0 <= i < |s| ensures s[i] != xs[0] {
          assert (s + xs)[i] == s[i];
        }
      }
      assert Insert(s, xs[0]) + xs[1..] == s + xs;
      AddAllDistinct(Insert(s, xs[0]), xs[1..]);
    }
  }

  /** Adding `a` and then `b` is adding `a + b`: the walk may add keys in as
      many batches as it likes. */
  lemma {:induction false} AddAllAppend(s: seq<string>, a: seq<string>, b: seq<string>)
    ensures AddAll(s, a + b) == AddAll(AddAll(s, a), b)
    decreases a
  {
    if a == [] {
      assert a + b == b;
    } else {
      assert (a + b)[0] == a[0];
      assert (a + b)[1..] == a[1..] + b;
      AddAllAppend(Insert(s, a[0]), a[1..], b);
    }
  }
}
