/** Small facts about sequences, kept apart so that the proofs using them
    need no extensionality reasoning of their own. */
module Seqs {
  lemma SplitAt<T>(s: seq<T>, k: nat)
    requires k <= |s|
    ensures s == s[..k] + s[k..]
  {
  }

  lemma AppendEmpty<T>(s: seq<T>)
    ensures s + [] == s
  {
  }

  lemma Assoc<T>(a: seq<T>, b: seq<T>, c: seq<T>)
    ensures a + (b + c) == a + b + c
  {
  }

  lemma Assoc4<T>(a: seq<T>, b: seq<T>, c: seq<T>, d: seq<T>)
    ensures a + (b + c + d) == a + b + c + d
  {
  }

  /** A sequence made of two parts, split back into them. */
  lemma Halves<T>(f: seq<T>, a: seq<T>, b: seq<T>)
    requires f == a + b
    ensures f[..|a|] == a && f[|a|..] == b
  {
  }

  /** What lies in `f` from offset `p` on, when that is `a + b`. */
  lemma DropFront<T>(f: seq<T>, p: nat, a: seq<T>, b: seq<T>)
    requires p <= |f| && f[p..] == a + b
    ensures p + |a| <= |f| && f[p..p + |a|] == a && f[p + |a|..] == b
  {
    assert f[p..p + |a|] == f[p..][..|a|];
    assert f[p + |a|..] == f[p..][|a|..];
  }

  /** Where the three parts of a record `a + b + c` lie when `f` holds it
      from offset `p` on. */
  lemma FieldsAt<T>(f: seq<T>, p: nat, a: seq<T>, b: seq<T>, c: seq<T>, rest: seq<T>)
    requires p <= |f| && f[p..] == a + b + c + rest
    ensures p + |a| + |b| + |c| <= |f|
    ensures f[p..p + |a|] == a
    ensures f[p + |a|..p + |a| + |b|] == b
    ensures f[p + |a| + |b|..p + |a| + |b| + |c|] == c
  {
    assert f[p..p + |a|] == f[p..][..|a|];
    assert f[p + |a|..p + |a| + |b|] == f[p..][|a|..|a| + |b|];
    assert f[p + |a| + |b|..p + |a| + |b| + |c|] == f[p..][|a| + |b|..|a| + |b| + |c|];
  }

  /** The first `k` elements of `s`, seen from the front. */
  lemma TakeFront<T>(s: seq<T>, k: nat)
    requires 0 < k <= |s|
    ensures s[..k][0] == s[0] && s[..k][1..] == s[1..][..k - 1]
  {
  }

  lemma Cons<T>(s: seq<T>)
    requires s != []
    ensures s == [s[0]] + s[1..]
  {
  }

  lemma TakeNone<T>(s: seq<T>)
    ensures s[..0] == []
  {
  }

  lemma SplitLast<T>(s: seq<T>)
    requires s != []
    ensures s == s[..|s| - 1] + [s[|s| - 1]]
  {
  }
}
