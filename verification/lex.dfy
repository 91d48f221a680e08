/** Symbol strings under the order the among tables are sorted by: compare symbol
    by symbol, and a proper prefix comes before every longer string it begins.
    `Lcp` is the length of the longest common prefix, which the among matcher
    tracks for the two ends of its search interval. */
module Lex {

  predicate IsPrefix(a: seq<int>, b: seq<int>) {
    |a| <= |b| && b[..|a|] == a
  }

  /** Extend an agreed prefix of length `k` as far as `a` and `b` agree. */
  function LcpFrom(a: seq<int>, b: seq<int>, k: nat): (r: nat)
    requires k <= |a| && k <= |b| && a[..k] == b[..k]
    ensures k <= r <= |a| && r <= |b| && a[..r] == b[..r]
    ensures forall i | 0 <= i < r :: a[i] == b[i]
    ensures r < |a| && r < |b| ==> a[r] != b[r]
    decreases |a| - k
  {
    if k < |a| && k < |b| && a[k] == b[k] then
      assert a[..k + 1] == a[..k] + [a[k]] && b[..k + 1] == b[..k] + [b[k]];
      LcpFrom(a, b, k + 1)
    else k
  }

  /** Length of the longest common prefix of `a` and `b`. */
  function Lcp(a: seq<int>, b: seq<int>): (r: nat)
    ensures r <= |a| && r <= |b| && a[..r] == b[..r]
    ensures forall i | 0 <= i < r :: a[i] == b[i]
    ensures r < |a| && r < |b| ==> a[r] != b[r]
  {
    LcpFrom(a, b, 0)
  }

  /** `a` sorts strictly before `b`. */
  predicate Below(a: seq<int>, b: seq<int>) {
    var k := Lcp(a, b);
    (k == |a| && k < |b|) || (k < |a| && k < |b| && a[k] < b[k])
  }

  predicate Leq(a: seq<int>, b: seq<int>) {
    a == b || Below(a, b)
  }

  /** Any length up to which `a` and `b` agree is at most their `Lcp`. */
  lemma AgreeUpTo(a: seq<int>, b: seq<int>, j: nat)
    requires j <= |a| && j <= |b| && a[..j] == b[..j]
    ensures j <= Lcp(a, b)
  {
    forall i | 0 <= i < j
      ensures a[i] == b[i]
    {
      assert a[i] == a[..j][i] && b[i] == b[..j][i];
    }
  }

  /** The three properties of `Lcp` determine it. */
  lemma LcpIs(a: seq<int>, b: seq<int>, r: nat)
    requires r <= |a| && r <= |b| && a[..r] == b[..r]
    requires r < |a| && r < |b| ==> a[r] != b[r]
    ensures Lcp(a, b) == r
  {
    AgreeUpTo(a, b, r);
  }

  lemma LcpSymmetric(a: seq<int>, b: seq<int>)
    ensures Lcp(a, b) == Lcp(b, a)
  {
    LcpIs(b, a, Lcp(a, b));
  }

  lemma LcpSelf(a: seq<int>)
    ensures Lcp(a, a) == |a|
  {
    LcpIs(a, a, |a|);
  }

  lemma PrefixByLcp(e: seq<int>, t: seq<int>)
    ensures IsPrefix(e, t) <==> Lcp(e, t) == |e|
  {
    if IsPrefix(e, t) {
      assert e[..|e|] == e;
      AgreeUpTo(e, t, |e|);
    }
    if Lcp(e, t) == |e| {
      assert e[..|e|] == e;
    }
  }

  /** `Below` is a strict order: asymmetric (hence irreflexive) ... */
  lemma BelowAsymmetric(a: seq<int>, b: seq<int>)
    ensures Below(a, b) ==> !Below(b, a) && a != b
  {
    LcpSymmetric(a, b);
    LcpSelf(a);
  }

  /** ... total on distinct strings ... */
  lemma BelowTotal(a: seq<int>, b: seq<int>)
    ensures a == b || Below(a, b) || Below(b, a)
  {
    LcpSymmetric(a, b);
    var k := Lcp(a, b);
    if k == |a| && k == |b| {
      assert a == a[..k] == b[..k] == b;
    }
  }

  /** ... and transitive. */
  lemma BelowTransitive(a: seq<int>, b: seq<int>, c: seq<int>)
    requires Below(a, b) && Below(b, c)
    ensures Below(a, c)
  {
    var p := Lcp(a, b);
    var q := Lcp(b, c);
    var m := if p < q then p else q;
    assert a[..m] == b[..m] by {
      assert a[..m] == a[..p][..m] && b[..m] == b[..p][..m];
    }
    assert b[..m] == c[..m] by {
      assert b[..m] == b[..q][..m] && c[..m] == c[..q][..m];
    }
    if p < q {
      assert b[p] == b[..q][p] == c[..q][p] == c[p];
    } else if q < p {
      assert a[q] == a[..p][q] == b[..p][q] == b[q];
    }
    LcpIs(a, c, m);
  }

  /** Common-prefix lengths form an ultrametric. */
  lemma LcpUltrametric(a: seq<int>, b: seq<int>, c: seq<int>)
    ensures Lcp(a, c) >= Lcp(a, b) || Lcp(a, c) >= Lcp(b, c)
  {
    var p := Lcp(a, b);
    var q := Lcp(b, c);
    var m := if p < q then p else q;
    assert a[..m] == a[..p][..m] == b[..p][..m] == b[..m];
    assert b[..m] == b[..q][..m] == c[..q][..m] == c[..m];
    AgreeUpTo(a, c, m);
  }

  /** A string sorted between `a` and `b` shares with `a` at least the prefix that
      `a` and `b` share. */
  lemma Sandwich(a: seq<int>, x: seq<int>, b: seq<int>)
    requires Leq(a, x) && Leq(x, b)
    ensures Lcp(a, x) >= Lcp(a, b)
  {
    LcpSelf(a);
    LcpSymmetric(a, x);
    LcpSymmetric(x, b);
    BelowAsymmetric(a, x);
    BelowAsymmetric(x, b);
  }

  /** A prefix of `t` sorts no later than `t`. */
  lemma PrefixIsLeq(e: seq<int>, t: seq<int>)
    requires IsPrefix(e, t)
    ensures Leq(e, t)
  {
    PrefixByLcp(e, t);
  }

  /** A prefix `e` of `t` begins every string sorted between `e` and `t`. */
  lemma PrefixBetween(e: seq<int>, x: seq<int>, t: seq<int>)
    requires IsPrefix(e, t) && Leq(e, x) && Leq(x, t)
    ensures IsPrefix(e, x)
  {
    Sandwich(e, x, t);
    PrefixByLcp(e, t);
    PrefixByLcp(e, x);
  }

  /** Of two prefixes of the same string, the shorter is a prefix of the longer. */
  lemma PrefixesNest(a: seq<int>, b: seq<int>, t: seq<int>)
    requires IsPrefix(a, t) && IsPrefix(b, t) && |a| <= |b|
    ensures IsPrefix(a, b)
  {
    assert b[..|a|] == t[..|b|][..|a|] == t[..|a|];
  }

  lemma PrefixTransitive(a: seq<int>, b: seq<int>, c: seq<int>)
    requires IsPrefix(a, b) && IsPrefix(b, c)
    ensures IsPrefix(a, c)
  {
    assert c[..|a|] == c[..|b|][..|a|];
  }

  /** A common prefix of `x` and `t` is exactly a prefix of `x` no longer than
      their `Lcp`. */
  lemma CommonPrefixByLcp(e: seq<int>, x: seq<int>, t: seq<int>)
    requires IsPrefix(e, x)
    ensures IsPrefix(e, t) <==> |e| <= Lcp(x, t)
  {
    var m := Lcp(x, t);
    if IsPrefix(e, t) {
      assert x[..|e|] == e == t[..|e|];
      AgreeUpTo(x, t, |e|);
    }
    if |e| <= m {
      assert t[..|e|] == t[..m][..|e|] == x[..m][..|e|] == x[..|e|];
    }
  }
}
