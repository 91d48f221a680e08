/** `find_among`: the forward multi-candidate matcher.

    The candidate table is sorted, so the matcher bisects it while remembering, for
    each end of the search interval, how long a prefix of that end's candidate the
    text at the cursor is already known to share. It then walks the fail-skip links
    from the last candidate not above the text to the first one wholly covered by the
    verified prefix. The C loops appear here as tail-recursive functions: `Compare`
    is the inner symbol loop, `Bisect` the outer search loop, `FollowSkips` the
    second loop. */
module AmongMatcher {
  import opened Faults
  import opened Runtime
  import opened Lex

  /** One candidate (`struct amongvec`): its symbols `b` (whose length is `size`),
      the fail-skip index `i` (negative: end of the chain), the outcome `result`,
      and whether it carries a routine (`function`). */
  datatype AmongEntry = AmongEntry(b: seq<int>, i: int, result: int, hasRoutine: bool)

  predicate Sorted(v: seq<AmongEntry>) {
    forall x, y {:trigger Below(v[x].b, v[y].b)} | 0 <= x < y < |v| :: Below(v[x].b, v[y].b)
  }

  predicate IsStrictPrefix(a: seq<int>, b: seq<int>) {
    IsPrefix(a, b) && |a| < |b|
  }

  /** Entry `k`'s fail-skip link points at an earlier entry, and that entry is the
      longest entry of the table that is a strict prefix of entry `k`; the link is
      negative exactly when there is none. */
  predicate SkipOk(v: seq<AmongEntry>, k: int)
    requires 0 <= k < |v|
  {
    && v[k].i < k
    && (v[k].i >= 0 ==> IsStrictPrefix(v[v[k].i].b, v[k].b))
    && (forall y {:trigger IsStrictPrefix(v[y].b, v[k].b)} | 0 <= y < |v| && IsStrictPrefix(v[y].b, v[k].b) ::
          v[k].i >= 0 && |v[y].b| <= |v[v[k].i].b|)
  }

  /** What the front end guarantees of every table it emits. */
  predicate WellFormedTable(v: seq<AmongEntry>) {
    && |v| > 0
    && Sorted(v)
    && (forall k | 0 <= k < |v| :: SkipOk(v, k))
  }

  /** Reference definition: among the first `n` entries, the longest one that
      begins `t` (the earliest of equally long ones), scanning in table order. */
  function LongestIn(v: seq<AmongEntry>, t: seq<int>, n: nat): (r: Option<nat>)
    requires n <= |v|
    ensures r.Some? ==> r.value < n && IsPrefix(v[r.value].b, t)
    ensures forall y {:trigger IsPrefix(v[y].b, t)} | 0 <= y < n && IsPrefix(v[y].b, t) :: r.Some? && |v[y].b| <= |v[r.value].b|
  {
    if n == 0 then None
    else
      var best := LongestIn(v, t, n - 1);
      if IsPrefix(v[n - 1].b, t) && (best.None? || |v[n - 1].b| > |v[best.value].b|) then Some(n - 1)
      else best
  }

  /** The entry Snowball's `among` selects for the text `t`: the longest candidate
      that begins it, or none. */
  function LongestMatch(v: seq<AmongEntry>, t: seq<int>): (r: Option<nat>)
    ensures r.Some? ==> r.value < |v| && IsPrefix(v[r.value].b, t)
    ensures r.Some? ==> forall y {:trigger IsPrefix(v[y].b, t)} | 0 <= y < |v| && IsPrefix(v[y].b, t) :: |v[y].b| <= |v[r.value].b|
    ensures r.None? <==> forall y {:trigger IsPrefix(v[y].b, t)} | 0 <= y < |v| :: !IsPrefix(v[y].b, t)
  {
    LongestIn(v, t, |v|)
  }

  /** In a sorted table, a longest entry beginning `t` is the one `LongestMatch` picks. */
  lemma LongestIsUnique(v: seq<AmongEntry>, t: seq<int>, x: nat)
    requires Sorted(v) && x < |v| && IsPrefix(v[x].b, t)
    requires forall y {:trigger IsPrefix(v[y].b, t)} | 0 <= y < |v| && IsPrefix(v[y].b, t) :: |v[y].b| <= |v[x].b|
    ensures LongestMatch(v, t) == Some(x)
  {
    var m := LongestMatch(v, t).value;
    PrefixesNest(v[m].b, v[x].b, t);
    assert v[m].b == v[x].b[..|v[m].b|] == v[x].b;
    if m < x {
      BelowAsymmetric(v[m].b, v[x].b);
    } else if x < m {
      BelowAsymmetric(v[x].b, v[m].b);
    }
  }

  /** The inner loop (interpreter.c:249-255): extend the verified common prefix of
      the text `t` and the candidate `w` from `common`, stopping at the first
      difference, at the end of the candidate, or at the end of the text (which
      counts as the text sorting first). Returns the sign-bearing difference and the
      new common length. */
  function Compare(t: seq<int>, w: seq<int>, common: nat): (r: (int, nat))
    requires common <= Lcp(t, w)
    ensures r.1 == Lcp(t, w)
    ensures r.0 < 0 <==> Below(t, w)
    decreases |w| - common
  {
    if common >= |w| then (0, common)
    else if common == |t| then (-1, common)
    else if t[common] != w[common] then (t[common] - w[common], common)
    else Compare(t, w, common + 1)
  }

  /** The lower end `i` of the search interval: a candidate not above the text whose
      common prefix with it is `ci`, or the untouched starting point 0. */
  predicate LowerEnd(t: seq<int>, v: seq<AmongEntry>, i: int, ci: nat)
    requires 0 <= i < |v|
  {
    (Leq(v[i].b, t) && ci == Lcp(t, v[i].b)) || (i == 0 && ci == 0)
  }

  /** The upper end `j`: a candidate above the text whose common prefix with it is
      `cj`, or one past the table. */
  predicate UpperEnd(t: seq<int>, v: seq<AmongEntry>, j: int, cj: nat)
    requires 0 <= j <= |v|
  {
    (j == |v| && cj == 0) || (j < |v| && Below(t, v[j].b) && cj == Lcp(t, v[j].b))
  }

  /** Every candidate from the upper end on sorts above the text. */
  lemma AboveUpper(t: seq<int>, v: seq<AmongEntry>, j: int, cj: nat)
    requires Sorted(v) && 0 <= j <= |v| && UpperEnd(t, v, j, cj)
    ensures forall m {:trigger Below(t, v[m].b)} | j <= m < |v| :: Below(t, v[m].b)
  {
    forall m | j < m < |v|
      ensures Below(t, v[m].b)
    {
      BelowTransitive(t, v[j].b, v[m].b);
    }
  }

  /** Starting a comparison from the smaller of the two common lengths is safe: a
      candidate between the ends shares at least that much with the text. */
  lemma StartIsVerified(t: seq<int>, v: seq<AmongEntry>, i: int, j: int, k: int, ci: nat, cj: nat)
    requires Sorted(v) && 0 <= i <= k < j <= |v|
    requires LowerEnd(t, v, i, ci) && UpperEnd(t, v, j, cj)
    ensures (if ci < cj then ci else cj) <= Lcp(t, v[k].b)
  {
    if Leq(v[i].b, t) && ci == Lcp(t, v[i].b) && j < |v| {
      var a, x, b := v[i].b, v[k].b, v[j].b;
      assert Leq(a, x);
      Sandwich(a, x, b);
      LcpUltrametric(a, t, b);
      LcpUltrametric(t, a, x);
      LcpSymmetric(a, t);
    }
  }

  /** One comparison against the midpoint `k` narrows the interval soundly: if the
      text sorts below candidate `k`, `k` becomes a valid upper end, otherwise a valid
      lower end, each with the common length the comparison verified. */
  lemma NarrowKeepsEnds(t: seq<int>, v: seq<AmongEntry>, k: int)
    requires 0 <= k < |v|
    ensures Below(t, v[k].b) ==> UpperEnd(t, v, k, Lcp(t, v[k].b))
    ensures !Below(t, v[k].b) ==> Leq(v[k].b, t) && LowerEnd(t, v, k, Lcp(t, v[k].b))
  {
    BelowTotal(t, v[k].b);
  }

  /** Where the bisection ends: every candidate above `i` sorts above the text, and
      `i` is either a candidate at or below the text sharing exactly `ci` symbols with
      it, or entry 0 sorting above the text. */
  predicate Settled(t: seq<int>, v: seq<AmongEntry>, i: int, ci: nat)
    requires 0 <= i < |v|
  {
    && (forall m {:trigger Below(t, v[m].b)} | i < m < |v| :: Below(t, v[m].b))
    && ((Leq(v[i].b, t) && ci == Lcp(t, v[i].b)) || (i == 0 && ci == 0 && Below(t, v[0].b)))
  }

  /** When the search stops, nothing above the lower end is at or below the text,
      and the lower end is either a candidate at or below the text or the untouched
      entry 0 sorting above the text. */
  lemma StopIsFinal(t: seq<int>, v: seq<AmongEntry>, i: int, j: int, ci: nat, cj: nat)
    requires Sorted(v) && 0 <= i < |v| && i <= j <= |v| && j - i <= 1
    requires LowerEnd(t, v, i, ci) && UpperEnd(t, v, j, cj)
    requires i > 0 || j == i || (Leq(v[i].b, t) && ci == Lcp(t, v[i].b))
    ensures Settled(t, v, i, ci)
  {
    AboveUpper(t, v, j, cj);
    BelowAsymmetric(t, v[i].b);
  }

  /** One pass of the outer loop on `[i, j)`: compare the text with the midpoint,
      starting from the smaller verified length, and move the end it belongs to.
      Returns the new ends and their common lengths. */
  function Narrow(t: seq<int>, v: seq<AmongEntry>, i: int, j: int, ci: nat, cj: nat): (r: (int, int, nat, nat))
    requires Sorted(v) && 0 <= i < j <= |v|
    requires LowerEnd(t, v, i, ci) && UpperEnd(t, v, j, cj)
    ensures i <= r.0 <= r.1 <= j && r.0 < |v|
    ensures LowerEnd(t, v, r.0, r.2) && UpperEnd(t, v, r.1, r.3)
    ensures r.1 - r.0 < j - i || (r.0 == i && r.1 == j && Leq(v[i].b, t) && r.2 == Lcp(t, v[i].b))
  {
    var k := i + (j - i) / 2;
    StartIsVerified(t, v, i, j, k, ci, cj);
    var cmp := Compare(t, v[k].b, if ci < cj then ci else cj);
    NarrowKeepsEnds(t, v, k);
    if cmp.0 < 0 then (i, k, ci, cmp.1) else (k, j, cmp.1, cj)
  }

  /** The outer loop (interpreter.c:243-274) from the interval `[i, j)`. When the
      interval has width at most one it stops, except that entry 0 has then never
      been a midpoint, so one extra pass is forced to inspect it. Returns the final
      lower end and its common length. */
  function Bisect(t: seq<int>, v: seq<AmongEntry>, i: int, j: int, ci: nat, cj: nat,
                  firstKeyInspected: bool): (r: (nat, nat))
    requires Sorted(v) && 0 <= i < j <= |v|
    requires LowerEnd(t, v, i, ci) && UpperEnd(t, v, j, cj)
    requires firstKeyInspected ==> i == 0 && j == 1
    ensures r.0 < |v| && Settled(t, v, r.0, r.1)
    decreases 2 * (j - i) + (if firstKeyInspected then 0 else 1)
  {
    var (i', j', ci', cj') := Narrow(t, v, i, j, ci, cj);
    if j' - i' <= 1 && (i' > 0 || j' == i' || firstKeyInspected) then
      StopIsFinal(t, v, i', j', ci', cj');
      (i', ci')
    else
      Bisect(t, v, i', j', ci', cj', firstKeyInspected || j' - i' <= 1)
  }

  /** The second loop (interpreter.c:275-291): from entry `x`, follow fail-skip links
      to the first entry whose whole length lies within the verified common length
      `ci`. That is the longest entry beginning entry `x` that is no longer than `ci`. */
  function FollowSkips(v: seq<AmongEntry>, x: int, ci: nat): (r: Option<nat>)
    requires 0 <= x < |v| && forall k | 0 <= k < |v| :: SkipOk(v, k)
    ensures r.Some? ==> r.value < |v| && IsPrefix(v[r.value].b, v[x].b) && |v[r.value].b| <= ci
    ensures forall y {:trigger IsPrefix(v[y].b, v[x].b)} | 0 <= y < |v| && IsPrefix(v[y].b, v[x].b) && |v[y].b| <= ci ::
              r.Some? && |v[y].b| <= |v[r.value].b|
    decreases x
  {
    assert SkipOk(v, x);
    if ci >= |v[x].b| then
      assert v[x].b[..|v[x].b|] == v[x].b;
      Some(x)
    else if v[x].i < 0 then
      NoSkipNoPrefix(v, x, ci);
      None
    else
      var next := v[x].i;
      SkipTargetCovers(v, x, ci);
      var r := FollowSkips(v, next, ci);
      if r.Some? then PrefixTransitive(v[r.value].b, v[next].b, v[x].b); r
      else r
  }

  /** An entry without a fail-skip link has no shorter entry beginning it. */
  lemma NoSkipNoPrefix(v: seq<AmongEntry>, x: int, ci: nat)
    requires 0 <= x < |v| && SkipOk(v, x) && v[x].i < 0 && ci < |v[x].b|
    ensures forall y {:trigger IsPrefix(v[y].b, v[x].b)} | 0 <= y < |v| && IsPrefix(v[y].b, v[x].b) ::
              |v[y].b| > ci
  {
    forall y | 0 <= y < |v| && IsPrefix(v[y].b, v[x].b)
      ensures |v[y].b| > ci
    {
      if |v[y].b| <= ci {
        assert IsStrictPrefix(v[y].b, v[x].b);
      }
    }
  }

  /** An entry beginning entry `x` and no longer than `ci < |v[x].b|` also begins
      the target of `x`'s fail-skip link. */
  lemma SkipTargetCovers(v: seq<AmongEntry>, x: int, ci: nat)
    requires 0 <= x < |v| && forall k | 0 <= k < |v| :: SkipOk(v, k)
    requires ci < |v[x].b| && 0 <= v[x].i < x
    ensures forall y {:trigger IsPrefix(v[y].b, v[x].b)} | 0 <= y < |v| && IsPrefix(v[y].b, v[x].b) && |v[y].b| <= ci ::
              IsPrefix(v[y].b, v[v[x].i].b)
  {
    assert SkipOk(v, x);
    forall y | 0 <= y < |v| && IsPrefix(v[y].b, v[x].b) && |v[y].b| <= ci
      ensures IsPrefix(v[y].b, v[v[x].i].b)
    {
      assert IsStrictPrefix(v[y].b, v[x].b);
      PrefixesNest(v[y].b, v[v[x].i].b, v[x].b);
    }
  }

  /** A candidate sorted above the text cannot begin it. */
  lemma AboveIsNoPrefix(e: seq<int>, t: seq<int>)
    ensures Below(t, e) ==> !IsPrefix(e, t)
  {
    PrefixByLcp(e, t);
    LcpSymmetric(e, t);
    BelowAsymmetric(t, e);
  }

  /** The two loops together pick exactly the reference entry. */
  lemma SearchFindsLongest(t: seq<int>, v: seq<AmongEntry>, i: nat, ci: nat)
    requires WellFormedTable(v) && i < |v| && Settled(t, v, i, ci)
    ensures FollowSkips(v, i, ci) == LongestMatch(v, t)
  {
    var found := FollowSkips(v, i, ci);
    if Leq(v[i].b, t) && ci == Lcp(t, v[i].b) {
      LcpSymmetric(t, v[i].b);
      forall y | 0 <= y < |v| && IsPrefix(v[y].b, t)
        ensures IsPrefix(v[y].b, v[i].b) && |v[y].b| <= ci
      {
        PrefixIsLeq(v[y].b, t);
        AboveIsNoPrefix(v[y].b, t);
        if y < i {
          assert Below(v[y].b, v[i].b);
        }
        PrefixBetween(v[y].b, v[i].b, t);
        CommonPrefixByLcp(v[y].b, v[i].b, t);
      }
      if found.Some? {
        CommonPrefixByLcp(v[found.value].b, v[i].b, t);
        LongestIsUnique(v, t, found.value);
      }
    } else {
      forall y | 0 <= y < |v|
        ensures !IsPrefix(v[y].b, t)
      {
        AboveIsNoPrefix(v[y].b, t);
      }
      assert found.Some? ==> IsPrefix(v[found.value].b, t);
    }
  }

  /** Both loops of `find_among`: bisect the whole table, then follow fail-skip links
      from the lower end. Picks exactly the reference entry. */
  function Search(t: seq<int>, v: seq<AmongEntry>): (r: Option<nat>)
    requires WellFormedTable(v)
    ensures r == LongestMatch(v, t)
  {
    var (i, ci) := Bisect(t, v, 0, |v|, 0, 0, false);
    SearchFindsLongest(t, v, i, ci);
    FollowSkips(v, i, ci)
  }

  /** Where the forward matcher stops comparing. From a cursor at or before the limit
      its end test `c + common == l` stops it at the limit. From a cursor past the
      limit that test never fires, and it compares whatever follows the cursor in the
      buffer: the text up to its size, then the symbols left in the allocation. */
  function End(z: Env): int {
    if z.c <= z.l then z.l else |z.p|
  }

  /** Every comparison `find_among` can make stays within the text: the cursor is at
      or before the limit, or inside the text with every candidate ending before the
      end of the text. */
  predicate InText(z: Env, v: seq<AmongEntry>) {
    z.c <= z.l || (z.c <= |z.p| && forall k | 0 <= k < |v| :: z.c + |v[k].b| <= |z.p|)
  }

  /** The text the forward matcher compares with its candidates. */
  function Ahead(z: Env): (t: seq<int>)
    requires Valid(z) && z.c <= End(z)
    ensures |t| == End(z) - z.c
  {
    z.p[z.c..End(z)]
  }

  /** `find_among` on a well-formed table, when it compares only symbols of the text:
      the outcome of the longest candidate that begins the text ahead of the cursor
      (up to the limit, or up to the end of the text from a cursor past the limit),
      with the cursor moved past it; outcome 0
      with nothing changed when no candidate matches. A chosen candidate that carries
      a routine stops the run (the source asserts it never does). */
  function FindAmong(z: Env, v: seq<AmongEntry>): (r: Result<(int, Env)>)
    requires Valid(z) && WellFormedTable(v) && InText(z, v)
    ensures z.c <= End(z)
    ensures var m := LongestMatch(v, Ahead(z));
            m.None? ==> r == Ok((0, z))
    ensures var m := LongestMatch(v, Ahead(z));
            m.Some? ==>
              var w := v[m.value];
              if w.hasRoutine then r.Err? else r == Ok((w.result, z.(c := z.c + |w.b|)))
    ensures r.Ok? ==> Valid(r.value.1) && r.value.1.c <= End(z) && r.value.1 == z.(c := r.value.1.c)
  {
    var m := Search(Ahead(z), v);
    if m.None? then Ok((0, z))
    else
      var w := v[m.value];
      AheadPrefix(z, w.b);
      if w.hasRoutine then Err(NotImplemented(AmongEntryRoutine))
      else Ok((w.result, z.(c := z.c + |w.b|)))
  }

  /** A candidate that begins the text ahead lies at the cursor, before the end of
      the compared text. */
  lemma AheadPrefix(z: Env, w: seq<int>)
    requires Valid(z) && z.c <= End(z) && IsPrefix(w, Ahead(z))
    ensures z.c + |w| <= End(z) && z.p[z.c..z.c + |w|] == w
  {
    assert Ahead(z)[..|w|] == z.p[z.c..z.c + |w|];
  }

  /** With the front end's non-zero outcomes, a zero return means no candidate
      begins the text (and nothing moved); a non-zero return names a candidate
      that does, within the compared text, with the cursor past it. */
  lemma FindAmongOutcome(z: Env, v: seq<AmongEntry>)
    requires Valid(z) && WellFormedTable(v) && InText(z, v)
    requires forall k | 0 <= k < |v| :: v[k].result != 0
    ensures var r := FindAmong(z, v);
            r.Ok? && r.value.0 == 0 <==> r == Ok((0, z)) && forall y {:trigger IsPrefix(v[y].b, Ahead(z))} | 0 <= y < |v| :: !IsPrefix(v[y].b, Ahead(z))
    ensures var r := FindAmong(z, v);
            r.Ok? && r.value.0 != 0 ==>
              exists m | 0 <= m < |v| ::
                && v[m].result == r.value.0
                && z.c + |v[m].b| <= End(z)
                && z.p[z.c..z.c + |v[m].b|] == v[m].b
                && r.value.1.c == z.c + |v[m].b|
  {
    var r := FindAmong(z, v);
    match LongestMatch(v, Ahead(z))
    case None =>
    case Some(m) =>
      AheadPrefix(z, v[m].b);
      if !v[m].hasRoutine {
        assert r.value == (v[m].result, z.(c := z.c + |v[m].b|));
        assert v[m].result == r.value.0 && r.value.1.c == z.c + |v[m].b|;
      }
  }
}
