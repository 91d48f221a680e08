/** Laws of the single commands: assignments and the values read back, the slice
    markers, `atlimit`, `slicefrom`, `substring` and the dispatch of `among`, and
    the usual replace-a-suffix idiom `[ 'x' ] <- 'y'` taken as a whole. */
module CommandLaws {
  import opened Faults
  import opened Runtime
  import opened SymbolBuffer
  import opened Lex
  import opened AmongMatcher
  import opened Ast
  import opened Interpreter

  /** `$v = e` stores the value of `e` in the slot of `v`, where `v` reads it back;
      every other slot and the rest of the environment are untouched. It fails only
      when `v` is not an integer, has no slot, or `e` cannot be evaluated. */
  lemma AssignThenRead(g: Program, v: Name, e: AE, z: Env, heap: nat, fuel: nat)
    requires Ready(g, MathAssign(v, e), z)
    ensures var r := Exec(g, MathAssign(v, e), z, heap, fuel);
            r.Err? <==> v.kind != TInteger || v.count < 0 || EvalAE(e, z).Err?
    ensures var r := Exec(g, MathAssign(v, e), z, heap, fuel);
            r.Ok? ==> r.value.0 && EvalAE(Var(v), r.value.1) == EvalAE(e, z)
    ensures var r := Exec(g, MathAssign(v, e), z, heap, fuel);
            r.Ok? ==> r.value.1 == z.(I := r.value.1.I) &&
                      forall k | 0 <= k < |z.I| && k != v.count :: r.value.1.I[k] == z.I[k]
  {
  }

  /** A variable the analyser optimised away stops the run whether it is read or
      written, and names the variable. */
  lemma OptimisedOutIsFatal(g: Program, v: Name, e: AE, z: Env, heap: nat, fuel: nat)
    requires v.kind == TInteger && v.count < 0
    requires Ready(g, MathAssign(v, e), z)
    ensures Exec(g, MathAssign(v, e), z, heap, fuel) == Err(OptimisedOut(v.text))
    ensures EvalAE(Var(v), z) == Err(OptimisedOut(v.text))
  {
  }

  /** `$a == $b` compares two values and changes nothing. */
  lemma EqCompares(g: Program, a: AE, b: AE, z: Env, heap: nat, fuel: nat)
    requires Ready(g, Eq(a, b), z)
    ensures var r := Exec(g, Eq(a, b), z, heap, fuel);
            r.Ok? <==> EvalAE(a, z).Ok? && EvalAE(b, z).Ok?
    ensures var r := Exec(g, Eq(a, b), z, heap, fuel);
            r.Ok? ==> r.value.1 == z && (r.value.0 <==> EvalAE(a, z).value == EvalAE(b, z).value)
  {
  }

  /** `[` and `]` in forward mode set the markers to the cursor and always succeed;
      in backward mode they stop the run. */
  lemma SliceMarkers(g: Program, m: Mode, z: Env, heap: nat, fuel: nat)
    requires Valid(z) && ProgramOk(g, |z.I|)
    ensures m == Forward ==> Exec(g, LeftSlice(m), z, heap, fuel) == Ok((true, z.(bra := z.c)))
    ensures m == Forward ==> Exec(g, RightSlice(m), z, heap, fuel) == Ok((true, z.(ket := z.c)))
    ensures m == Backward ==> Exec(g, LeftSlice(m), z, heap, fuel).Err? &&
                              Exec(g, RightSlice(m), z, heap, fuel).Err?
  {
  }

  /** `atlimit` holds exactly when the cursor is not before the limit, which for a
      cursor inside the scanned region means it is at the limit. */
  lemma AtLimitIsEnd(g: Program, z: Env, heap: nat, fuel: nat)
    requires Valid(z) && ProgramOk(g, |z.I|)
    ensures var r := Exec(g, AtLimit(Forward), z, heap, fuel);
            r.Ok? && r.value.1 == z && (r.value.0 <==> z.c >= z.l)
    ensures z.c <= z.l ==> (Exec(g, AtLimit(Forward), z, heap, fuel).value.0 <==> z.c == z.l)
  {
  }

  /** `<- s` never fails. Bad markers make it do nothing; otherwise it writes `s`
      over the slice, and the only fault is running out of memory. */
  lemma SliceFromNeverFails(g: Program, s: seq<int>, z: Env, heap: nat, fuel: nat)
    requires Valid(z) && ProgramOk(g, |z.I|)
    ensures var r := Exec(g, SliceFrom(s), z, heap, fuel);
            (r.Ok? ==> r.value.0) && (r.Err? ==> r.fault == OutOfMemory)
    ensures !SliceCheck(z) ==> Exec(g, SliceFrom(s), z, heap, fuel) == Ok((true, z))
    ensures var r := Exec(g, SliceFrom(s), z, heap, fuel);
            SliceCheck(z) && r.Ok? ==> r.value.1.p == z.p[..z.bra] + s + z.p[z.ket..]
  {
    if SliceCheck(z) {
      var r := ReplaceS(z, z.bra, z.ket, s, heap);
    }
  }

  /** The sequence `[ lit ] <- rep`. Where `lit` follows the cursor it is replaced
      by `rep`, the markers span where `lit` was and the cursor ends after `rep`;
      elsewhere the sequence fails having moved only the left marker. */
  lemma ReplaceLiteral(g: Program, lit: seq<int>, rep: seq<int>, z: Env, heap: nat, fuel: nat)
    requires Valid(z) && ProgramOk(g, |z.I|)
    ensures var n := Bra([LeftSlice(Forward), LiteralString(lit), RightSlice(Forward), SliceFrom(rep)]);
            var r := Exec(g, n, z, heap, fuel);
            var matched := z.c + |lit| <= z.l && z.p[z.c..z.c + |lit|] == lit;
            && (!matched ==> r == Ok((false, z.(bra := z.c))))
            && (matched ==> r.Ok? || r == Err(OutOfMemory))
            && (matched && r.Ok? ==>
                  && r.value.0
                  && r.value.1.p == z.p[..z.c] + rep + z.p[z.c + |lit|..]
                  && r.value.1.l == z.l + |rep| - |lit|
                  && r.value.1.c == z.c + |rep|
                  && r.value.1.bra == z.c && r.value.1.ket == z.c + |lit|)
  {
    var n := Bra([LeftSlice(Forward), LiteralString(lit), RightSlice(Forward), SliceFrom(rep)]);
    MarkAndMatch(g, lit, rep, z, heap, fuel);
    var e := EqS(z.(bra := z.c), lit);
    if e.0 {
      var z3 := e.1.(ket := e.1.c);
      BraLast(g, n, 3, z3, heap, fuel);
      assert SliceCheck(z3);
      var edit := ReplaceS(z3, z3.bra, z3.ket, rep, heap);
      assert SliceFromS(z3, rep, heap) == edit;
      assert Exec(g, n.children[3], z3, heap, fuel) == if edit.Ok? then Ok((true, edit.value)) else Err(OutOfMemory);
    }
  }

  /** The first three operands of `[ lit ] <- rep`: set the left marker, match
      `lit`, and on a match set the right marker. */
  lemma MarkAndMatch(g: Program, lit: seq<int>, rep: seq<int>, z: Env, heap: nat, fuel: nat)
    requires Valid(z) && ProgramOk(g, |z.I|)
    ensures var n := Bra([LeftSlice(Forward), LiteralString(lit), RightSlice(Forward), SliceFrom(rep)]);
            var z1 := z.(bra := z.c);
            var e := EqS(z1, lit);
            Exec(g, n, z, heap, fuel) ==
              if e.0 then ExecBra(g, n, 3, e.1.(ket := e.1.c), heap, fuel) else Ok((false, z1))
  {
    var n := Bra([LeftSlice(Forward), LiteralString(lit), RightSlice(Forward), SliceFrom(rep)]);
    var z1 := z.(bra := z.c);
    assert Exec(g, n.children[0], z, heap, fuel) == Ok((true, z1));
    assert ExecBra(g, n, 0, z, heap, fuel) == ExecBra(g, n, 1, z1, heap, fuel);
    var e := EqS(z1, lit);
    assert Exec(g, n.children[1], z1, heap, fuel) == Ok(e);
    if e.0 {
      var z2 := e.1;
      assert ExecBra(g, n, 1, z1, heap, fuel) == ExecBra(g, n, 2, z2, heap, fuel);
      assert Exec(g, n.children[2], z2, heap, fuel) == Ok((true, z2.(ket := z2.c)));
    } else {
      assert ExecBra(g, n, 1, z1, heap, fuel) == Ok((false, z1));
    }
  }

  /** The fatal paths among single commands: a command kind the evaluator has no case
      for reaches the closing trap, and `substring` and `atlimit` in backward mode
      stop at their mode assertions. */
  lemma TrapIsFatal(g: Program, k: string, x: AmongTable, z: Env, heap: nat, fuel: nat)
    requires Valid(z) && ProgramOk(g, |z.I|) && WellFormedTable(x.entries)
    ensures Exec(g, Unsupported(k), z, heap, fuel) == Err(UnsupportedCommand(k))
    ensures Exec(g, Substring(Backward, x), z, heap, fuel) == Err(AssertionFailed(BackwardSubstring))
    ensures Exec(g, AtLimit(Backward), z, heap, fuel) == Err(AssertionFailed(BackwardAtLimit))
  {
  }

  /** `substring` in forward mode, over a table whose outcomes are non-zero and
      carry no routine: it succeeds exactly when some entry begins the text ahead of
      the cursor (`Ahead`), moves the cursor over the longest such entry and, when the
      table asks for it, records that entry's outcome (or 0). */
  lemma SubstringOutcome(g: Program, x: AmongTable, z: Env, heap: nat, fuel: nat)
    requires Ready(g, Substring(Forward, x), z) && InText(z, x.entries)
    requires forall k | 0 <= k < |x.entries| :: x.entries[k].result != 0 && !x.entries[k].hasRoutine
    ensures var r := Exec(g, Substring(Forward, x), z, heap, fuel);
            r.Ok? && (r.value.0 <==> exists k | 0 <= k < |x.entries| :: IsPrefix(x.entries[k].b, Ahead(z)))
    ensures var r := Exec(g, Substring(Forward, x), z, heap, fuel);
            var m := LongestMatch(x.entries, Ahead(z));
            && (m.None? ==> r.value.1 == if x.amongVarNeeded then z.(amongVar := 0) else z)
            && (m.Some? ==>
                  var w := x.entries[m.value];
                  r.value.1 == if x.amongVarNeeded then z.(c := z.c + |w.b|, amongVar := w.result)
                               else z.(c := z.c + |w.b|))
  {
    var m := LongestMatch(x.entries, Ahead(z));
    if m.Some? {
      assert IsPrefix(x.entries[m.value].b, Ahead(z));
    }
  }

  /** The last operand of a bracketed sequence decides its outcome alone. */
  lemma BraLast(g: Program, n: Node, k: nat, z: Env, heap: nat, fuel: nat)
    requires n.Bra? && k + 1 == |n.children| && Ready(g, n, z)
    ensures ExecBra(g, n, k, z, heap, fuel) == Exec(g, n.children[k], z, heap, fuel)
  {
  }

  /** `among(...)` after its `substring`: the recorded outcome, counted from 1,
      selects the command to run. */
  lemma AmongRunsSelected(g: Program, x: AmongTable, cs: seq<Node>, nocommand: nat, z: Env, j: nat, heap: nat, fuel: nat)
    requires x.amongVarNeeded && |cs| > 0 && !(|cs| == 1 && nocommand == 0)
    requires Ready(g, Among(x, true, false, cs, nocommand), z) && j < |cs| && z.amongVar == j + 1
    ensures Ready(g, cs[j], z)
    ensures Exec(g, Among(x, true, false, cs, nocommand), z, heap, fuel) == Exec(g, cs[j], z, heap, fuel)
  {
  }

  /** `substring ... among(...)` as the analyser arranges it, when entry `i` is the
      longest that begins the text at the cursor: its outcome, counted from 1,
      selects the command to run, at the cursor after that entry. */
  lemma AmongDispatch(g: Program, x: AmongTable, cs: seq<Node>, nocommand: nat, z: Env, i: nat, heap: nat, fuel: nat)
    requires x.amongVarNeeded && |cs| > 0 && !(|cs| == 1 && nocommand == 0)
    requires forall k | 0 <= k < |x.entries| ::
               1 <= x.entries[k].result <= |cs| && !x.entries[k].hasRoutine
    requires Ready(g, Bra([Substring(Forward, x), Among(x, true, false, cs, nocommand)]), z)
    requires InText(z, x.entries) && LongestMatch(x.entries, Ahead(z)) == Some(i)
    ensures i < |x.entries| && IsPrefix(x.entries[i].b, Ahead(z))
    ensures Ready(g, cs[x.entries[i].result - 1], z.(c := z.c + |x.entries[i].b|, amongVar := x.entries[i].result))
    ensures var n := Bra([Substring(Forward, x), Among(x, true, false, cs, nocommand)]);
            var z1 := z.(c := z.c + |x.entries[i].b|, amongVar := x.entries[i].result);
            Exec(g, n, z, heap, fuel) == Exec(g, cs[x.entries[i].result - 1], z1, heap, fuel)
  {
    var n := Bra([Substring(Forward, x), Among(x, true, false, cs, nocommand)]);
    var sub := Substring(Forward, x);
    var among := Among(x, true, false, cs, nocommand);
    assert n.children[0] == sub && n.children[1] == among;
    assert Ready(g, sub, z) && Ready(g, among, z);
    SubstringOutcome(g, x, z, heap, fuel);
    var first := Exec(g, sub, z, heap, fuel);
    var w := x.entries[i];
    var z1 := z.(c := z.c + |w.b|, amongVar := w.result);
    assert first.value.0 && first.value.1 == z1;
    assert Exec(g, n, z, heap, fuel) == ExecBra(g, n, 0, z, heap, fuel);
    assert ExecBra(g, n, 0, z, heap, fuel) == ExecBra(g, n, 1, z1, heap, fuel);
    BraLast(g, n, 1, z1, heap, fuel);
    assert ExecBra(g, n, 1, z1, heap, fuel) == Exec(g, among, z1, heap, fuel);
    AmongRunsSelected(g, x, cs, nocommand, z1, w.result - 1, heap, fuel);
    assert Exec(g, n, z, heap, fuel) == Exec(g, cs[w.result - 1], z1, heap, fuel);
    assert z1 == z.(c := z.c + |x.entries[i].b|, amongVar := x.entries[i].result);
  }

  /** When no entry begins the text at the cursor, `substring ... among(...)` fails,
      having recorded the outcome 0 and moved nothing. */
  lemma AmongNoMatch(g: Program, x: AmongTable, cs: seq<Node>, nocommand: nat, z: Env, heap: nat, fuel: nat)
    requires x.amongVarNeeded
    requires forall k | 0 <= k < |x.entries| :: x.entries[k].result != 0 && !x.entries[k].hasRoutine
    requires Ready(g, Bra([Substring(Forward, x), Among(x, true, false, cs, nocommand)]), z)
    requires InText(z, x.entries) && forall k | 0 <= k < |x.entries| :: !IsPrefix(x.entries[k].b, Ahead(z))
    ensures Exec(g, Bra([Substring(Forward, x), Among(x, true, false, cs, nocommand)]), z, heap, fuel) ==
            Ok((false, z.(amongVar := 0)))
  {
    var n := Bra([Substring(Forward, x), Among(x, true, false, cs, nocommand)]);
    assert n.children[0] == Substring(Forward, x);
    assert Ready(g, Substring(Forward, x), z);
    SubstringOutcome(g, x, z, heap, fuel);
    assert Exec(g, n, z, heap, fuel) == ExecBra(g, n, 0, z, heap, fuel);
  }
}
