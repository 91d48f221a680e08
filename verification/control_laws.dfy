/** Laws of the evaluator's control constructs: what `repeat`, `or`, `and` and
    bracketed sequences do with the signal and the cursor, how they split over
    concatenated operand lists, and that a larger budget never changes a result
    that was reached. */
module ControlLaws {
  import opened Faults
  import opened Runtime
  import opened Ast
  import opened Interpreter

  /** `repeat` never fails: it stops at the first failing iteration and succeeds. */
  lemma {:induction false} RepeatNeverFails(g: Program, body: Node, z: Env, heap: nat, fuel: nat)
    requires Ready(g, Repeat(body), z)
    ensures var r := Exec(g, Repeat(body), z, heap, fuel);
            r.Ok? ==> r.value.0
    decreases fuel
  {
    var step := Exec(g, body, z, heap, fuel);
    if step.Ok? && step.value.0 && fuel > 0 {
      RepeatNeverFails(g, body, step.value.1, heap, fuel - 1);
      assert Exec(g, Repeat(body), step.value.1, heap, fuel - 1) ==
             ExecRepeat(g, Repeat(body), step.value.1, heap, fuel - 1);
    }
  }

  /** The iteration that fails has its cursor move undone, and nothing else. */
  lemma RepeatStopsWhereBodyFails(g: Program, body: Node, z: Env, heap: nat, fuel: nat)
    requires Ready(g, Repeat(body), z)
    requires Exec(g, body, z, heap, fuel).Ok? && !Exec(g, body, z, heap, fuel).value.0
    ensures Exec(g, Repeat(body), z, heap, fuel) ==
            Ok((true, Exec(g, body, z, heap, fuel).value.1.(c := z.c)))
  {
  }

  /** An iteration that succeeds is kept, cursor included, and the loop goes on from
      where it left off, spending one unit of budget; with no budget left, the run
      ends in `OutOfFuel`. A fault of the body is the loop's fault. Together with
      `RepeatStopsWhereBodyFails` this says which cursor the loop restores: the one
      saved before the iteration that failed, however many succeeded first. */
  lemma RepeatContinues(g: Program, body: Node, z: Env, heap: nat, fuel: nat)
    requires Ready(g, Repeat(body), z)
    ensures var s := Exec(g, body, z, heap, fuel);
            s.Err? ==> Exec(g, Repeat(body), z, heap, fuel) == s
    ensures var s := Exec(g, body, z, heap, fuel);
            s.Ok? && s.value.0 && fuel == 0 ==>
              Exec(g, Repeat(body), z, heap, fuel) == Err(OutOfFuel)
    ensures var s := Exec(g, body, z, heap, fuel);
            s.Ok? && s.value.0 && fuel > 0 ==>
              Ready(g, Repeat(body), s.value.1) &&
              Exec(g, Repeat(body), z, heap, fuel) == Exec(g, Repeat(body), s.value.1, heap, fuel - 1)
  {
  }

  lemma {:induction false} OrFailureFrom(g: Program, n: Node, k: nat, z: Env, heap: nat, fuel: nat)
    requires n.Or? && k <= |n.children| && Ready(g, n, z)
    ensures var r := ExecOr(g, n, k, z, heap, fuel);
            r.Ok? && !r.value.0 ==> r.value.1.c == z.c
    decreases |n.children| - k
  {
    if k < |n.children| {
      var step := Exec(g, n.children[k], z, heap, fuel);
      if step.Ok? && !step.value.0 {
        OrFailureFrom(g, n, k + 1, step.value.1.(c := z.c), heap, fuel);
      }
    }
  }

  /** A failed `or` leaves the cursor where it found it. */
  lemma OrFailureKeepsCursor(g: Program, cs: seq<Node>, z: Env, heap: nat, fuel: nat)
    requires Ready(g, Or(cs), z)
    ensures var r := Exec(g, Or(cs), z, heap, fuel);
            r.Ok? && !r.value.0 ==> r.value.1.c == z.c
  {
    OrFailureFrom(g, Or(cs), 0, z, heap, fuel);
  }

  lemma {:induction false} AndSuccessFrom(g: Program, n: Node, k: nat, z: Env, heap: nat, fuel: nat)
    requires n.And? && k <= |n.children| && Ready(g, n, z)
    ensures var r := ExecAnd(g, n, k, z, heap, fuel);
            r.Ok? && r.value.0 ==> r.value.1.c == z.c
    decreases |n.children| - k
  {
    if k < |n.children| {
      var step := Exec(g, n.children[k], z, heap, fuel);
      if step.Ok? && step.value.0 {
        AndSuccessFrom(g, n, k + 1, step.value.1.(c := z.c), heap, fuel);
      }
    }
  }

  /** A successful `and` leaves the cursor where it found it: every operand is a
      test at the same position. */
  lemma AndSuccessKeepsCursor(g: Program, cs: seq<Node>, z: Env, heap: nat, fuel: nat)
    requires Ready(g, And(cs), z)
    ensures var r := Exec(g, And(cs), z, heap, fuel);
            r.Ok? && r.value.0 ==> r.value.1.c == z.c
  {
    AndSuccessFrom(g, And(cs), 0, z, heap, fuel);
  }

  /** Running the operands `xs + ys` from position `|xs| + m` is running `ys` from `m`. */
  lemma {:induction false} BraTail(g: Program, xs: seq<Node>, ys: seq<Node>, m: nat, z: Env, heap: nat, fuel: nat)
    requires m <= |ys| && Ready(g, Bra(xs + ys), z) && Ready(g, Bra(ys), z)
    ensures ExecBra(g, Bra(xs + ys), |xs| + m, z, heap, fuel) == ExecBra(g, Bra(ys), m, z, heap, fuel)
    decreases |ys| - m
  {
    if m < |ys| {
      assert (xs + ys)[|xs| + m] == ys[m];
      var step := Exec(g, ys[m], z, heap, fuel);
      if step.Ok? && step.value.0 {
        BraTail(g, xs, ys, m + 1, step.value.1, heap, fuel);
      }
    }
  }

  lemma {:induction false} BraSplitFrom(g: Program, xs: seq<Node>, ys: seq<Node>, k: nat, z: Env, heap: nat, fuel: nat)
    requires k <= |xs| && Ready(g, Bra(xs + ys), z) && Ready(g, Bra(xs), z) && Ready(g, Bra(ys), z)
    ensures var r := ExecBra(g, Bra(xs), k, z, heap, fuel);
            ExecBra(g, Bra(xs + ys), k, z, heap, fuel) ==
              if r.Ok? && r.value.0 then ExecBra(g, Bra(ys), 0, r.value.1, heap, fuel) else r
    decreases |xs| - k
  {
    if k == |xs| {
      BraTail(g, xs, ys, 0, z, heap, fuel);
    } else {
      assert (xs + ys)[k] == xs[k];
      var step := Exec(g, xs[k], z, heap, fuel);
      if step.Ok? && step.value.0 {
        assert ExecBra(g, Bra(xs), k, z, heap, fuel) == ExecBra(g, Bra(xs), k + 1, step.value.1, heap, fuel);
        assert ExecBra(g, Bra(xs + ys), k, z, heap, fuel) == ExecBra(g, Bra(xs + ys), k + 1, step.value.1, heap, fuel);
        BraSplitFrom(g, xs, ys, k + 1, step.value.1, heap, fuel);
      } else {
        assert ExecBra(g, Bra(xs), k, z, heap, fuel) == step;
        assert ExecBra(g, Bra(xs + ys), k, z, heap, fuel) == step;
      }
    }
  }

  /** A bracketed sequence of `xs + ys` runs `xs`, then, if that succeeded, `ys`
      from where `xs` left off. */
  lemma BraSplit(g: Program, xs: seq<Node>, ys: seq<Node>, z: Env, heap: nat, fuel: nat)
    requires Ready(g, Bra(xs + ys), z) && Ready(g, Bra(xs), z) && Ready(g, Bra(ys), z)
    ensures var r := Exec(g, Bra(xs), z, heap, fuel);
            Exec(g, Bra(xs + ys), z, heap, fuel) ==
              if r.Ok? && r.value.0 then Exec(g, Bra(ys), r.value.1, heap, fuel) else r
  {
    BraSplitFrom(g, xs, ys, 0, z, heap, fuel);
  }

  /** Running the operands `xs + ys` of an `and` from position `|xs| + m` is running
      `ys` from `m`. */
  lemma {:induction false} AndTail(g: Program, xs: seq<Node>, ys: seq<Node>, m: nat, z: Env, heap: nat, fuel: nat)
    requires m <= |ys| && Ready(g, And(xs + ys), z) && Ready(g, And(ys), z)
    ensures ExecAnd(g, And(xs + ys), |xs| + m, z, heap, fuel) == ExecAnd(g, And(ys), m, z, heap, fuel)
    decreases |ys| - m
  {
    if m < |ys| {
      assert (xs + ys)[|xs| + m] == ys[m];
      var step := Exec(g, ys[m], z, heap, fuel);
      if step.Ok? && step.value.0 {
        AndTail(g, xs, ys, m + 1, step.value.1.(c := z.c), heap, fuel);
      }
    }
  }

  lemma {:induction false} AndSplitFrom(g: Program, xs: seq<Node>, ys: seq<Node>, k: nat, z: Env, heap: nat, fuel: nat)
    requires k <= |xs| && Ready(g, And(xs + ys), z) && Ready(g, And(xs), z) && Ready(g, And(ys), z)
    ensures var r := ExecAnd(g, And(xs), k, z, heap, fuel);
            ExecAnd(g, And(xs + ys), k, z, heap, fuel) ==
              if r.Ok? && r.value.0 then ExecAnd(g, And(ys), 0, r.value.1.(c := z.c), heap, fuel) else r
    decreases |xs| - k
  {
    if k == |xs| {
      AndTail(g, xs, ys, 0, z, heap, fuel);
    } else {
      assert (xs + ys)[k] == xs[k];
      var step := Exec(g, xs[k], z, heap, fuel);
      if step.Ok? && step.value.0 {
        AndSplitFrom(g, xs, ys, k + 1, step.value.1.(c := z.c), heap, fuel);
      }
    }
  }

  /** An `and` of `xs + ys` runs the operands `xs`; only when all of them succeeded
      does it go on to `ys`, from the cursor it started at. A failure or a fault in
      `xs` is the outcome, and `ys` does not run. */
  lemma AndSplit(g: Program, xs: seq<Node>, ys: seq<Node>, z: Env, heap: nat, fuel: nat)
    requires Ready(g, And(xs + ys), z) && Ready(g, And(xs), z) && Ready(g, And(ys), z)
    ensures var r := Exec(g, And(xs), z, heap, fuel);
            Exec(g, And(xs + ys), z, heap, fuel) ==
              if r.Ok? && r.value.0 then Exec(g, And(ys), r.value.1, heap, fuel) else r
    ensures var r := Exec(g, And(xs), z, heap, fuel);
            r.Ok? && r.value.0 ==> r.value.1.c == z.c
  {
    AndSplitFrom(g, xs, ys, 0, z, heap, fuel);
    AndSuccessKeepsCursor(g, xs, z, heap, fuel);
  }

  /** The first operand of an `and` runs from the command's cursor. If it fails or
      faults, that is the outcome, with the environment it left and no further
      operand run; if it succeeds, its cursor move is undone and the remaining
      operands run as an `and` of their own. */
  lemma AndFirst(g: Program, x: Node, ys: seq<Node>, z: Env, heap: nat, fuel: nat)
    requires Ready(g, And([x] + ys), z)
    ensures Ready(g, x, z)
    ensures var s := Exec(g, x, z, heap, fuel);
            s.Ok? && s.value.0 ==> Ready(g, And(ys), s.value.1.(c := z.c))
    ensures var s := Exec(g, x, z, heap, fuel);
            Exec(g, And([x] + ys), z, heap, fuel) ==
              if s.Ok? && s.value.0 then Exec(g, And(ys), s.value.1.(c := z.c), heap, fuel) else s
  {
    var n := And([x] + ys);
    assert n.children[0] == x;
    assert forall k | 0 <= k < |ys| :: ys[k] == n.children[k + 1];
    assert Ready(g, And([x]), z) && Ready(g, And(ys), z);
    AndSplit(g, [x], ys, z, heap, fuel);
    var s := Exec(g, x, z, heap, fuel);
    var one := And([x]);
    assert Exec(g, one, z, heap, fuel) == ExecAnd(g, one, 0, z, heap, fuel);
    if s.Ok? && s.value.0 {
      assert ExecAnd(g, one, 0, z, heap, fuel) == ExecAnd(g, one, 1, s.value.1.(c := z.c), heap, fuel);
    }
  }

  /** A single failing operand makes the whole `and` fail with its environment. */
  lemma AndStopsAtFailure(g: Program, x: Node, ys: seq<Node>, z: Env, z': Env, heap: nat, fuel: nat)
    requires Ready(g, And([x] + ys), z) && Ready(g, x, z) && Exec(g, x, z, heap, fuel) == Ok((false, z'))
    ensures Exec(g, And([x] + ys), z, heap, fuel) == Ok((false, z'))
  {
    AndFirst(g, x, ys, z, heap, fuel);
  }

  lemma {:induction false} OrTail(g: Program, xs: seq<Node>, ys: seq<Node>, m: nat, z: Env, heap: nat, fuel: nat)
    requires m <= |ys| && Ready(g, Or(xs + ys), z) && Ready(g, Or(ys), z)
    ensures ExecOr(g, Or(xs + ys), |xs| + m, z, heap, fuel) == ExecOr(g, Or(ys), m, z, heap, fuel)
    decreases |ys| - m
  {
    if m < |ys| {
      assert (xs + ys)[|xs| + m] == ys[m];
      var step := Exec(g, ys[m], z, heap, fuel);
      if step.Ok? && !step.value.0 {
        OrTail(g, xs, ys, m + 1, step.value.1.(c := z.c), heap, fuel);
      }
    }
  }

  lemma {:induction false} OrSplitFrom(g: Program, xs: seq<Node>, ys: seq<Node>, k: nat, z: Env, heap: nat, fuel: nat)
    requires k <= |xs| && Ready(g, Or(xs + ys), z) && Ready(g, Or(xs), z) && Ready(g, Or(ys), z)
    ensures var r := ExecOr(g, Or(xs), k, z, heap, fuel);
            ExecOr(g, Or(xs + ys), k, z, heap, fuel) ==
              if r.Ok? && !r.value.0 then ExecOr(g, Or(ys), 0, r.value.1, heap, fuel) else r
    decreases |xs| - k
  {
    if k == |xs| {
      OrTail(g, xs, ys, 0, z, heap, fuel);
    } else {
      assert (xs + ys)[k] == xs[k];
      var step := Exec(g, xs[k], z, heap, fuel);
      if step.Ok? && !step.value.0 {
        OrSplitFrom(g, xs, ys, k + 1, step.value.1.(c := z.c), heap, fuel);
      }
    }
  }

  /** An `or` of `xs + ys` tries the alternatives `xs`; only when all of them failed
      does it go on to `ys`, from the cursor it started at. */
  lemma OrSplit(g: Program, xs: seq<Node>, ys: seq<Node>, z: Env, heap: nat, fuel: nat)
    requires Ready(g, Or(xs + ys), z) && Ready(g, Or(xs), z) && Ready(g, Or(ys), z)
    ensures var r := Exec(g, Or(xs), z, heap, fuel);
            Exec(g, Or(xs + ys), z, heap, fuel) ==
              if r.Ok? && !r.value.0 then Exec(g, Or(ys), r.value.1, heap, fuel) else r
    ensures var r := Exec(g, Or(xs), z, heap, fuel);
            r.Ok? && !r.value.0 ==> r.value.1.c == z.c
  {
    OrSplitFrom(g, xs, ys, 0, z, heap, fuel);
    OrFailureKeepsCursor(g, xs, z, heap, fuel);
  }

  /** The first alternative of an `or` runs from the command's cursor. If it succeeds
      or faults, that is the outcome; if it fails, its cursor move is undone and the
      remaining alternatives run as an `or` of their own. */
  lemma OrFirst(g: Program, x: Node, ys: seq<Node>, z: Env, heap: nat, fuel: nat)
    requires Ready(g, Or([x] + ys), z)
    ensures Ready(g, x, z)
    ensures var s := Exec(g, x, z, heap, fuel);
            s.Ok? && !s.value.0 ==> Ready(g, Or(ys), s.value.1.(c := z.c))
    ensures var s := Exec(g, x, z, heap, fuel);
            Exec(g, Or([x] + ys), z, heap, fuel) ==
              if s.Ok? && !s.value.0 then Exec(g, Or(ys), s.value.1.(c := z.c), heap, fuel) else s
  {
    var n := Or([x] + ys);
    assert n.children[0] == x;
    assert forall k | 0 <= k < |ys| :: ys[k] == n.children[k + 1];
    assert Ready(g, Or([x]), z) && Ready(g, Or(ys), z);
    OrSplit(g, [x], ys, z, heap, fuel);
    var s := Exec(g, x, z, heap, fuel);
    var one := Or([x]);
    assert Exec(g, one, z, heap, fuel) == ExecOr(g, one, 0, z, heap, fuel);
    if s.Ok? && !s.value.0 {
      assert ExecOr(g, one, 0, z, heap, fuel) == ExecOr(g, one, 1, s.value.1.(c := z.c), heap, fuel);
    }
  }

  /** A result other than running out of budget stays the same with more budget. */
  lemma {:induction false} FuelMonotone(g: Program, n: Node, z: Env, heap: nat, fuel: nat, more: nat)
    requires Ready(g, n, z) && fuel <= more
    requires Exec(g, n, z, heap, fuel) != Err(OutOfFuel)
    ensures Exec(g, n, z, heap, more) == Exec(g, n, z, heap, fuel)
    decreases fuel, n, 1
  {
    match n
    case Repeat(_) => FuelMonotoneRepeat(g, n, z, heap, fuel, more);
    case Or(_) => FuelMonotoneOr(g, n, 0, z, heap, fuel, more);
    case And(_) => FuelMonotoneAnd(g, n, 0, z, heap, fuel, more);
    case Bra(_) => FuelMonotoneBra(g, n, 0, z, heap, fuel, more);
    case Call(v) =>
      if fuel > 0 {
        FuelMonotone(g, g.defs[v.definition], z, heap, fuel - 1, more - 1);
      }
    case Among(_, _, _, cs, _) =>
      var k := AmongSelect(n, z.amongVar);
      if k.Ok? {
        FuelMonotone(g, cs[k.value], z, heap, fuel, more);
      }
    case _ =>
  }

  lemma {:induction false} FuelMonotoneRepeat(g: Program, n: Node, z: Env, heap: nat, fuel: nat, more: nat)
    requires n.Repeat? && Ready(g, n, z) && fuel <= more
    requires ExecRepeat(g, n, z, heap, fuel) != Err(OutOfFuel)
    ensures ExecRepeat(g, n, z, heap, more) == ExecRepeat(g, n, z, heap, fuel)
    decreases fuel, n, 0
  {
    FuelMonotone(g, n.body, z, heap, fuel, more);
    var step := Exec(g, n.body, z, heap, fuel);
    if step.Ok? && step.value.0 && fuel > 0 {
      FuelMonotoneRepeat(g, n, step.value.1, heap, fuel - 1, more - 1);
    }
  }

  lemma {:induction false} FuelMonotoneOr(g: Program, n: Node, k: nat, z: Env, heap: nat, fuel: nat, more: nat)
    requires n.Or? && k <= |n.children| && Ready(g, n, z) && fuel <= more
    requires ExecOr(g, n, k, z, heap, fuel) != Err(OutOfFuel)
    ensures ExecOr(g, n, k, z, heap, more) == ExecOr(g, n, k, z, heap, fuel)
    decreases fuel, n, 0, |n.children| - k
  {
    if k < |n.children| {
      FuelMonotone(g, n.children[k], z, heap, fuel, more);
      var step := Exec(g, n.children[k], z, heap, fuel);
      if step.Ok? && !step.value.0 {
        FuelMonotoneOr(g, n, k + 1, step.value.1.(c := z.c), heap, fuel, more);
      }
    }
  }

  lemma {:induction false} FuelMonotoneAnd(g: Program, n: Node, k: nat, z: Env, heap: nat, fuel: nat, more: nat)
    requires n.And? && k <= |n.children| && Ready(g, n, z) && fuel <= more
    requires ExecAnd(g, n, k, z, heap, fuel) != Err(OutOfFuel)
    ensures ExecAnd(g, n, k, z, heap, more) == ExecAnd(g, n, k, z, heap, fuel)
    decreases fuel, n, 0, |n.children| - k
  {
    if k < |n.children| {
      FuelMonotone(g, n.children[k], z, heap, fuel, more);
      var step := Exec(g, n.children[k], z, heap, fuel);
      if step.Ok? && step.value.0 {
        FuelMonotoneAnd(g, n, k + 1, step.value.1.(c := z.c), heap, fuel, more);
      }
    }
  }

  lemma {:induction false} FuelMonotoneBra(g: Program, n: Node, k: nat, z: Env, heap: nat, fuel: nat, more: nat)
    requires n.Bra? && k <= |n.children| && Ready(g, n, z) && fuel <= more
    requires ExecBra(g, n, k, z, heap, fuel) != Err(OutOfFuel)
    ensures ExecBra(g, n, k, z, heap, more) == ExecBra(g, n, k, z, heap, fuel)
    decreases fuel, n, 0, |n.children| - k
  {
    if k < |n.children| {
      FuelMonotone(g, n.children[k], z, heap, fuel, more);
      var step := Exec(g, n.children[k], z, heap, fuel);
      if step.Ok? && step.value.0 {
        FuelMonotoneBra(g, n, k + 1, step.value.1, heap, fuel, more);
      }
    }
  }

  /** A command with no `<-` in it, in a program whose routines have none, leaves
      the text, the capacity and the limit as they were: only slice replacement
      writes the buffer. */
  lemma {:induction false} ReadOnlyKeepsText(g: Program, n: Node, z: Env, heap: nat, fuel: nat)
    requires Ready(g, n, z) && ReadOnly(g) && !Edits(n)
    ensures var r := Exec(g, n, z, heap, fuel);
            r.Ok? ==> SameText(z, r.value.1)
    decreases fuel, n, 1
  {
    match n
    case Repeat(_) => ReadOnlyKeepsTextRepeat(g, n, z, heap, fuel);
    case Or(_) => ReadOnlyKeepsTextOr(g, n, 0, z, heap, fuel);
    case And(_) => ReadOnlyKeepsTextAnd(g, n, 0, z, heap, fuel);
    case Bra(_) => ReadOnlyKeepsTextBra(g, n, 0, z, heap, fuel);
    case Call(v) =>
      if fuel > 0 {
        ReadOnlyKeepsText(g, g.defs[v.definition], z, heap, fuel - 1);
      }
    case Among(_, _, _, cs, _) =>
      var k := AmongSelect(n, z.amongVar);
      if k.Ok? {
        ReadOnlyKeepsText(g, cs[k.value], z, heap, fuel);
      }
    case _ =>
  }

  lemma {:induction false} ReadOnlyKeepsTextRepeat(g: Program, n: Node, z: Env, heap: nat, fuel: nat)
    requires n.Repeat? && Ready(g, n, z) && ReadOnly(g) && !Edits(n)
    ensures var r := ExecRepeat(g, n, z, heap, fuel);
            r.Ok? ==> SameText(z, r.value.1)
    decreases fuel, n, 0
  {
    ReadOnlyKeepsText(g, n.body, z, heap, fuel);
    var step := Exec(g, n.body, z, heap, fuel);
    if step.Ok? && step.value.0 && fuel > 0 {
      ReadOnlyKeepsTextRepeat(g, n, step.value.1, heap, fuel - 1);
    }
  }

  lemma {:induction false} ReadOnlyKeepsTextOr(g: Program, n: Node, k: nat, z: Env, heap: nat, fuel: nat)
    requires n.Or? && k <= |n.children| && Ready(g, n, z) && ReadOnly(g) && !Edits(n)
    ensures var r := ExecOr(g, n, k, z, heap, fuel);
            r.Ok? ==> SameText(z, r.value.1)
    decreases fuel, n, 0, |n.children| - k
  {
    if k < |n.children| {
      ReadOnlyKeepsText(g, n.children[k], z, heap, fuel);
      var step := Exec(g, n.children[k], z, heap, fuel);
      if step.Ok? && !step.value.0 {
        ReadOnlyKeepsTextOr(g, n, k + 1, step.value.1.(c := z.c), heap, fuel);
      }
    }
  }

  lemma {:induction false} ReadOnlyKeepsTextAnd(g: Program, n: Node, k: nat, z: Env, heap: nat, fuel: nat)
    requires n.And? && k <= |n.children| && Ready(g, n, z) && ReadOnly(g) && !Edits(n)
    ensures var r := ExecAnd(g, n, k, z, heap, fuel);
            r.Ok? ==> SameText(z, r.value.1)
    decreases fuel, n, 0, |n.children| - k
  {
    if k < |n.children| {
      ReadOnlyKeepsText(g, n.children[k], z, heap, fuel);
      var step := Exec(g, n.children[k], z, heap, fuel);
      if step.Ok? && step.value.0 {
        ReadOnlyKeepsTextAnd(g, n, k + 1, step.value.1.(c := z.c), heap, fuel);
      }
    }
  }

  lemma {:induction false} ReadOnlyKeepsTextBra(g: Program, n: Node, k: nat, z: Env, heap: nat, fuel: nat)
    requires n.Bra? && k <= |n.children| && Ready(g, n, z) && ReadOnly(g) && !Edits(n)
    ensures var r := ExecBra(g, n, k, z, heap, fuel);
            r.Ok? ==> SameText(z, r.value.1)
    decreases fuel, n, 0, |n.children| - k
  {
    if k < |n.children| {
      ReadOnlyKeepsText(g, n.children[k], z, heap, fuel);
      var step := Exec(g, n.children[k], z, heap, fuel);
      if step.Ok? && step.value.0 {
        ReadOnlyKeepsTextBra(g, n, k + 1, step.value.1, heap, fuel);
      }
    }
  }
}
