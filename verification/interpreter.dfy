/** The tree-walking evaluator: arithmetic expressions, commands, the lookup of
    the `stem` entry point and the top-level run.

    A command yields a signal (`true` for success, `false` for a failed match) and
    the environment after it. Faults end the run. `fuel` bounds the number of
    routine calls and `repeat` iterations, so that a run of a diverging program
    ends in `OutOfFuel`; `heap` is passed on to buffer growth. */
module Interpreter {
  import opened Faults
  import opened Runtime
  import opened SymbolBuffer
  import opened AmongMatcher
  import opened Ast

  /** What no command changes: the environment invariant and the number of integer
      and string slots; string variables are never written. */
  predicate Keeps(z: Env, z': Env) {
    Valid(z') && |z'.I| == |z.I| && z'.S == z.S
  }

  /** The text buffer and the limit are as they were. */
  predicate SameText(z: Env, z': Env) {
    z'.p == z.p && z'.capacity == z.capacity && z'.l == z.l
  }

  /** `interpret_AE`. */
  function EvalAE(e: AE, z: Env): (r: Result<int>)
    requires AEOk(e, |z.I|)
    ensures e.Number? ==> r == Ok(e.n)
    ensures e.Var? && e.name.kind == TInteger && 0 <= e.name.count ==> r == Ok(z.I[e.name.count])
    ensures r.Err? <==> e.OtherAE? || (e.Var? && (e.name.kind != TInteger || e.name.count < 0))
    ensures e.Var? && e.name.kind == TInteger && e.name.count < 0 ==>
              r == Err(OptimisedOut(e.name.text))
  {
    match e
    case Number(n) => Ok(n)
    case Var(v) =>
      if v.kind != TInteger then Err(NotImplemented(ReadNonInteger))
      else if v.count < 0 then Err(OptimisedOut(v.text))
      else Ok(z.I[v.count])
    case OtherAE(kind) => Err(UnsupportedExpression(kind))
  }

  /** What the evaluator needs of its input: a valid environment and a program the
      analyser accepted. */
  predicate Ready(g: Program, n: Node, z: Env) {
    Valid(z) && ProgramOk(g, |z.I|) && NodeOk(n, |g.defs|, |z.I|)
  }

  /** The commands that neither sequence other commands nor call routines. */
  predicate IsPrimitive(n: Node) {
    !(n.Repeat? || n.Or? || n.And? || n.Bra? || n.Call? || n.Among?)
  }

  /** `interpret_command`: the composite commands, `call` and the dispatch of
      `among`; every other command is a `Primitive` step. */
  function Exec(g: Program, n: Node, z: Env, heap: nat, fuel: nat): (r: Result<(bool, Env)>)
    requires Ready(g, n, z)
    ensures r.Ok? ==> Keeps(z, r.value.1)
    ensures r.Err? ==> r.fault != MissingStem && r.fault != InvalidSlice
    decreases fuel, n, 1
  {
    match n
    case Repeat(_) => ExecRepeat(g, n, z, heap, fuel)
    case Or(_) => ExecOr(g, n, 0, z, heap, fuel)
    case And(_) => ExecAnd(g, n, 0, z, heap, fuel)
    case Bra(_) => ExecBra(g, n, 0, z, heap, fuel)
    case Call(v) =>
      if fuel == 0 then Err(OutOfFuel)
      else Exec(g, g.defs[v.definition], z, heap, fuel - 1)
    case Among(_, _, _, cs, _) =>
      var k :- AmongSelect(n, z.amongVar);
      Exec(g, cs[k], z, heap, fuel)
    case _ => Primitive(n, z, heap)
  }

  /** The checks `among` makes before it dispatches: the index of the command the
      recorded outcome selects, or the fault that stops the run. Only a table that
      follows a `substring`, has no starter and has several commands dispatches;
      the other shapes are unimplemented branches. */
  function AmongSelect(n: Node, amongVar: int): (r: Result<nat>)
    requires n.Among?
    ensures r.Ok? <==>
              && n.hasSubstring && !n.hasStarter && |n.commands| > 0
              && !(|n.commands| == 1 && n.nocommandCount == 0)
              && n.among.amongVarNeeded && 1 <= amongVar <= |n.commands|
    ensures r.Ok? ==> r.value < |n.commands| && r.value + 1 == amongVar
    ensures !n.hasSubstring || n.hasStarter || |n.commands| == 0 || (|n.commands| == 1 && n.nocommandCount == 0) ==>
              r.Err? && r.fault.NotImplemented?
  {
    var cs := n.commands;
    if !n.hasSubstring then Err(NotImplemented(AmongWithoutSubstring))
    else if n.hasStarter then Err(NotImplemented(AmongWithStarter))
    else if |cs| == 1 && n.nocommandCount == 0 then Err(NotImplemented(AmongSingleCommand))
    else if |cs| == 0 then Err(NotImplemented(AmongWithoutCommands))
    else if !n.among.amongVarNeeded then Err(AssertionFailed(AmongVarNotNeeded))
    else if !(amongVar - 1 < |cs|) then Err(AssertionFailed(AmongVarTooLarge))
    else if amongVar < 1 then Err(UndefinedBehaviour(AmongVarBelowOne))
    else Ok(amongVar - 1)
  }

  /** `repeat`: run the body until it fails, then undo the failed iteration's cursor
      move and succeed. Each further iteration costs one unit of budget. */
  function ExecRepeat(g: Program, n: Node, z: Env, heap: nat, fuel: nat): (r: Result<(bool, Env)>)
    requires n.Repeat? && Ready(g, n, z)
    ensures r.Ok? ==> Keeps(z, r.value.1)
    ensures r.Err? ==> r.fault != MissingStem && r.fault != InvalidSlice
    decreases fuel, n, 0
  {
    var step :- Exec(g, n.body, z, heap, fuel);
    if !step.0 then Ok((true, step.1.(c := z.c)))
    else if fuel == 0 then Err(OutOfFuel)
    else ExecRepeat(g, n, step.1, heap, fuel - 1)
  }

  /** The cases of `interpret_command` for single commands. */
  function Primitive(n: Node, z: Env, heap: nat): (r: Result<(bool, Env)>)
    requires Valid(z) && IsPrimitive(n) && NodeOk(n, 0, |z.I|)
    ensures r.Ok? ==> Keeps(z, r.value.1)
    ensures r.Err? ==> r.fault != MissingStem && r.fault != InvalidSlice
    ensures r.Ok? && !n.SliceFrom? ==> SameText(z, r.value.1)
  {
    match n
    case LeftSlice(mode) =>
      if mode != Forward then Err(AssertionFailed(BackwardLeftSlice))
      else Ok((true, z.(bra := z.c)))
    case RightSlice(mode) =>
      if mode != Forward then Err(AssertionFailed(BackwardRightSlice))
      else Ok((true, z.(ket := z.c)))
    case LiteralString(s) => Ok(EqS(z, s))
    case SliceFrom(s) =>
      var edit := SliceFromS(z, s, heap);
      if edit.Ok? then Ok((true, edit.value))
      else if edit.fault == InvalidSlice then Ok((true, z))
      else Err(edit.fault)
    case True => Ok((true, z))
    case False => Ok((false, z))
    case MathAssign(v, e) =>
      if v.kind != TInteger then Err(NotImplemented(AssignNonInteger))
      else if v.count < 0 then Err(OptimisedOut(v.text))
      else
        var x :- EvalAE(e, z);
        Ok((true, z.(I := z.I[v.count := x])))
    case Eq(a, b) =>
      var x :- EvalAE(a, z);
      var y :- EvalAE(b, z);
      Ok((x == y, z))
    case Substring(mode, x) =>
      if mode != Forward then Err(AssertionFailed(BackwardSubstring))
      else if !InText(z, x.entries) then Err(Unmodelled(ReadPastText))
      else
        var found :- FindAmong(z, x.entries);
        var z' := if x.amongVarNeeded then found.1.(amongVar := found.0) else found.1;
        Ok((found.0 != 0, z'))
    case AtLimit(mode) =>
      if mode != Forward then Err(AssertionFailed(BackwardAtLimit))
      else Ok((!(z.c < z.l), z))
    case Unsupported(kind) => Err(UnsupportedCommand(kind))
  }

  /** `or` from its `k`-th operand on: each failed operand's cursor move is undone,
      and the first success ends the command. */
  function ExecOr(g: Program, n: Node, k: nat, z: Env, heap: nat, fuel: nat): (r: Result<(bool, Env)>)
    requires n.Or? && k <= |n.children| && Ready(g, n, z)
    ensures r.Ok? ==> Keeps(z, r.value.1)
    ensures r.Err? ==> r.fault != MissingStem && r.fault != InvalidSlice
    decreases fuel, n, 0, |n.children| - k
  {
    if k == |n.children| then Ok((false, z))
    else
      var step :- Exec(g, n.children[k], z, heap, fuel);
      if step.0 then Ok((true, step.1))
      else ExecOr(g, n, k + 1, step.1.(c := z.c), heap, fuel)
  }

  /** `and` from its `k`-th operand on: every operand starts at the cursor the
      command started at, and the first failure ends the command. */
  function ExecAnd(g: Program, n: Node, k: nat, z: Env, heap: nat, fuel: nat): (r: Result<(bool, Env)>)
    requires n.And? && k <= |n.children| && Ready(g, n, z)
    ensures r.Ok? ==> Keeps(z, r.value.1)
    ensures r.Err? ==> r.fault != MissingStem && r.fault != InvalidSlice
    ensures r.Ok? && r.value.0 ==> r.value.1.c == z.c
    decreases fuel, n, 0, |n.children| - k
  {
    if k == |n.children| then Ok((true, z))
    else
      var step :- Exec(g, n.children[k], z, heap, fuel);
      if !step.0 then Ok((false, step.1))
      else ExecAnd(g, n, k + 1, step.1.(c := z.c), heap, fuel)
  }

  /** A bracketed sequence from its `k`-th operand on: operands run one after the
      other, and the first failure ends the command. */
  function ExecBra(g: Program, n: Node, k: nat, z: Env, heap: nat, fuel: nat): (r: Result<(bool, Env)>)
    requires n.Bra? && k <= |n.children| && Ready(g, n, z)
    ensures r.Ok? ==> Keeps(z, r.value.1)
    ensures r.Err? ==> r.fault != MissingStem && r.fault != InvalidSlice
    decreases fuel, n, 0, |n.children| - k
  {
    if k == |n.children| then Ok((true, z))
    else
      var step :- Exec(g, n.children[k], z, heap, fuel);
      if !step.0 then Ok((false, step.1))
      else ExecBra(g, n, k + 1, step.1, heap, fuel)
  }

  predicate IsStem(q: Name) {
    q.kind == TExternal && q.text == "stem"
  }

  /** `find_stem` from position `k` of the name list on. */
  function FindStemFrom(names: seq<Name>, k: nat): (r: Option<nat>)
    requires k <= |names|
    ensures r.Some? ==> k <= r.value < |names| && IsStem(names[r.value])
    ensures r.Some? ==> forall j | k <= j < r.value :: !IsStem(names[j])
    ensures r.None? <==> forall j | k <= j < |names| :: !IsStem(names[j])
    decreases |names| - k
  {
    if k == |names| then None
    else if IsStem(names[k]) then Some(k)
    else FindStemFrom(names, k + 1)
  }

  /** `find_stem`: the first external called `stem` in the analyser's name list. */
  function FindStem(names: seq<Name>): (r: Option<nat>)
    ensures r.Some? ==> r.value < |names| && IsStem(names[r.value])
    ensures r.Some? ==> forall j | 0 <= j < r.value :: !IsStem(names[j])
    ensures r.None? <==> forall j | 0 <= j < |names| :: !IsStem(names[j])
  {
    FindStemFrom(names, 0)
  }

  /** `interpret`: run the body of the external `stem`, or stop when there is none. */
  function Interpret(g: Program, z: Env, heap: nat, fuel: nat): (r: Result<(bool, Env)>)
    requires Valid(z) && ProgramOk(g, |z.I|)
    ensures r == Err(MissingStem) <==> forall j | 0 <= j < |g.names| :: !IsStem(g.names[j])
    ensures r.Ok? ==> Keeps(z, r.value.1)
  {
    var stem := FindStem(g.names);
    if stem.None? then Err(MissingStem)
    else Exec(g, g.defs[g.names[stem.value].definition], z, heap, fuel)
  }

  /** When several externals are called `stem`, the first in the analyser's name
      list runs. */
  lemma InterpretRunsFirstStem(g: Program, z: Env, heap: nat, fuel: nat, j: nat)
    requires Valid(z) && ProgramOk(g, |z.I|)
    requires j < |g.names| && IsStem(g.names[j]) && forall i | 0 <= i < j :: !IsStem(g.names[i])
    ensures 0 <= g.names[j].definition < |g.defs|
    ensures Interpret(g, z, heap, fuel) == Exec(g, g.defs[g.names[j].definition], z, heap, fuel)
  {
    var stem := FindStem(g.names);
    assert stem.Some? && stem.value == j;
  }
}
