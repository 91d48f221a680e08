/** The parsed program the interpreter walks: names, arithmetic expressions and
    command nodes, with the shape the analyser guarantees before interpretation.

    In the source a node links its operands through `left`/`right` pointers; here
    each sequencing construct holds its operands as a sequence, in order. */
module Ast {
  import opened AmongMatcher

  /** A node's direction. Only forward mode is interpreted. */
  datatype Mode = Forward | Backward

  datatype NameKind = TString | TInteger | TBoolean | TRoutine | TExternal | TGrouping

  /** A declared name: its type, its spelling, its slot (`count`; negative when the
      analyser optimised the variable away) and, for a routine or external, the
      index of its definition among the program's definitions. */
  datatype Name = Name(kind: NameKind, text: string, count: int, definition: int)

  /** An arithmetic expression. `OtherAE` stands for every expression kind the
      evaluator has no case for (`+`, `len`, `limit`, ...). */
  datatype AE = Number(n: int) | Var(name: Name) | OtherAE(kind: string)

  /** An among table and whether its outcome is recorded in `among_var`. */
  datatype AmongTable = AmongTable(entries: seq<AmongEntry>, amongVarNeeded: bool)

  datatype Node =
    | Repeat(body: Node)
    | Or(children: seq<Node>)
    | And(children: seq<Node>)
    | Bra(children: seq<Node>)
    | LeftSlice(mode: Mode)
    | RightSlice(mode: Mode)
    | LiteralString(literal: seq<int>)
    | SliceFrom(literal: seq<int>)
    | True
    | False
    | MathAssign(target: Name, ae: AE)
    | Eq(left: AE, ae: AE)
    | Call(routine: Name)
    | Substring(mode: Mode, among: AmongTable)
      /** `among(...)`: whether a `substring` precedes it, whether it has a starter
          command, its per-outcome commands and how many of its outcomes have none. */
    | Among(among: AmongTable, hasSubstring: bool, hasStarter: bool,
            commands: seq<Node>, nocommandCount: nat)
    | AtLimit(mode: Mode)
      /** every other command kind (`delete`, `setmark`, `hop`, `next`, ...) */
    | Unsupported(kind: string)

  /** The analyser's name list, in the order the analyser keeps it, and the
      routine bodies. */
  datatype Program = Program(names: seq<Name>, defs: seq<Node>)

  /** An integer variable's slot, when it has one, lies among the `slots` allocated. */
  predicate SlotOk(v: Name, slots: nat) {
    v.kind == TInteger ==> v.count < slots
  }

  predicate AEOk(e: AE, slots: nat) {
    e.Var? ==> SlotOk(e.name, slots)
  }

  /** What the analyser guarantees of a node: slots in range, every call resolved to
      a definition, and every substring table sorted with consistent fail-skip
      links. */
  predicate NodeOk(n: Node, defs: nat, slots: nat) {
    match n
    case Repeat(b) => NodeOk(b, defs, slots)
    case Or(cs) => forall k | 0 <= k < |cs| :: NodeOk(cs[k], defs, slots)
    case And(cs) => forall k | 0 <= k < |cs| :: NodeOk(cs[k], defs, slots)
    case Bra(cs) => forall k | 0 <= k < |cs| :: NodeOk(cs[k], defs, slots)
    case MathAssign(v, e) => SlotOk(v, slots) && AEOk(e, slots)
    case Eq(a, b) => AEOk(a, slots) && AEOk(b, slots)
    case Call(r) => 0 <= r.definition < defs
    case Substring(_, x) => WellFormedTable(x.entries)
    case Among(_, _, _, cs, _) => forall k | 0 <= k < |cs| :: NodeOk(cs[k], defs, slots)
    case _ => true
  }

  predicate ProgramOk(g: Program, slots: nat) {
    (forall k | 0 <= k < |g.defs| :: NodeOk(g.defs[k], |g.defs|, slots)) &&
    (forall k | 0 <= k < |g.names| && g.names[k].kind == TExternal ::
       0 <= g.names[k].definition < |g.defs|)
  }

  /** The node, or one of its operands, replaces a slice: the only commands that
      write the text buffer. Calls are not followed; see `ReadOnly`. */
  predicate Edits(n: Node) {
    match n
    case SliceFrom(_) => true
    case Repeat(b) => Edits(b)
    case Or(cs) => exists k | 0 <= k < |cs| :: Edits(cs[k])
    case And(cs) => exists k | 0 <= k < |cs| :: Edits(cs[k])
    case Bra(cs) => exists k | 0 <= k < |cs| :: Edits(cs[k])
    case Among(_, _, _, cs, _) => exists k | 0 <= k < |cs| :: Edits(cs[k])
    case _ => false
  }

  /** No routine of the program edits the text. */
  predicate ReadOnly(g: Program) {
    forall k | 0 <= k < |g.defs| :: !Edits(g.defs[k])
  }
}
