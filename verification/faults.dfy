/** Fatal conditions of the interpreter and the Result type that carries them.

    A pattern-match failure is never a fault: it is the `false` half of a command's
    outcome. A fault ends the run. Most faults are the source's `exit(1)` and failing
    `assert`s; `OutOfMemory`, `UndefinedBehaviour`, `Unmodelled` and `OutOfFuel` mark
    where the model stops a run that the source would continue.
 */
module Faults {

  datatype Fault =
      /** a variable whose slot the analyser optimised away (slot index -1) */
    | OptimisedOut(name: string)
      /** a command node kind the evaluator has no case for */
    | UnsupportedCommand(kind: string)
      /** an arithmetic-expression kind the evaluator has no case for */
    | UnsupportedExpression(kind: string)
      /** a branch the source marks as not implemented (an `assert(0)` TODO) */
    | NotImplemented(at: Site)
      /** a runtime assertion of the source that does not hold */
    | AssertionFailed(at: Site)
      /** a read the source performs outside its arrays (undefined behaviour in C) */
    | UndefinedBehaviour(at: Site)
      /** a read the model does not follow: the source compares symbols beyond the
          text, which are left over in the allocation or lie past it */
    | Unmodelled(at: Site)
      /** no external routine called `stem` */
    | MissingStem
      /** `slice_check` rejected the bracket markers (a -1 return, not fatal by itself) */
    | InvalidSlice
      /** the buffer could not grow to the size a replacement needs */
    | OutOfMemory
      /** the evaluation budget ran out before a result was reached */
    | OutOfFuel

  /** Where a fault without a name of its own arises. */
  datatype Site =
      /** `find_among` selected a candidate that carries a routine */
    | AmongEntryRoutine
      /** a variable of a kind other than integer read in an expression */
    | ReadNonInteger
      /** a variable of a kind other than integer assigned */
    | AssignNonInteger
      /** the four shapes of `among` the evaluator does not dispatch */
    | AmongWithoutSubstring
    | AmongWithStarter
    | AmongSingleCommand
    | AmongWithoutCommands
      /** `among` whose outcome the analyser did not ask to record */
    | AmongVarNotNeeded
      /** a recorded outcome beyond the command list */
    | AmongVarTooLarge
      /** a recorded outcome of 0 or less, which would index before the command list */
    | AmongVarBelowOne
      /** a command evaluated in backward mode */
    | BackwardLeftSlice
    | BackwardRightSlice
    | BackwardSubstring
    | BackwardAtLimit
      /** `find_among` entered with the cursor past the limit, with a candidate that
          reaches beyond the end of the text */
    | ReadPastText

  datatype Option<+T> = None | Some(value: T)

  /** Success carrying a value, or a fault. Usable with `:-`. */
  datatype Result<+T> = Ok(value: T) | Err(fault: Fault) {

    predicate IsFailure() {
      Err?
    }

    function PropagateFailure<U>(): Result<U>
      requires Err?
    {
      Err(fault)
    }

    function Extract(): T
      requires Ok?
    {
      value
    }
  }
}
