# Snowball tree-walking interpreter, modelled in Dafny

Snowball is a small string-processing language for writing stemmers. This project
models the core of its tree-walking interpreter (`compiler/interpreter.c`), plus
three string-view helpers from the coverage reporter (`cover.c`).

The interpreter walks a parsed program over an execution environment. That
environment holds:

- a symbol buffer;
- a cursor `c` and a forward limit `l`;
- two slice markers, `bra` and `ket`;
- integer/boolean slots `I` and string slots `S`;
- the last recorded among outcome.

The model is functional. The environment is an immutable `Env` record. Every
command is a function from an environment to `Result<(bool, Env)>`:

- `true` is a successful match and `false` is a failed match.
- An `Err` is either a condition on which the C code stops the run, or one of
  four the model adds where the C code would go on. The first kind are
  `exit(1)`, a failing `assert`, and `assert(0)` markers for cases not yet
  implemented; the model treats every `assert` as enabled. The second kind are
  `OutOfMemory` (the C code ignores the failed allocation), `UndefinedBehaviour`
  (the C code reads `commands[-1]`), `Unmodelled` (the C code compares symbols
  beyond the end of the text) and `OutOfFuel` (the C code never ends).

Modules, in dependency order:

- `Faults`: the fatal conditions and the `Result` / `Option` types.
- `Runtime`: `Env`, its invariant `Valid`, and `SN_create_env`.
- `SymbolBuffer`: `eq_s`, `increase_size`, `replace_s`, `slice_check` and
  `slice_from_s` / `slice_from_v`.
- `Lex`: the order among tables are sorted by, and longest-common-prefix facts.
- `AmongMatcher`: `find_among`. Its bisection loop and its fail-skip loop are
  tail-recursive functions. It is proved equal to a reference definition, "the
  longest table entry that begins the text between cursor and limit".
- `Ast`: names, arithmetic expressions, command nodes, and the front end's
  guarantees about them (`NodeOk`, `ProgramOk`).
- `Interpreter`: `interpret_AE`, `interpret_command`, `find_stem` and
  `interpret`.
- `ControlLaws` and `CommandLaws`: properties of the evaluator.
- `StringView`: `sv_chop_by_delim`, `sv_to_u64` and `sv_trim_left`.

Parameters and conventions:

- `heap` is the largest capacity the allocator can hand out. Growing a buffer
  beyond it is the `realloc` failure.
- `fuel` bounds the number of routine calls and `repeat` iterations. A run that
  does not end in C ends in `OutOfFuel` in the model.
- The symbol buffer is a `seq<int>`. Symbol width is fixed in a header that is not
  part of this model.

Behaviour of the code that the model follows as written:

- `atlimit` holds when `!(c < l)`, that is `c >= l`. It is not `c == l`. The two
  coincide only while the cursor is inside the scanned region.
- `and` restores the cursor after each operand that succeeded. After the operand
  that failed, it leaves the cursor where that operand put it.
- `among` with no preceding `substring`, with a starter command, or with no
  commands is an unimplemented branch. So is an `among` whose single command
  covers every outcome (`command_count == 1` and `nocommand_count == 0`). Every
  other shape dispatches on the recorded outcome, including one command plus
  outcomes without a command.
- The arithmetic expression `limit` has no case in `interpret_AE`. Like every other
  unhandled kind, it ends the run.
- Backward mode is refused by an `assert` in `substring`, `atlimit`, `[` and `]`.
  A literal string carries no such assert and is matched forward with `eq_s`
  whatever its mode. `not`, `hop`, `do`, `try`,
  `setmark`, `goto`, `gopast`, groupings and the other Snowball command kinds
  fall through to the fatal trap.
- `increase_size` grows the buffer to exactly `n + 20` symbols.
- The slice invariant `0 <= bra <= ket <= l <= size` is not maintained.
  `leftslice` and `rightslice` copy the cursor into a marker unchecked, and
  `slice_check` validates the markers before each edit.
- The cursor is not kept at or below the limit either. `or` and `repeat` restore
  a saved cursor after an operand that failed, and `and` after an operand that
  succeeded, even when that operand has shortened the text. `Valid`
  therefore only demands `0 <= c`, `0 <= l <= size <= capacity`.
- A `substring` reached with `c > l` makes `find_among` compare the symbols past
  the limit, because its end test `c + common == l` is never met. The text up to
  the buffer's size is still there, and the model compares it, as the C does: the
  candidates are matched against `p[c..size)` instead of `p[c..l)`, and a match
  may leave the cursor past the limit. When some candidate would reach beyond
  the size, the C compares symbols left over in the allocation, or past it; the
  model stops the run with `Unmodelled` instead.
- A dispatching `among` reached with `among_var == 0` would read `commands[-1]`.
  That is undefined behaviour in C, and the model stops the run with
  `UndefinedBehaviour`.
- `slicefrom` ignores the return of `slice_from_v`. Invalid markers therefore give
  success with nothing changed. Allocation failure leaves the C buffer `NULL`,
  and the model stops the run with `OutOfMemory`.

## Model

| member | source | states |
|---|---|---|
| Runtime.CreateEnv | compiler/interpreter.c:482-515 | The new environment satisfies the invariant. Its text is empty. Cursor, limit, markers and among outcome are 0. It has one zero slot per integer and per boolean, and one empty buffer per string variable. |
| SymbolBuffer.EqS | compiler/interpreter.c:144-147 | Matches exactly when at least `|s|` symbols remain before the limit and those symbols are `s`. On a match only the cursor moves, by `|s|`. Otherwise nothing changes. |
| SymbolBuffer.IncreaseSize | compiler/interpreter.c:152-164 | Succeeds exactly when the allocator can provide `n` plus the headroom. The new capacity then exceeds `n` and fits the allocator. Failure is `OutOfMemory`. |
| SymbolBuffer.ShiftThenCopyIsSplice | compiler/interpreter.c:179-196 | Moving the tail by the adjustment and then copying the replacement in leaves exactly `p[..bra] + s + p[ket..]`. |
| SymbolBuffer.ReplaceS | compiler/interpreter.c:171-200 | It fails, with `OutOfMemory`, exactly when a length-changing edit needs more than both the capacity and the allocator offer. On success the text is the splice. Size and limit change by the adjustment, and the invariant holds. For a length-changing edit the cursor obeys this rule: after the span it moves with the text, inside the span it drops to `bra`, before the span it stays. An equal-length edit changes only the text. Markers and slots are never touched. |
| SymbolBuffer.SliceFromS | compiler/interpreter.c:202-226 | `InvalidSlice` is returned exactly when `0 <= bra <= ket <= l <= size` fails. Otherwise the edit succeeds or runs out of memory. On success the replacement reads back at `[bra, bra+|s|)` for shrinking, growing and equal-length edits, the text around it is kept, and the markers are unchanged. |
| AmongMatcher.LongestMatch | compiler/interpreter.c:228-292 | Reference definition of what `find_among` selects. `Some(m)` means entry `m` begins the text and no entry that begins it is longer. `None` means no entry begins the text. |
| AmongMatcher.LongestIsUnique | compiler/interpreter.c:228-292 | In a sorted table, a longest entry that begins the text is the one the reference picks. |
| AmongMatcher.Compare | compiler/interpreter.c:249-255 | From any verified prefix, the inner loop returns the exact common-prefix length. Its difference is negative exactly when the text sorts before the candidate. Reaching the limit counts as "text sorts first". |
| AmongMatcher.Narrow | compiler/interpreter.c:243-260 | One pass, comparing from the smaller verified length, keeps both ends valid with exact common lengths. It shrinks the interval, except for the forced inspection of entry 0, which keeps an entry-0 lower end at or below the text. |
| AmongMatcher.Bisect | compiler/interpreter.c:243-274 | The bisection ends, including the extra pass forced to inspect entry 0. Every entry above the final lower end sorts above the text. That lower end either sorts at or below the text with its exact common length, or it is entry 0 sorting above the text. |
| AmongMatcher.FollowSkips | compiler/interpreter.c:275-291 | Following fail-skip links from entry `x` returns the longest entry that begins entry `x` and fits within the verified length. It returns none when no such entry exists. |
| AmongMatcher.SearchFindsLongest | compiler/interpreter.c:243-291 | Fail-skip links followed from the lower end the bisection leaves yield exactly the reference entry. |
| AmongMatcher.Search | compiler/interpreter.c:228-291 | Both loops together select exactly `LongestMatch` of the text, for every well-formed table. |
| AmongMatcher.FindAmong | compiler/interpreter.c:228-292 | With no matching entry: outcome 0, nothing changed. Otherwise the longest matching entry's outcome is returned and the cursor moves past that entry; a selected entry carrying a routine stops the run. Only the cursor ever changes, and it stays within the compared text: at or below the limit, or, from a cursor past the limit, at or below the size. |
| AmongMatcher.FindAmongOutcome | compiler/interpreter.c:275-291 | With non-zero table outcomes, 0 is returned exactly when no entry begins the text, and then nothing moves. A non-zero return `r` names an entry with outcome `r` whose symbols equal `p[c..c+size)` within the compared text (`c+size <= l` from a cursor at or before the limit). The cursor then becomes `c+size`. |
| Interpreter.EvalAE | compiler/interpreter.c:294-323 | A number evaluates to itself. An integer variable with a slot evaluates to its slot. It is fatal exactly for an unhandled expression kind, a non-integer variable, or an optimised-out variable, and the last names the variable. |
| Interpreter.Exec | compiler/interpreter.c:325-480 | Every successful command keeps the invariant and the numbers of slots, and never writes string variables. No command produces `MissingStem` or lets `InvalidSlice` escape. |
| Interpreter.ExecRepeat | compiler/interpreter.c:328-339 | The `repeat` loop keeps the invariant and the slot counts. |
| Interpreter.AmongSelect | compiler/interpreter.c:448-468 | `among` dispatches exactly when it follows a `substring`, has no starter, has several commands (or one with outcomes lacking a command), records its outcome, and that outcome is between 1 and the number of commands. It then selects command `among_var - 1`. The unsupported shapes are unimplemented branches. |
| Interpreter.Primitive | compiler/interpreter.c:378-479 | The single commands keep the invariant and the slot counts. All but `slicefrom` leave the text, capacity and limit unchanged. |
| Interpreter.ExecOr | compiler/interpreter.c:341-352 | The `or` loop keeps the invariant and the slot counts. |
| Interpreter.ExecAnd | compiler/interpreter.c:354-365 | The `and` loop keeps the invariant and the slot counts. When the command succeeds, the cursor is where the command started, because each successful operand's move is undone. |
| Interpreter.ExecBra | compiler/interpreter.c:367-376 | The sequence loop keeps the invariant and the slot counts. |
| Interpreter.FindStemFrom | compiler/interpreter.c:16-28 | Scanning the name list from position `k` returns the first external called `stem` at or after `k`. It returns none exactly when there is no such name. |
| Interpreter.FindStem | compiler/interpreter.c:16-28 | Returns the first external called `stem` in the analyser's name list, or none exactly when there is none. |
| Interpreter.Interpret | compiler/interpreter.c:536-545 | The run stops with `MissingStem` exactly when no external is called `stem`. A successful run keeps the invariant. |
| Interpreter.InterpretRunsFirstStem | compiler/interpreter.c:536-545 | When externals called `stem` exist, the run is the evaluation of the definition of the first one in the analyser's name list. |
| ControlLaws.RepeatNeverFails | compiler/interpreter.c:328-339 | `repeat` never reports failure, for any body and any budget. |
| ControlLaws.RepeatStopsWhereBodyFails | compiler/interpreter.c:328-336 | When the body fails, `repeat` succeeds with the body's environment and the cursor put back where the iteration started. |
| ControlLaws.RepeatContinues | compiler/interpreter.c:328-339 | A successful iteration is kept, cursor included, and the loop goes on from its environment with one unit less budget, or ends in `OutOfFuel` with none left. A fault of the body is the loop's result. So the cursor put back is the one saved before the failing iteration, whichever iteration that is. |
| ControlLaws.OrFailureKeepsCursor | compiler/interpreter.c:341-351 | A failed `or` leaves the cursor where it started. |
| ControlLaws.AndSuccessKeepsCursor | compiler/interpreter.c:354-364 | A successful `and` leaves the cursor where it started. |
| ControlLaws.AndFirst | compiler/interpreter.c:354-363 | The first operand of an `and` runs from the command's cursor. Its failure or fault is the outcome, with the environment it left, and no later operand runs. Its success is followed by the remaining operands from the original cursor. |
| ControlLaws.AndStopsAtFailure | compiler/interpreter.c:356-360 | An operand that fails makes the whole `and` fail, keeping that operand's environment, cursor included. |
| ControlLaws.AndSplit | compiler/interpreter.c:354-363 | An `and` of `xs + ys` is `and(xs)`. Only when that succeeds does it go on to `and(ys)`, from the original cursor. A failure or fault in `xs` is the result. |
| ControlLaws.BraSplit | compiler/interpreter.c:367-375 | A sequence of `xs + ys` is `xs` followed, only on success, by `ys` from where `xs` left off. A failure or fault in `xs` is the result. |
| ControlLaws.OrSplit | compiler/interpreter.c:341-351 | An `or` of `xs + ys` is `or(xs)`. Only when that fails does it go on to `or(ys)`, from the original cursor. |
| ControlLaws.OrFirst | compiler/interpreter.c:341-351 | The first alternative of an `or` runs from the command's cursor. Its success or fault is the outcome. Its failure is followed by the remaining alternatives from the original cursor. |
| ControlLaws.ReadOnlyKeepsText | compiler/interpreter.c:325-480 | A command with no `<-` in it, in a program whose routines have none, leaves text, capacity and limit unchanged. Only slice replacement writes the buffer. |
| ControlLaws.FuelMonotone | compiler/interpreter.c:325-480 | A result other than running out of budget does not change when the budget grows. The budget decides whether a result is reached, never which. |
| CommandLaws.AssignThenRead | compiler/interpreter.c:411-428 | `$v = e` fails exactly when `v` is not an integer, has no slot, or `e` fails. Otherwise it succeeds, reading `v` back gives the value of `e`, and nothing else changes. |
| CommandLaws.OptimisedOutIsFatal | compiler/interpreter.c:411-421 | Writing or reading an optimised-out integer is fatal and names it. It is never a failed match. |
| CommandLaws.EqCompares | compiler/interpreter.c:430-432 | `==` is a fault exactly when one side is. Otherwise it changes nothing and succeeds exactly when the values are equal. |
| CommandLaws.SliceMarkers | compiler/interpreter.c:378-388 | In forward mode `[` sets `bra := c` and `]` sets `ket := c`, and both always succeed. In backward mode both are fatal. |
| CommandLaws.AtLimitIsEnd | compiler/interpreter.c:470-473 | `atlimit` changes nothing and holds exactly when `c >= l`. For `c <= l` that is exactly `c == l`. |
| CommandLaws.SliceFromNeverFails | compiler/interpreter.c:397-401 | `<- s` never reports failure. Its only fault is `OutOfMemory`. Invalid markers leave everything unchanged, and valid ones give the spliced text. |
| CommandLaws.MarkAndMatch | compiler/interpreter.c:367-395 | In `[ lit ] <- rep`, the left marker is set first. A literal that does not match ends the sequence with failure. A match moves past `lit` and sets the right marker before the replacement runs. |
| CommandLaws.ReplaceLiteral | compiler/interpreter.c:367-401 | `[ lit ] <- rep` where `lit` follows the cursor replaces it by `rep`, unless memory runs out. The limit shifts by the length difference and the cursor ends after `rep`. Where `lit` does not follow, it fails, having set only `bra`. |
| CommandLaws.TrapIsFatal | compiler/interpreter.c:438-478 | A command kind the evaluator has no case for stops the run at the closing trap, naming the kind. `substring` and `atlimit` in backward mode stop at their mode assertions. |
| CommandLaws.SubstringOutcome | compiler/interpreter.c:438-446 | `substring` succeeds exactly when some entry begins the text at the cursor. It moves the cursor past the longest one and records that entry's outcome, or 0, when the table asks for it. |
| CommandLaws.AmongRunsSelected | compiler/interpreter.c:462-466 | The multi-command `among` runs `commands[among_var - 1]`. |
| CommandLaws.AmongDispatch | compiler/interpreter.c:438-466 | `substring among(...)` runs the command selected by the longest matching entry's outcome, from the cursor after that entry. |
| CommandLaws.AmongNoMatch | compiler/interpreter.c:438-446 | When no entry matches, `substring among(...)` fails, having recorded outcome 0 and changed nothing else. |
| StringView.ChopByDelim | cover.c:37-58 | The chunk is the longest prefix with no delimiter. If a delimiter was found, the view is chunk, delimiter, rest. Otherwise the rest is empty. A non-empty view always shrinks. |
| StringView.ToU64 | cover.c:60-69 | The result is the decimal value of the leading digit run modulo 2^64. It is 0 when the view does not start with a digit. |
| StringView.DecimalRoundTrip | cover.c:60-69 | The decimal spelling of `n`, followed by any non-digit text, is read back as `n`. |
| StringView.DigitRunIgnoresTail | cover.c:64 | Text after the first non-digit does not change the digit run that is read. |
| StringView.TrimLeft | cover.c:71-81 | The result is a suffix of the view. Everything dropped is whitespace, and the result does not start with whitespace. |
| StringView.TrimmedIsUnique | cover.c:71-81 | Exactly one suffix satisfies the trimming contract. |
| StringView.TrimIdempotent | cover.c:71-81 | Trimming an already trimmed view returns it unchanged. |

## Left out

- `printable_type_of_node` and the `tracef_*` macros are not modelled. They only produce diagnostic text.
- `realloc`/`free`, the header-prefixed buffer layout, `lose_b` and `SN_close_env` are not modelled. Memory is a capacity number plus the `heap` bound.
- The failure of `SN_create_env`'s allocations (a `NULL` result) is not modelled.
- The `z->p == NULL` branches of `replace_s` and `slice_check` are not modelled. The model stops the run on allocation failure, so the buffer is never missing.
- The `adjptr` out-parameter of `replace_s` is not modelled. `slice_from_s` always passes `NULL`.
- The disabled `w->function` call in `find_among` is not modelled. A selected entry with a routine stops the run, as the source's `assert` does.
- Integer slots are unbounded rather than C `int`. No modelled expression does arithmetic: values come only from literals and other slots.
- The evaluation order of the two sides of `==` is unspecified in C. The model evaluates the left side first, which matters only for which fault is reported.
- Unbounded recursion through `call` and endless `repeat` are cut off by `fuel`. Stack exhaustion is not modelled.
- `NodeOk`/`ProgramOk` are preconditions: every integer slot index lies below the number of slots, every call resolves to a definition, and every substring table is sorted with consistent fail-skip links. The front end guarantees these. The C code does not check them.
- How the analyser orders its name list is not part of this model. `find_stem` takes the first `stem` in that list, whatever its order.
- The kind of a called name is not checked. Any name with a definition index can be called.
- `main`, `read_entire_file` and `file_size` in `cover.c` are not modelled. They do file I/O and terminal output.
- AmongMatcher.FindAmong: from a cursor past the limit, the model requires every candidate to end within the text (`InText`). When one would reach beyond the size, the C compares symbols left over in the allocation, which the model does not keep, or past the allocation; `substring` then stops the run with `Unmodelled(ReadPastText)`, even where the C might return a defined outcome.
- `<- $s`, a `slicefrom` from a string variable, has no node of its own. The C refuses it with `assert(p->literalstring != NULL)`; the model represents it as `Unsupported`, whose fault names the command kind instead of the assertion.
- `StringView`: characters are Dafny `char`s. The signedness of C `char` and locales other than "C" are not modelled.
