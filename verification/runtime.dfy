/** The interpreter's execution environment (`struct SN_env`) and its construction. */
module Runtime {

  /** The mutable record the evaluator threads through every command.
      `p` is the symbol buffer's content (its logical size is `|p|`), `capacity` its
      allocated length; `c` the cursor, `l` the forward limit, `bra`/`ket` the slice
      markers; `I` holds the integer slots followed by the boolean slots, `S` one
      buffer per string variable; `amongVar` is the last recorded among outcome. */
  datatype Env = Env(
    p: seq<int>,
    capacity: int,
    c: int,
    l: int,
    bra: int,
    ket: int,
    I: seq<int>,
    S: seq<seq<int>>,
    amongVar: int
  )

  /** What every operation of the interpreter keeps: the cursor is not negative, the
      scanned region lies inside the buffer, the buffer inside its allocation.
      The cursor is NOT kept at or below the limit: `or` and `repeat` restore a saved
      cursor after an operand that failed, and `and` after an operand that succeeded,
      even when that operand has shortened the text, so it can end up past the limit
      (and past the buffer). The slice markers are not constrained
      either: `leftslice`/`rightslice` may set them anywhere, and `slice_check`
      validates them before each edit. */
  predicate Valid(z: Env) {
    0 <= z.c && 0 <= z.l <= |z.p| <= z.capacity
  }

  /** The analyser's per-type declared counts (`name_count[t_string]`, ...). */
  datatype NameCounts = NameCounts(strings: nat, integers: nat, booleans: nat)

  /** `SN_create_env`: a zeroed record with an empty main buffer (`create_b(0)` has
      capacity 0), one zeroed slot per integer and per boolean variable, and one
      empty buffer per string variable. */
  function CreateEnv(counts: NameCounts): (z: Env)
    ensures Valid(z)
    ensures z.p == [] && z.c == 0 && z.l == 0 && z.bra == 0 && z.ket == 0 && z.amongVar == 0
    ensures |z.I| == counts.integers + counts.booleans
    ensures forall k | 0 <= k < |z.I| :: z.I[k] == 0
    ensures |z.S| == counts.strings
    ensures forall k | 0 <= k < |z.S| :: z.S[k] == []
  {
    Env(
      p := [],
      capacity := 0,
      c := 0,
      l := 0,
      bra := 0,
      ket := 0,
      I := seq(counts.integers + counts.booleans, _ => 0),
      S := seq(counts.strings, _ => []),
      amongVar := 0
    )
  }
}
