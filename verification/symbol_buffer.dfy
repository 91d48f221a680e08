/** The text-buffer primitives of the interpreter: literal matching at the cursor
    (`eq_s`), buffer growth (`increase_size`), in-place splicing of the bracketed
    span (`replace_s`) and its guarded entry point (`slice_check`, `slice_from_s`). */
module SymbolBuffer {
  import opened Faults
  import opened Runtime

  /** Extra symbols `increase_size` allocates beyond the size asked for. */
  const Headroom: int := 20

  /** `memcmp(p + at, s, |s|) == 0`, symbol by symbol. */
  predicate SameSymbols(p: seq<int>, at: int, s: seq<int>)
    requires 0 <= at && at + |s| <= |p|
  {
    forall k | 0 <= k < |s| :: p[at + k] == s[k]
  }

  /** `eq_s`: match the literal `s` forward at the cursor, within the limit. */
  function EqS(z: Env, s: seq<int>): (r: (bool, Env))
    requires Valid(z)
    ensures r.0 <==> z.l - z.c >= |s| && z.p[z.c..z.c + |s|] == s
    ensures r.0 ==> r.1 == z.(c := z.c + |s|)
    ensures !r.0 ==> r.1 == z
    ensures Valid(r.1)
  {
    if z.l - z.c < |s| || !SameSymbols(z.p, z.c, s) then (false, z)
    else (true, z.(c := z.c + |s|))
  }

  /** `increase_size`: ask the allocator for room for `n` symbols plus headroom.
      `heap` is the largest capacity the allocator can hand out; a request beyond
      it is the `realloc` failure, after which the old buffer is gone. */
  function IncreaseSize(n: int, heap: nat): (r: Result<int>)
    ensures r.Ok? <==> n + Headroom <= heap
    ensures r.Ok? ==> n < r.value <= heap
    ensures r.Err? ==> r.fault == OutOfMemory
  {
    var newSize := n + Headroom;
    if newSize > heap then Err(OutOfMemory) else Ok(newSize)
  }

  /** The first `memmove` of `replace_s`: resize to `|p| + adj` and move the tail
      `p[ket..]` so that it starts at `ket + adj`. Cells below `ket + adj` keep their old
      content; fresh cells that the tail does not cover read as 0 (uninitialised). */
  function ShiftTail(p: seq<int>, ket: int, adj: int): (q: seq<int>)
    requires 0 <= ket <= |p| && 0 <= ket + adj
  {
    seq(|p| + adj, k requires 0 <= k < |p| + adj =>
      if k >= ket + adj then p[k - adj] else if k < |p| then p[k] else 0)
  }

  /** The second `memmove` of `replace_s`: copy `s` into `q` starting at `at`. */
  function CopyIn(q: seq<int>, at: int, s: seq<int>): (w: seq<int>)
    requires 0 <= at && at + |s| <= |q|
  {
    seq(|q|, k requires 0 <= k < |q| => if at <= k < at + |s| then s[k - at] else q[k])
  }

  /** Moving the tail and then copying the replacement in place leaves exactly the
      splice of `s` into the span `[bra, ket)`. */
  lemma ShiftThenCopyIsSplice(p: seq<int>, bra: int, ket: int, s: seq<int>)
    requires 0 <= bra <= ket <= |p|
    ensures var adj := |s| - (ket - bra);
            CopyIn(ShiftTail(p, ket, adj), bra, s) == p[..bra] + s + p[ket..]
  {
    var adj := |s| - (ket - bra);
    var w := CopyIn(ShiftTail(p, ket, adj), bra, s);
    var spliced := p[..bra] + s + p[ket..];
    assert |w| == |spliced|;
    forall k | 0 <= k < |w|
      ensures w[k] == spliced[k]
    {
      if k < bra {
        assert spliced[k] == p[k];
      } else if k < bra + |s| {
        assert spliced[k] == s[k - bra];
      } else {
        assert spliced[k] == p[k - adj];
      }
    }
  }

  /** The cursor rule of `replace_s` for a length-changing edit: past the span it
      moves with the text, inside the span it drops back to `bra`, before it stays. */
  function AdjustCursor(c: int, bra: int, ket: int, adj: int): int {
    if c >= ket then c + adj else if c > bra then bra else c
  }

  /** `replace_s`: replace the symbols in `[bra, ket)` by `s`. The caller
      (`slice_from_s`) has already checked the span against the limit. */
  function ReplaceS(z: Env, bra: int, ket: int, s: seq<int>, heap: nat): (r: Result<Env>)
    requires Valid(z)
    requires 0 <= bra <= ket <= z.l
    ensures var adj := |s| - (ket - bra);
            r.Err? <==> adj != 0 && |z.p| + adj > z.capacity && |z.p| + adj + Headroom > heap
    ensures r.Err? ==> r.fault == OutOfMemory
    ensures r.Ok? ==> r.value.p == z.p[..bra] + s + z.p[ket..]
    ensures r.Ok? ==> Valid(r.value)
    ensures r.Ok? ==> r.value.l - z.l == |r.value.p| - |z.p| == |s| - (ket - bra)
    ensures r.Ok? && |s| == ket - bra ==> r.value == z.(p := r.value.p)
    ensures r.Ok? && |s| != ket - bra ==>
              (z.c >= ket ==> r.value.c - r.value.l == z.c - z.l) &&
              (ket <= z.c <= |z.p| ==> r.value.p[r.value.c..] == z.p[z.c..]) &&
              (bra < z.c < ket ==> r.value.c == bra) &&
              (z.c <= bra && z.c < ket ==> r.value.c == z.c)
    ensures r.Ok? ==> r.value.bra == z.bra && r.value.ket == z.ket && r.value.I == z.I &&
                      r.value.S == z.S && r.value.amongVar == z.amongVar
  {
    var adj := |s| - (ket - bra);
    var len := |z.p|;
    ShiftThenCopyIsSplice(z.p, bra, ket, s);
    if adj != 0 then
      var cap :- if adj + len > z.capacity then IncreaseSize(adj + len, heap) else Ok(z.capacity);
      var moved := ShiftTail(z.p, ket, adj);
      Ok(z.(p := CopyIn(moved, bra, s), capacity := cap, l := z.l + adj,
            c := AdjustCursor(z.c, bra, ket, adj)))
    else
      Ok(z.(p := CopyIn(z.p, bra, s)))
  }

  /** `slice_check`: the bracket markers delimit a span inside the scanned region. */
  predicate SliceCheck(z: Env) {
    0 <= z.bra <= z.ket <= z.l <= |z.p|
  }

  /** `slice_from_s` (and `slice_from_v`, which passes a buffer's own length):
      replace the bracketed span by `s`, or refuse with `InvalidSlice` and leave the
      environment as it was. */
  function SliceFromS(z: Env, s: seq<int>, heap: nat): (r: Result<Env>)
    requires Valid(z)
    ensures r == Err(InvalidSlice) <==> !(0 <= z.bra <= z.ket <= z.l <= |z.p|)
    ensures r.Err? ==> r.fault in {InvalidSlice, OutOfMemory}
    ensures r.Ok? ==> Valid(r.value) && r.value.bra == z.bra && r.value.ket == z.ket
    ensures r.Ok? ==> |r.value.p| == |z.p| + |s| - (z.ket - z.bra)
    ensures r.Ok? ==> r.value.p[z.bra..z.bra + |s|] == s
    ensures r.Ok? ==> r.value.p[..z.bra] == z.p[..z.bra] && r.value.p[z.bra + |s|..] == z.p[z.ket..]
  {
    if !SliceCheck(z) then Err(InvalidSlice)
    else ReplaceS(z, z.bra, z.ket, s, heap)
  }
}
