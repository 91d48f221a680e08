/** The string-view helpers of the coverage reporter: split off the text up to a
    delimiter, read a leading decimal number into a 64-bit unsigned integer, and
    drop leading whitespace. A view is the sequence of characters it covers. */
module StringView {

  /** `uint64_t` arithmetic is modulo this. */
  const U64: int := 0x1_0000_0000_0000_0000

  /** `isdigit` in the C locale. */
  predicate IsDigit(ch: char) {
    '0' <= ch <= '9'
  }

  /** `isspace` in the C locale: space, tab, newline, vertical tab, form feed,
      carriage return. */
  predicate IsSpace(ch: char) {
    ch == ' ' || 9 <= ch as int <= 13
  }

  /** `sv_chop_by_delim`: split `sv` at its first `delim`. `chunk` is the text
      before it; `rest` is what follows the delimiter, or nothing when there is no
      delimiter. */
  method ChopByDelim(sv: seq<char>, delim: char) returns (chunk: seq<char>, rest: seq<char>)
    ensures |chunk| <= |sv| && chunk == sv[..|chunk|]
    ensures forall k | 0 <= k < |chunk| :: chunk[k] != delim
    ensures |chunk| < |sv| ==> sv[|chunk|] == delim && sv == chunk + [delim] + rest
    ensures |chunk| == |sv| ==> rest == []
    ensures |sv| > 0 ==> |rest| < |sv|
  {
    var i := 0;
    while i < |sv| && sv[i] != delim
      invariant 0 <= i <= |sv|
      invariant forall k | 0 <= k < i :: sv[k] != delim
    {
      i := i + 1;
    }
    chunk := sv[..i];
    if i < |sv| {
      rest := sv[i + 1..];
      assert sv == chunk + [delim] + rest;
    } else {
      rest := sv[i..];
    }
  }

  /** Length of the leading run of decimal digits. */
  function DigitRun(s: seq<char>): (n: nat)
    ensures n <= |s|
    ensures forall k | 0 <= k < n :: IsDigit(s[k])
    ensures n < |s| ==> !IsDigit(s[n])
  {
    if |s| == 0 || !IsDigit(s[0]) then 0 else 1 + DigitRun(s[1..])
  }

  function DigitValue(ch: char): nat
    requires IsDigit(ch)
  {
    ch as int - '0' as int
  }

  /** The number a string of decimal digits denotes, most significant first. */
  function DecimalValue(ds: seq<char>): (v: nat)
    requires forall k | 0 <= k < |ds| :: IsDigit(ds[k])
  {
    if |ds| == 0 then 0 else DecimalValue(ds[..|ds| - 1]) * 10 + DigitValue(ds[|ds| - 1])
  }

  lemma MulAtLeast(a: int, m: int)
    ensures a >= 1 && m > 0 ==> a * m >= m
  {
    assert a * m == (a - 1) * m + m;
  }

  /** Euclidean division has one remainder. */
  lemma ModUnique(y: int, q: int, r: int, m: int)
    requires m > 0 && 0 <= r < m && y == q * m + r
    ensures y % m == r
  {
    var q0 := y / m;
    assert y == q0 * m + y % m;
    assert q * m - q0 * m == (q - q0) * m;
    assert q0 * m - q * m == (q0 - q) * m;
    MulAtLeast(q - q0, m);
    MulAtLeast(q0 - q, m);
  }

  /** Reducing modulo `m` before a step of Horner's rule changes nothing modulo `m`. */
  lemma ModStep(a: int, d: int, m: int)
    requires m > 0
    ensures ((a % m) * 10 + d) % m == (a * 10 + d) % m
  {
    var x := (a % m) * 10 + d;
    var q := a / m;
    assert a == q * m + a % m;
    assert a * 10 + d == x + (q * 10) * m;
    assert x == (x / m) * m + x % m;
    assert a * 10 + d == (x / m + q * 10) * m + x % m;
    ModUnique(a * 10 + d, x / m + q * 10, x % m, m);
  }

  /** `sv_to_u64`: the value of the leading run of digits, wrapped to 64 bits; what
      follows the first non-digit is not looked at. */
  method ToU64(sv: seq<char>) returns (r: int)
    ensures 0 <= r < U64
    ensures r == DecimalValue(sv[..DigitRun(sv)]) % U64
    ensures |sv| == 0 || !IsDigit(sv[0]) ==> r == 0
  {
    r := 0;
    var i := 0;
    while i < |sv| && IsDigit(sv[i])
      invariant 0 <= i <= DigitRun(sv)
      invariant 0 <= r < U64
      invariant r == DecimalValue(sv[..i]) % U64
    {
      assert sv[..i + 1][..i] == sv[..i];
      ModStep(DecimalValue(sv[..i]), DigitValue(sv[i]), U64);
      r := (r * 10 + sv[i] as int - '0' as int) % U64;
      i := i + 1;
    }
    assert i == DigitRun(sv);
  }

  /** The decimal spelling of `n`, without leading zeros. */
  function Decimal(n: nat): (s: seq<char>)
    ensures |s| > 0 && forall k | 0 <= k < |s| :: IsDigit(s[k])
  {
    var last := ['0' + (n % 10) as char];
    if n < 10 then last else Decimal(n / 10) + last
  }

  /** Reading back the decimal spelling of `n` gives `n`, whatever non-digit text
      follows it. */
  lemma {:induction false} DecimalRoundTrip(n: nat, tail: seq<char>)
    requires |tail| == 0 || !IsDigit(tail[0])
    ensures DigitRun(Decimal(n) + tail) == |Decimal(n)|
    ensures (Decimal(n) + tail)[..|Decimal(n)|] == Decimal(n)
    ensures DecimalValue(Decimal(n)) == n
  {
    var s := Decimal(n);
    DigitRunOfDigits(s, tail);
    assert (s + tail)[..|s|] == s;
    if n >= 10 {
      DecimalRoundTrip(n / 10, []);
      assert s[..|s| - 1] == Decimal(n / 10);
    }
  }

  /** A run of digits followed by a non-digit (or by nothing) is the leading run. */
  lemma {:induction false} DigitRunOfDigits(s: seq<char>, tail: seq<char>)
    requires forall k | 0 <= k < |s| :: IsDigit(s[k])
    requires |tail| == 0 || !IsDigit(tail[0])
    ensures DigitRun(s + tail) == |s|
  {
    if |s| > 0 {
      assert (s + tail)[1..] == s[1..] + tail;
      DigitRunOfDigits(s[1..], tail);
    }
  }

  /** Text after the first non-digit does not change the leading run, so it does
      not change what `ToU64` reads. */
  lemma DigitRunIgnoresTail(s: seq<char>, tail: seq<char>)
    requires DigitRun(s) < |s|
    ensures DigitRun(s + tail) == DigitRun(s)
    ensures (s + tail)[..DigitRun(s)] == s[..DigitRun(s)]
  {
    var n := DigitRun(s);
    assert s + tail == s[..n] + (s[n..] + tail);
    assert (s[n..] + tail)[0] == s[n];
    DigitRunOfDigits(s[..n], s[n..] + tail);
  }

  /** `sv_trim_left` returns `r` for `sv`: `r` is what is left of `sv` once its
      leading whitespace is gone. */
  predicate Trimmed(sv: seq<char>, r: seq<char>) {
    && |r| <= |sv|
    && r == sv[|sv| - |r|..]
    && (forall k | 0 <= k < |sv| - |r| :: IsSpace(sv[k]))
    && (|r| > 0 ==> !IsSpace(r[0]))
  }

  /** `sv_trim_left`. */
  method TrimLeft(sv: seq<char>) returns (r: seq<char>)
    ensures Trimmed(sv, r)
  {
    var i := 0;
    while i < |sv| && IsSpace(sv[i])
      invariant 0 <= i <= |sv|
      invariant forall k | 0 <= k < i :: IsSpace(sv[k])
    {
      i := i + 1;
    }
    r := sv[i..];
  }

  /** Exactly one suffix is the trimmed view. */
  lemma TrimmedIsUnique(sv: seq<char>, r1: seq<char>, r2: seq<char>)
    requires Trimmed(sv, r1) && Trimmed(sv, r2)
    ensures r1 == r2
  {
    if |r1| > 0 {
      assert r1[0] == sv[|sv| - |r1|];
    }
    if |r2| > 0 {
      assert r2[0] == sv[|sv| - |r2|];
    }
  }

  /** Trimming is idempotent: a trimmed view trims to itself, so by uniqueness
      trimming it again returns it unchanged. */
  lemma TrimIdempotent(sv: seq<char>, r: seq<char>, r2: seq<char>)
    requires Trimmed(sv, r) && Trimmed(r, r2)
    ensures r2 == r
  {
    assert Trimmed(r, r);
    TrimmedIsUnique(r, r, r2);
  }
}
