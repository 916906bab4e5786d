/** Models of the Go standard-library helpers the crawler calls: `strings.Index`,
    `strings.Count`, `strings.Replace` with a limit of one, `strings.TrimSuffix`,
    `strconv.Itoa`, `strconv.Atoi`, and signed 64-bit wrap-around.

    Strings are sequences of characters. Go indexes strings by byte; for the
    ASCII text the crawler builds and searches, characters and bytes coincide. */
module GoStrings {
  import opened Wrappers

  const MinInt64: int := -0x8000_0000_0000_0000
  const MaxInt64: int := 0x7FFF_FFFF_FFFF_FFFF
  const TwoTo64: int := 0x1_0000_0000_0000_0000

  /** Go's `int` and `int64` on a 64-bit platform. */
  type Int64 = x: int | MinInt64 <= x <= MaxInt64

  /** Two's-complement wrap-around of an exact integer into the int64 range,
      which is what Go's signed arithmetic does on overflow. */
  function Wrap64(x: int): (r: Int64)
    ensures MinInt64 <= x <= MaxInt64 ==> r == x
    ensures exists k: int :: r == x + k * TwoTo64
  {
    var r := (x - MinInt64) % TwoTo64 + MinInt64;
    assert r == x + (-((x - MinInt64) / TwoTo64)) * TwoTo64;
    r
  }

  // ---------------------------------------------------------------------------
  // Searching

  /** `p` occurs in `s` starting at position `i`. */
  predicate OccursAt(s: string, p: string, i: int) {
    0 <= i && i + |p| <= |s| && s[i..i + |p|] == p
  }

  lemma OccursAtShift(s: string, p: string, i: int)
    requires |s| > 0 && 0 <= i
    ensures OccursAt(s, p, i + 1) <==> OccursAt(s[1..], p, i)
  {
    if 0 <= i && i + 1 + |p| <= |s| {
      assert s[1..][i..i + |p|] == s[i + 1..i + 1 + |p|];
    }
  }

  /** `strings.Index(s, p)`: the position of the leftmost occurrence of `p`
      in `s`, or -1 when there is none. The empty pattern occurs at 0. */
  function Index(s: string, p: string): (r: int)
    ensures -1 <= r && (r >= 0 ==> r + |p| <= |s|)
    decreases |s|
  {
    if |s| < |p| then -1
    else if s[..|p|] == p then 0
    else
      var k := Index(s[1..], p);
      if k < 0 then -1 else k + 1
  }

  /** `Index` finds an occurrence, it finds the leftmost one, and it
      answers -1 only when there is none. */
  lemma {:induction false} IndexLeftmost(s: string, p: string)
    ensures Index(s, p) == -1 || OccursAt(s, p, Index(s, p))
    ensures forall j :: 0 <= j < Index(s, p) ==> !OccursAt(s, p, j)
    ensures Index(s, p) == -1 ==> forall j :: !OccursAt(s, p, j)
    decreases |s|
  {
    if |s| < |p| {
    } else if s[..|p|] == p {
    } else {
      IndexLeftmost(s[1..], p);
      forall j | 1 <= j ensures OccursAt(s, p, j) <==> OccursAt(s[1..], p, j - 1) {
        OccursAtShift(s, p, j - 1);
      }
      assert !OccursAt(s, p, 0);
    }
  }

  /** `strings.Count(s, p)`: the number of non-overlapping occurrences of `p`
      in `s`, taken leftmost first. For the empty pattern Go returns the
      number of characters plus one. */
  function Count(s: string, p: string): (r: nat)
    ensures |p| == 0 ==> r == |s| + 1
    ensures |p| > 0 ==> (r == 0 <==> Index(s, p) == -1)
    ensures |p| > 0 ==> r * |p| <= |s|
    decreases |s|
  {
    if |p| == 0 then |s| + 1
    else
      var i := Index(s, p);
      IndexLeftmost(s, p);
      if i < 0 then 0
      else
        var tail := s[i + |p|..];
        var rest := Count(tail, p);
        MulSucc(rest, |p|, |tail|);
        1 + rest
  }

  lemma MulSucc(a: nat, b: nat, c: int)
    requires a * b <= c
    ensures (1 + a) * b <= c + b
  {
  }

  /** `strings.Replace(s, p, rep, 1)`: the leftmost occurrence of `p`
      replaced by `rep`; `s` itself when `p` does not occur. With the empty
      pattern Go inserts `rep` at the front. */
  function ReplaceFirst(s: string, p: string, rep: string): (r: string)
    ensures Index(s, p) < 0 ==> r == s
    ensures Index(s, p) >= 0 ==> |r| == |s| - |p| + |rep|
  {
    var i := Index(s, p);
    if i < 0 then s else s[..i] + rep + s[i + |p|..]
  }

  /** When `p` occurs first at i, `ReplaceFirst` splices `rep` in there. */
  lemma ReplaceFirstLeftmost(s: string, p: string, rep: string, i: int)
    requires OccursAt(s, p, i)
    requires forall j :: 0 <= j < i ==> !OccursAt(s, p, j)
    ensures ReplaceFirst(s, p, rep) == s[..i] + rep + s[i + |p|..]
  {
    IndexLeftmost(s, p);
  }

  /** When `p` does not occur, `ReplaceFirst` changes nothing. */
  lemma ReplaceFirstAbsent(s: string, p: string, rep: string)
    requires forall j :: !OccursAt(s, p, j)
    ensures ReplaceFirst(s, p, rep) == s
  {
    IndexLeftmost(s, p);
  }

  /** `strings.TrimSuffix(s, suffix)`: s without one trailing `suffix`,
      or s itself when it does not end in `suffix`. */
  function TrimSuffix(s: string, suffix: string): (r: string)
    ensures r == s || r + suffix == s
    ensures r + suffix == s <==> |suffix| <= |s| && s[|s| - |suffix|..] == suffix
  {
    if |suffix| <= |s| && s[|s| - |suffix|..] == suffix then s[..|s| - |suffix|] else s
  }

  /** Trimming a suffix that was just appended gives back the original. */
  lemma TrimSuffixAppended(t: string, suffix: string)
    ensures TrimSuffix(t + suffix, suffix) == t
  {
    assert (t + suffix)[|t|..] == suffix;
    assert (t + suffix)[..|t|] == t;
  }

  // ---------------------------------------------------------------------------
  // Decimal numbers

  predicate IsDigit(c: char) {
    '0' <= c <= '9'
  }

  predicate AllDigits(s: string) {
    forall i :: 0 <= i < |s| ==> IsDigit(s[i])
  }

  function DigitChar(d: nat): (c: char)
    requires d < 10
    ensures IsDigit(c)
  {
    ('0' as int + d) as char
  }

  function DigitValue(c: char): (d: nat)
    requires IsDigit(c)
    ensures d < 10
  {
    c as int - '0' as int
  }

  /** The value of a string of decimal digits, most significant first. */
  function DigitsValue(s: string): nat
    requires AllDigits(s)
  {
    if |s| == 0 then 0 else DigitsValue(s[..|s| - 1]) * 10 + DigitValue(s[|s| - 1])
  }

  /** `strconv.Itoa(n)` for non-negative `n`: the shortest decimal rendering,
      which reads back as `n` and has no leading zero. */
  function Itoa(n: nat): (r: string)
    ensures |r| > 0 && AllDigits(r)
    ensures DigitsValue(r) == n
    ensures r[0] == '0' ==> n == 0 && r == "0"
  {
    if n < 10 then [DigitChar(n)]
    else
      var r := Itoa(n / 10) + [DigitChar(n % 10)];
      assert r[..|r| - 1] == Itoa(n / 10);
      r
  }

  /** `strconv.Atoi(s)`: an optional `+` or `-` sign followed by at least one
      decimal digit, whose value fits in 64 bits. Anything else, the empty
      string of a missing header included, is an error. */
  function Atoi(s: string): (r: Option<Int64>)
    ensures r.Some? ==> |s| > 0 && (IsDigit(s[0]) || s[0] == '+' || s[0] == '-')
    ensures r.Some? ==> forall i :: 0 < i < |s| ==> IsDigit(s[i])
    ensures r.Some? ==> IsDigit(s[|s| - 1])
    ensures r.Some? && IsDigit(s[0]) ==> r.value == DigitsValue(s)
    ensures r.Some? && s[0] == '+' ==> r.value == DigitsValue(s[1..])
    ensures r.Some? && s[0] == '-' ==> r.value == -(DigitsValue(s[1..]) as int)
  {
    if |s| == 0 then None
    else
      var negative := s[0] == '-';
      var digits := if s[0] == '-' || s[0] == '+' then s[1..] else s;
      if |digits| == 0 || !AllDigits(digits) then None
      else
        var magnitude: int := DigitsValue(digits);
        var v := if negative then -magnitude else magnitude;
        if MinInt64 <= v <= MaxInt64 then Some(v) else None
  }

  /** Conversely, every optional sign followed by at least one digit parses,
      to the signed value of the digits, when that value fits in 64 bits;
      leading zeros are allowed. */
  lemma AtoiAccepts(sign: string, digits: string)
    requires sign == "" || sign == "+" || sign == "-"
    requires |digits| > 0 && AllDigits(digits)
    ensures var v := if sign == "-" then -(DigitsValue(digits) as int) else DigitsValue(digits);
      Atoi(sign + digits) == if MinInt64 <= v <= MaxInt64 then Some(v) else None
  {
    var s := sign + digits;
    if sign == "" {
      assert s == digits;
      assert IsDigit(s[0]);
    } else {
      assert s[0] == sign[0];
      assert s[1..] == digits;
    }
  }

  /** `Atoi` reads back what `Itoa` writes, with or without a sign. */
  lemma AtoiItoa(n: nat)
    requires n <= MaxInt64
    ensures Atoi(Itoa(n)) == Some(n)
    ensures Atoi("+" + Itoa(n)) == Some(n)
    ensures Atoi("-" + Itoa(n)) == Some(-(n as int))
  {
    assert ("+" + Itoa(n))[1..] == Itoa(n);
    assert ("-" + Itoa(n))[1..] == Itoa(n);
  }
}
