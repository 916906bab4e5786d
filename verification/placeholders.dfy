/** `ReplaceSQL` (main.go): rewrite a statement written with generic `?`
    markers into PostgreSQL's numbered parameters `$1`, `$2`, ...

    The function is modelled as Go runs it, for any search pattern: count the
    occurrences, then replace the leftmost remaining occurrence with `$m` for
    m = 1 .. count. Its meaning is given independently by `Renumbered`, a
    single left-to-right scan; `ReplaceSQLRenumbers` proves the two agree for
    every one-character marker that cannot appear inside a `$m` token.

    The loop and the scan are defined over any token-writing function `tok`
    (the model passes `Token`); the proofs only need that no token contains
    the marker. */
module Placeholders {
  import opened GoStrings

  /** The PostgreSQL positional-parameter token `$m`. */
  function Token(m: nat): string {
    "$" + Itoa(m)
  }

  /** Iterations m .. count of ReplaceSQL's loop, applied to the current text:
      each replaces the leftmost remaining occurrence of `pattern` by `tok(m)`. */
  function ReplaceFrom(s: string, pattern: string, tok: nat -> string, m: nat, count: nat): string
    decreases count + 1 - m
  {
    if m > count then s
    else ReplaceFrom(ReplaceFirst(s, pattern, tok(m)), pattern, tok, m + 1, count)
  }

  /** `ReplaceSQL(old, searchPattern)`; the Go parameter `old` is called `sql` here. */
  function ReplaceSQL(sql: string, searchPattern: string): (r: string)
    ensures |searchPattern| > 0 && Index(sql, searchPattern) == -1 ==> r == sql
  {
    ReplaceFrom(sql, searchPattern, Token, 1, Count(sql, searchPattern))
  }

  /** Number of occurrences of character `c` in `s`. */
  function Occurrences(s: string, c: char): nat {
    multiset(s)[c]
  }

  /** A character that can never be part of a `$m` token. */
  predicate IsMarker(c: char) {
    c != '$' && !IsDigit(c)
  }

  /** No token written by `tok` contains `c`. */
  ghost predicate Avoids(tok: nat -> string, c: char) {
    forall m :: c !in tok(m)
  }

  lemma TokensAvoidMarkers(c: char)
    requires IsMarker(c)
    ensures Avoids(Token, c)
  {
    forall m: nat ensures c !in Token(m) {
      var digits := Itoa(m);
      forall i | 0 <= i < |Token(m)| ensures Token(m)[i] != c {
        if i > 0 { assert Token(m)[i] == digits[i - 1]; }
      }
    }
  }

  /** Reference meaning of the renumbering: scanning `s` left to right, the
      j-th occurrence of `c` (counting from 0) becomes `tok(k + j)`, and every
      other character is copied unchanged. */
  function Renumbered(s: string, c: char, tok: nat -> string, k: nat): string
    decreases |s|
  {
    if |s| == 0 then ""
    else if s[0] == c then tok(k) + Renumbered(s[1..], c, tok, k + 1)
    else [s[0]] + Renumbered(s[1..], c, tok, k)
  }

  /** No marker survives the scan when no token contains one. */
  lemma {:induction false} RenumberedRemovesMarker(s: string, c: char, tok: nat -> string, k: nat)
    requires Avoids(tok, c)
    ensures c !in Renumbered(s, c, tok, k)
    decreases |s|
  {
    if |s| > 0 {
      var k' := if s[0] == c then k + 1 else k;
      RenumberedRemovesMarker(s[1..], c, tok, k');
      assert c !in tok(k);
    }
  }

  lemma {:induction false} OccurrencesCons(s: string, c: char)
    requires |s| > 0
    ensures Occurrences(s, c) == (if s[0] == c then 1 else 0) + Occurrences(s[1..], c)
  {
    assert s == [s[0]] + s[1..];
  }

  lemma OccurrencesSplit(before: string, after: string, c: char)
    ensures Occurrences(before + [c] + after, c) == Occurrences(before, c) + 1 + Occurrences(after, c)
  {
    assert multiset(before + [c] + after) == multiset(before) + multiset([c]) + multiset(after);
  }

  /** Text without the marker is left as it is. */
  lemma {:induction false} RenumberedUnchanged(s: string, c: char, tok: nat -> string, k: nat)
    requires c !in s
    ensures Renumbered(s, c, tok, k) == s
    decreases |s|
  {
    if |s| > 0 {
      RenumberedUnchanged(s[1..], c, tok, k);
    }
  }

  /** Renumbering is compositional: the second part continues numbering
      where the first part stopped. */
  lemma {:induction false} RenumberedAppend(a: string, b: string, c: char, tok: nat -> string, k: nat)
    ensures Renumbered(a + b, c, tok, k)
         == Renumbered(a, c, tok, k) + Renumbered(b, c, tok, k + Occurrences(a, c))
    decreases |a|
  {
    if |a| == 0 {
      assert a + b == b;
    } else {
      var k' := if a[0] == c then k + 1 else k;
      var head := if a[0] == c then tok(k) else [a[0]];
      var y := Renumbered(b, c, tok, k + Occurrences(a, c));
      calc {
        Renumbered(a + b, c, tok, k);
        { assert (a + b)[0] == a[0];
          assert (a + b)[1..] == a[1..] + b; }
        head + Renumbered(a[1..] + b, c, tok, k');
        { RenumberedAppend(a[1..], b, c, tok, k');
          OccurrencesCons(a, c); }
        head + (Renumbered(a[1..], c, tok, k') + y);
        (head + Renumbered(a[1..], c, tok, k')) + y;
      }
    }
  }

  /** One step of the scan, for text given as a first character and the rest. */
  lemma RenumberedCons(x: char, rest: string, c: char, tok: nat -> string, k: nat)
    ensures Renumbered([x] + rest, c, tok, k)
         == if x == c then tok(k) + Renumbered(rest, c, tok, k + 1) else [x] + Renumbered(rest, c, tok, k)
  {
    assert ([x] + rest)[0] == x;
    assert ([x] + rest)[1..] == rest;
  }

  /** The scan over text whose first marker follows `before`. */
  lemma {:induction false} ScanStep(before: string, after: string, c: char, tok: nat -> string, k: nat)
    requires c !in before
    ensures Renumbered(before + [c] + after, c, tok, k) == before + tok(k) + Renumbered(after, c, tok, k + 1)
    decreases |before|
  {
    var s := before + [c] + after;
    if |before| == 0 {
      assert s[0] == c && s[1..] == after;
    } else {
      assert s[0] == before[0] && s[1..] == before[1..] + [c] + after;
      ScanStep(before[1..], after, c, tok, k);
      assert [before[0]] + (before[1..] + tok(k) + Renumbered(after, c, tok, k + 1))
          == before + tok(k) + Renumbered(after, c, tok, k + 1);
    }
  }

  /** `strings.Count` of a one-character pattern counts that character. */
  lemma {:induction false} CountSingle(s: string, c: char)
    ensures Count(s, [c]) == Occurrences(s, c)
    decreases |s|
  {
    var i := Index(s, [c]);
    IndexLeftmost(s, [c]);
    if i < 0 {
      forall j | 0 <= j < |s| ensures s[j] != c {
        assert !OccursAt(s, [c], j);
        assert s[j..j + 1] == [s[j]];
      }
      assert c !in multiset(s);
    } else {
      assert s[i..i + 1] == [c];
      var before := s[..i];
      var after := s[i + 1..];
      assert s == before + [c] + after;
      forall j | 0 <= j < i ensures before[j] != c {
        assert !OccursAt(s, [c], j);
        assert s[j..j + 1] == [s[j]];
      }
      assert c !in multiset(before);
      OccurrencesSplit(before, after, c);
      CountSingle(after, c);
    }
  }

  /** One iteration of ReplaceSQL's loop: when `done` is free of the marker,
      the leftmost marker of `done + rest` is the leftmost one of `rest`, and
      it becomes `tok(k)`. */
  lemma LoopStep(done: string, before: string, after: string, c: char, tok: nat -> string, k: nat, count: nat)
    requires c !in done && c !in before
    requires 1 <= k <= count
    ensures ReplaceFrom(done + (before + [c] + after), [c], tok, k, count)
         == ReplaceFrom(done + before + tok(k) + after, [c], tok, k + 1, count)
  {
    var s := done + (before + [c] + after);
    var at := |done| + |before|;
    assert OccursAt(s, [c], at) by {
      assert s[at..at + 1] == [c];
    }
    forall j | 0 <= j < at ensures !OccursAt(s, [c], j) {
      assert s[j..j + 1] == [s[j]];
      if j < |done| { assert s[j] == done[j]; } else { assert s[j] == before[j - |done|]; }
    }
    ReplaceFirstLeftmost(s, [c], tok(k), at);
    assert s[..at] == done + before;
    assert s[at + 1..] == after;
  }

  /** Position of the leftmost occurrence of `c` in `s`. */
  lemma {:induction false} FirstOccurrence(s: string, c: char) returns (i: nat)
    requires c in s
    ensures i < |s| && s[i] == c
    ensures forall j :: 0 <= j < i ==> s[j] != c
    decreases |s|
  {
    if s[0] == c {
      i := 0;
    } else {
      assert c in s[1..] by {
        assert s == [s[0]] + s[1..];
      }
      var i' := FirstOccurrence(s[1..], c);
      i := i' + 1;
    }
  }

  /** `s` cut around its leftmost `c`. */
  lemma SplitAtFirst(s: string, c: char) returns (before: string, after: string)
    requires c in s
    ensures s == before + [c] + after && c !in before
  {
    var i := FirstOccurrence(s, c);
    before, after := s[..i], s[i + 1..];
    assert s == before + [c] + after;
  }

  /** One iteration seen from both sides: the loop rewrites the leftmost
      marker of `rest` to `tok(k)`, and the reference scan agrees on the text
      up to and including that marker. */
  lemma IterationStep(done: string, rest: string, c: char, tok: nat -> string, k: nat, count: nat)
      returns (done': string, after: string)
    requires Avoids(tok, c) && c !in done && c in rest
    requires 1 <= k <= count
    ensures c !in done' && |after| < |rest|
    ensures Occurrences(rest, c) == Occurrences(after, c) + 1
    ensures ReplaceFrom(done + rest, [c], tok, k, count) == ReplaceFrom(done' + after, [c], tok, k + 1, count)
    ensures done + Renumbered(rest, c, tok, k) == done' + Renumbered(after, c, tok, k + 1)
  {
    var before;
    before, after := SplitAtFirst(rest, c);
    done' := done + before + tok(k);
    assert c !in tok(k);
    OccurrencesSplit(before, after, c);
    assert Occurrences(before, c) == 0;
    LoopStep(done, before, after, c, tok, k, count);
    ScanStepAfter(done, before, after, c, tok, k);
  }

  lemma ScanStepAfter(done: string, before: string, after: string, c: char, tok: nat -> string, k: nat)
    requires c !in before
    ensures done + Renumbered(before + [c] + after, c, tok, k)
         == done + before + tok(k) + Renumbered(after, c, tok, k + 1)
  {
    ScanStep(before, after, c, tok, k);
  }

  /** Loop invariant of ReplaceSQL, stated as a lemma: when iteration k is
      reached, the text is `done + rest` where `done` holds the markers
      already rewritten and `rest` is still untouched. The remaining
      iterations rewrite exactly the markers of `rest`, in order. */
  lemma {:induction false} ReplaceFromRenumbers(done: string, rest: string, c: char, tok: nat -> string, k: nat, count: nat)
    requires Avoids(tok, c) && c !in done
    requires k >= 1 && count + 1 == k + Occurrences(rest, c)
    ensures ReplaceFrom(done + rest, [c], tok, k, count) == done + Renumbered(rest, c, tok, k)
    decreases |rest|
  {
    if c !in rest {
      assert Occurrences(rest, c) == 0;
      RenumberedUnchanged(rest, c, tok, k);
    } else {
      var done', after := IterationStep(done, rest, c, tok, k, count);
      ReplaceFromRenumbers(done', after, c, tok, k + 1, count);
    }
  }

  /** ReplaceSQL numbers the markers left to right: the k-th marker becomes
      `$k`, the text between markers is copied, and no marker survives. */
  lemma ReplaceSQLRenumbers(s: string, c: char)
    requires IsMarker(c)
    ensures ReplaceSQL(s, [c]) == Renumbered(s, c, Token, 1)
    ensures c !in ReplaceSQL(s, [c])
  {
    TokensAvoidMarkers(c);
    CountSingle(s, c);
    assert "" + s == s;
    ReplaceFromRenumbers("", s, c, Token, 1, Count(s, [c]));
    RenumberedRemovesMarker(s, c, Token, 1);
  }
  // ---------------------------------------------------------------------------
  // The parameters PostgreSQL reads back

  /** Index just past the run of decimal digits that starts at `i`. */
  function DigitRunEnd(s: string, i: nat): (j: nat)
    requires i <= |s|
    ensures i <= j <= |s|
    ensures forall m :: i <= m < j ==> IsDigit(s[m])
    ensures j == |s| || !IsDigit(s[j])
    decreases |s| - i
  {
    if i == |s| || !IsDigit(s[i]) then i else DigitRunEnd(s, i + 1)
  }

  /** The positional parameters of a statement, in the order PostgreSQL
      reads them: each `$` followed by a maximal run of digits names the
      parameter with that number. */
  function Parameters(s: string): seq<nat>
    decreases |s|
  {
    if |s| == 0 then []
    else if s[0] == '$' && |s| > 1 && IsDigit(s[1]) then
      var j := DigitRunEnd(s, 1);
      assert AllDigits(s[1..j]);
      [DigitsValue(s[1..j])] + Parameters(s[j..])
    else Parameters(s[1..])
  }

  /** The numbers k, k+1, ..., k+n-1. */
  function Range(k: nat, n: nat): (r: seq<nat>)
    ensures |r| == n
    ensures forall i :: 0 <= i < n ==> r[i] == k + i
    decreases n
  {
    if n == 0 then [] else [k] + Range(k + 1, n - 1)
  }

  /** No marker in `s` is directly followed by a digit, so a rewritten
      token cannot run into the text after it. */
  predicate MarkersNotBeforeDigit(s: string, c: char) {
    forall i :: 0 <= i < |s| - 1 && s[i] == c ==> !IsDigit(s[i + 1])
  }

  /** The first character of a scan result: the first token's `$`, or the
      first character copied. */
  lemma RenumberedHead(t: string, c: char, k: nat)
    requires |t| > 0
    ensures |Renumbered(t, c, Token, k)| > 0
    ensures Renumbered(t, c, Token, k)[0] == (if t[0] == c then '$' else t[0])
  {
  }

  /** `$k` followed by text that does not start with a digit reads as
      parameter k, and reading continues after it. */
  lemma ParametersAfterToken(k: nat, rest: string)
    requires |rest| == 0 || !IsDigit(rest[0])
    ensures Parameters(Token(k) + rest) == [k] + Parameters(rest)
  {
    var s := Token(k) + rest;
    var digits := Itoa(k);
    var end := 1 + |digits|;
    assert s[1] == digits[0];
    var j := DigitRunEnd(s, 1);
    forall m | 1 <= m < end ensures IsDigit(s[m]) {
      assert s[m] == digits[m - 1];
    }
    assert end == |s| || (s[end] == rest[0] && !IsDigit(s[end]));
    assert j == end;
    assert s[1..j] == digits;
    assert s[j..] == rest;
  }

  /** After renumbering a text that uses `$` nowhere else and never puts a
      digit right after a marker, PostgreSQL reads the parameters
      k, k+1, ... in order, one per marker. */
  lemma {:induction false} ParametersOfRenumbered(s: string, c: char, k: nat)
    requires IsMarker(c) && '$' !in s && MarkersNotBeforeDigit(s, c)
    ensures Parameters(Renumbered(s, c, Token, k)) == Range(k, Occurrences(s, c))
    decreases |s|
  {
    if |s| > 0 {
      var t := s[1..];
      assert '$' !in t;
      assert MarkersNotBeforeDigit(t, c) by {
        forall i | 0 <= i < |t| - 1 && t[i] == c ensures !IsDigit(t[i + 1]) {
          assert s[i + 1] == c && s[i + 2] == t[i + 1];
        }
      }
      OccurrencesCons(s, c);
      if s[0] == c {
        var tail := Renumbered(t, c, Token, k + 1);
        if |t| > 0 {
          RenumberedHead(t, c, k + 1);
          assert s[1] == t[0];
        }
        ParametersAfterToken(k, tail);
        ParametersOfRenumbered(t, c, k + 1);
      } else {
        var tail := Renumbered(t, c, Token, k);
        assert s[0] != '$';
        assert ([s[0]] + tail)[1..] == tail;
        ParametersOfRenumbered(t, c, k);
      }
    }
  }
}
