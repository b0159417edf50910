/**
 * Literal substring operations on strings, with the semantics of Python's
 * `needle in s`, `s.replace(needle, repl)` (no count: every non-overlapping
 * occurrence, scanning left to right), `s.count(needle)`, `s.split(needle)`
 * and `sep.join(pieces)`.
 *
 * Only `in` and `replace` are used by the style injector; `Count`, `Split`
 * and `Join` are reference definitions against which `ReplaceAll` is
 * characterised.
 */
module Text {

  /** `needle` occurs in `s` starting at index `i`. */
  predicate OccursAt(s: string, needle: string, i: int) {
    0 <= i && i + |needle| <= |s| &&
    forall j :: 0 <= j < |needle| ==> s[i + j] == needle[j]
  }

  /** Python's `needle in s`: some occurrence exists (the empty needle occurs everywhere). */
  predicate Contains(s: string, needle: string) {
    exists i :: 0 <= i <= |s| - |needle| && OccursAt(s, needle, i)
  }

  predicate StartsWith(s: string, needle: string) {
    OccursAt(s, needle, 0)
  }

  /**
   * Python's `s.replace(needle, repl)`: every non-overlapping occurrence of
   * `needle`, found left to right, is replaced by `repl`. For the empty
   * needle Python inserts `repl` before every character and at the end.
   */
  function ReplaceAll(s: string, needle: string, repl: string): (r: string)
    decreases |s|
  {
    if needle == [] then
      if s == [] then repl else repl + [s[0]] + ReplaceAll(s[1..], needle, repl)
    else if StartsWith(s, needle) then
      repl + ReplaceAll(s[|needle|..], needle, repl)
    else if s == [] then
      []
    else
      [s[0]] + ReplaceAll(s[1..], needle, repl)
  }

  /**
   * Python's `s.count(needle)` for a non-empty needle: the number of
   * non-overlapping occurrences found left to right.
   */
  function Count(s: string, needle: string): (k: nat)
    requires |needle| > 0
    ensures k > 0 <==> Contains(s, needle)
    decreases |s|
  {
    if StartsWith(s, needle) then
      assert OccursAt(s, needle, 0);
      1 + Count(s[|needle|..], needle)
    else if s == [] then
      0
    else
      ContainsTail(s, needle);
      Count(s[1..], needle)
  }

  /**
   * Python's `s.split(needle)` for a non-empty needle: the pieces of `s`
   * between the occurrences that `Count` and `ReplaceAll` find.
   */
  function Split(s: string, needle: string): (ps: seq<string>)
    requires |needle| > 0
    ensures |ps| > 0
    decreases |s|
  {
    if StartsWith(s, needle) then
      [[]] + Split(s[|needle|..], needle)
    else if s == [] then
      [[]]
    else
      var t := Split(s[1..], needle);
      [[s[0]] + t[0]] + t[1..]
  }

  /** Python's `sep.join(ps)` for a non-empty list of pieces. */
  function Join(ps: seq<string>, sep: string): (r: string)
    requires |ps| > 0
    decreases |ps|
  {
    if |ps| == 1 then ps[0] else ps[0] + sep + Join(ps[1..], sep)
  }

  /** `b` appended to every piece except the last. */
  function SuffixAllButLast(ps: seq<string>, b: string): (qs: seq<string>)
    ensures |qs| == |ps|
  {
    seq(|ps|, i requires 0 <= i < |ps| => if i < |ps| - 1 then ps[i] + b else ps[i])
  }

  /**
   * `n` has no proper border: no two occurrences of `n` in any string can
   * overlap.
   */
  predicate NoSelfOverlap(n: string) {
    forall d :: 0 < d < |n| ==> n[d..] != n[..|n| - d]
  }

  // ---------------------------------------------------------------------
  // Occurrences under shifting and concatenation

  /** When `s` does not start with `needle`, dropping its first character keeps every occurrence. */
  lemma ContainsTail(s: string, needle: string)
    requires |s| > 0 && |needle| > 0 && !StartsWith(s, needle)
    ensures Contains(s, needle) <==> Contains(s[1..], needle)
  {
    if Contains(s, needle) {
      var i :| 0 <= i <= |s| - |needle| && OccursAt(s, needle, i);
      assert i != 0;
      assert OccursAt(s[1..], needle, i - 1);
    }
    if Contains(s[1..], needle) {
      var i :| 0 <= i <= |s[1..]| - |needle| && OccursAt(s[1..], needle, i);
      assert OccursAt(s, needle, i + 1);
    }
  }

  /** A string without the needle's first character does not contain the needle. */
  lemma NotContainsWithoutFirstChar(s: string, needle: string)
    requires |needle| > 0 && needle[0] !in s
    ensures !Contains(s, needle)
  {
    forall i | 0 <= i <= |s| - |needle| ensures !OccursAt(s, needle, i) {
      assert s[i + 0] != needle[0];
    }
  }

  /**
   * No occurrence straddles the seam between `a` and `b` when the last
   * character of `a` is not part of the needle, or the first character of
   * `b` is not part of the needle after the needle's first character.
   */
  lemma NoOccurrenceAcrossSeam(a: string, b: string, needle: string)
    requires |needle| > 0 && !Contains(a, needle) && !Contains(b, needle)
    requires (|a| > 0 && a[|a| - 1] !in needle) || (|b| > 0 && b[0] !in needle[1..])
    ensures !Contains(a + b, needle)
  {
    var s := a + b;
    forall i | 0 <= i <= |s| - |needle| ensures !OccursAt(s, needle, i) {
      if i + |needle| <= |a| {
        assert !OccursAt(a, needle, i);
        var j :| 0 <= j < |needle| && a[i + j] != needle[j];
        assert s[i + j] != needle[j];
      } else if i >= |a| {
        assert !OccursAt(b, needle, i - |a|);
        var j :| 0 <= j < |needle| && b[i - |a| + j] != needle[j];
        assert s[i + j] != needle[j];
      } else if |a| > 0 && a[|a| - 1] !in needle {
        var j := |a| - 1 - i;
        assert s[i + j] == a[|a| - 1];
        assert s[i + j] != needle[j];
      } else {
        var j := |a| - i;
        assert needle[1..][j - 1] == needle[j];
        assert s[i + j] == b[0];
        assert s[i + j] != needle[j];
      }
    }
  }

  /** A string without `n` does not contain `b + n` either. */
  lemma NotContainsLongerNeedle(s: string, b: string, n: string)
    requires !Contains(s, n)
    ensures !Contains(s, b + n)
  {
    var w := b + n;
    forall i | 0 <= i <= |s| - |w| ensures !OccursAt(s, w, i) {
      assert !OccursAt(s, n, i + |b|);
      var j :| 0 <= j < |n| && s[i + |b| + j] != n[j];
      assert s[i + (|b| + j)] != w[|b| + j];
    }
  }

  /** A needle whose first character does not recur in it has no border. */
  lemma FirstCharUniqueNoSelfOverlap(n: string)
    requires |n| > 0 && n[0] !in n[1..]
    ensures NoSelfOverlap(n)
  {
    forall d | 0 < d < |n| ensures n[d..] != n[..|n| - d] {
      assert n[d..][0] == n[1..][d - 1];
      assert n[..|n| - d][0] == n[0];
    }
  }

  /**
   * `b + n` has no border when `n` has no border-making pieces across `b`:
   * `b` does not contain `n`, `b` starts with a character that does not
   * recur in `n` after its first position, and `b` ends with a character
   * that does not occur in `n` at all.
   */
  lemma WrappedNoSelfOverlap(b: string, n: string)
    requires |b| > 0 && |n| > 0 && !Contains(b, n)
    requires b[0] !in n[1..] && b[|b| - 1] !in n
    ensures NoSelfOverlap(b + n)
  {
    var w := b + n;
    forall d | 0 < d < |w| ensures w[d..] != w[..|w| - d] {
      var len := |w| - d;
      if len > |b| {
        // the last character of b is compared with a character of n
        var k := |b| - 1;
        assert w[d + k] == n[d - 1];
        assert w[d..][k] != w[..len][k];
      } else if len >= |n| {
        // the final n would also sit inside b, at len - |n|
        var i := len - |n|;
        assert !OccursAt(b, n, i);
        var j :| 0 <= j < |n| && b[i + j] != n[j];
        assert w[d + i + j] == n[j];
        assert w[d..][i + j] != w[..len][i + j];
      } else {
        // the first character of b is compared with n after its first position
        assert w[d] == n[d - |b|] == n[1..][d - |b| - 1];
        assert w[d..][0] != w[..len][0];
      }
    }
  }

  // ---------------------------------------------------------------------
  // Join

  lemma JoinPrependToFirst(c: char, ps: seq<string>, sep: string)
    requires |ps| > 0
    ensures Join([[c] + ps[0]] + ps[1..], sep) == [c] + Join(ps, sep)
  {
    var qs := [[c] + ps[0]] + ps[1..];
    assert qs[1..] == ps[1..];
  }

  lemma JoinCons(p: string, ps: seq<string>, sep: string)
    requires |ps| > 0
    ensures Join([p] + ps, sep) == p + sep + Join(ps, sep)
  {
    assert ([p] + ps)[1..] == ps;
  }

  /** Appending `b` to every piece but the last is the same as prefixing every separator with `b`. */
  lemma {:induction false} JoinSuffixAllButLast(ps: seq<string>, b: string, sep: string)
    requires |ps| > 0
    ensures Join(SuffixAllButLast(ps, b), sep) == Join(ps, b + sep)
    decreases |ps|
  {
    var qs := SuffixAllButLast(ps, b);
    if |ps| > 1 {
      assert qs[1..] == SuffixAllButLast(ps[1..], b);
      JoinSuffixAllButLast(ps[1..], b, sep);
      assert qs[0] == ps[0] + b;
      calc {
        Join(qs, sep);
        qs[0] + sep + Join(qs[1..], sep);
        ps[0] + b + sep + Join(ps[1..], b + sep);
        ps[0] + (b + sep) + Join(ps[1..], b + sep);
      }
    }
  }

  // ---------------------------------------------------------------------
  // Split: round trip, pieces, uniqueness

  /** Joining the pieces with the needle gives back the original string. */
  lemma {:induction false} SplitJoinRoundTrip(s: string, needle: string)
    requires |needle| > 0
    ensures Join(Split(s, needle), needle) == s
    decreases |s|
  {
    if StartsWith(s, needle) {
      var rest := s[|needle|..];
      SplitJoinRoundTrip(rest, needle);
      JoinCons([], Split(rest, needle), needle);
      assert s[..|needle|] == needle;
      assert s == s[..|needle|] + rest;
    } else if s != [] {
      SplitJoinRoundTrip(s[1..], needle);
      JoinPrependToFirst(s[0], Split(s[1..], needle), needle);
      assert s == [s[0]] + s[1..];
    }
  }

  /** `ReplaceAll` puts `repl` exactly where `Split` cuts: between the same pieces. */
  lemma {:induction false} ReplaceAllIsJoinOfSplit(s: string, needle: string, repl: string)
    requires |needle| > 0
    ensures ReplaceAll(s, needle, repl) == Join(Split(s, needle), repl)
    decreases |s|
  {
    if StartsWith(s, needle) {
      var rest := s[|needle|..];
      ReplaceAllIsJoinOfSplit(rest, needle, repl);
      JoinCons([], Split(rest, needle), repl);
    } else if s != [] {
      ReplaceAllIsJoinOfSplit(s[1..], needle, repl);
      JoinPrependToFirst(s[0], Split(s[1..], needle), repl);
    }
  }

  /** There is one more piece than there are occurrences. */
  lemma {:induction false} SplitCount(s: string, needle: string)
    requires |needle| > 0
    ensures |Split(s, needle)| == Count(s, needle) + 1
    decreases |s|
  {
    if StartsWith(s, needle) {
      SplitCount(s[|needle|..], needle);
    } else if s != [] {
      SplitCount(s[1..], needle);
    }
  }

  /** The first piece of a split is a prefix of the string. */
  lemma {:induction false} SplitFirstIsPrefix(s: string, needle: string)
    requires |needle| > 0
    ensures |Split(s, needle)[0]| <= |s| && s[..|Split(s, needle)[0]|] == Split(s, needle)[0]
    decreases |s|
  {
    if !StartsWith(s, needle) && s != [] {
      SplitFirstIsPrefix(s[1..], needle);
    }
  }

  /** No piece of a split contains the needle. */
  lemma {:induction false} SplitPiecesAreFree(s: string, needle: string)
    requires |needle| > 0
    ensures forall k :: 0 <= k < |Split(s, needle)| ==> !Contains(Split(s, needle)[k], needle)
    decreases |s|
  {
    var ps := Split(s, needle);
    if StartsWith(s, needle) {
      SplitPiecesAreFree(s[|needle|..], needle);
      assert ps[1..] == Split(s[|needle|..], needle);
      assert forall k :: 1 <= k < |ps| ==> ps[k] == ps[1..][k - 1];
    } else if s != [] {
      var t := Split(s[1..], needle);
      SplitPiecesAreFree(s[1..], needle);
      SplitFirstIsPrefix(s, needle);
      var p := ps[0];
      assert p == [s[0]] + t[0];
      // p is a prefix of s, and s does not start with the needle
      if |needle| <= |p| {
        var j :| 0 <= j < |needle| && s[j] != needle[j];
        assert p[j] == s[j];
      }
      assert !StartsWith(p, needle);
      ContainsTail(p, needle);
      assert p[1..] == t[0];
      assert forall k :: 1 <= k < |ps| ==> ps[k] == t[k];
    }
  }

  /** A string without the needle is its own split. */
  lemma {:induction false} SplitOfFree(p: string, needle: string)
    requires |needle| > 0 && !Contains(p, needle)
    ensures Split(p, needle) == [p]
    decreases |p|
  {
    if p != [] {
      assert !StartsWith(p, needle);
      ContainsTail(p, needle);
      SplitOfFree(p[1..], needle);
      assert [p[0]] + p[1..] == p;
    }
  }

  /**
   * For a needle without self-overlap, the first occurrence in
   * `p + needle + rest`, when `p` is free of the needle, is the one right
   * after `p`.
   */
  lemma {:induction false} SplitAfterFreePrefix(p: string, needle: string, rest: string)
    requires |needle| > 0 && NoSelfOverlap(needle) && !Contains(p, needle)
    ensures Split(p + needle + rest, needle) == [p] + Split(rest, needle)
    decreases |p|
  {
    var s := p + needle + rest;
    if p == [] {
      assert s == needle + rest;
      assert OccursAt(s, needle, 0);
      assert s[|needle|..] == rest;
    } else {
      // the needle does not start at 0: it would lie in p or overlap the one after p
      if |needle| <= |p| {
        assert !OccursAt(p, needle, 0);
        var j :| 0 <= j < |needle| && p[j] != needle[j];
        assert s[j] != needle[j];
      } else {
        var d := |p|;
        assert needle[d..] != needle[..|needle| - d];
        var k :| 0 <= k < |needle| - d && needle[d..][k] != needle[..|needle| - d][k];
        assert s[d + k] == needle[k];
        assert s[d + k] != needle[d + k];
      }
      assert !StartsWith(s, needle);
      ContainsTail(p, needle);
      assert s[1..] == p[1..] + needle + rest;
      SplitAfterFreePrefix(p[1..], needle, rest);
      assert [p[0]] + p[1..] == p;
    }
  }

  /**
   * Uniqueness: for a needle without self-overlap, joining needle-free pieces
   * with the needle and splitting again gives back exactly those pieces.
   */
  lemma {:induction false} SplitOfJoin(ps: seq<string>, needle: string)
    requires |ps| > 0 && |needle| > 0 && NoSelfOverlap(needle)
    requires forall k :: 0 <= k < |ps| ==> !Contains(ps[k], needle)
    ensures Split(Join(ps, needle), needle) == ps
    decreases |ps|
  {
    if |ps| == 1 {
      SplitOfFree(ps[0], needle);
    } else {
      SplitOfJoin(ps[1..], needle);
      SplitAfterFreePrefix(ps[0], needle, Join(ps[1..], needle));
      assert [ps[0]] + ps[1..] == ps;
    }
  }

  /** Each replacement changes the length by `|repl| - |needle|`. */
  lemma {:induction false} ReplaceAllLength(s: string, needle: string, repl: string)
    requires |needle| > 0
    ensures |ReplaceAll(s, needle, repl)| == |s| + Count(s, needle) * (|repl| - |needle|)
    decreases |s|
  {
    if StartsWith(s, needle) {
      ReplaceAllLength(s[|needle|..], needle, repl);
      MulStep(Count(s[|needle|..], needle), |repl| - |needle|);
    } else if s != [] {
      ReplaceAllLength(s[1..], needle, repl);
    }
  }

  lemma MulStep(c: int, d: int)
    ensures (1 + c) * d == d + c * d
  {
  }

  /** `ReplaceAll` leaves a string without the needle unchanged. */
  lemma ReplaceAllWithoutNeedle(s: string, needle: string, repl: string)
    requires |needle| > 0 && !Contains(s, needle)
    ensures ReplaceAll(s, needle, repl) == s
  {
    SplitOfFree(s, needle);
    ReplaceAllIsJoinOfSplit(s, needle, repl);
  }
}
