/**
 The string operations the login handler relies on, as JavaScript defines
 them: `includes`, `indexOf`, `split` with a non-empty separator, and the
 decimal digit strings that `Number(..)` and `String(..)` convert between.
 */
module Strings {

  /** `t` occurs in `s` starting at index `k`. */
  predicate OccursAt(s: string, t: string, k: nat)
  {
    k + |t| <= |s| && s[k..k + |t|] == t
  }

  /** JavaScript's `s.includes(t)`: is `t` a substring of `s` (anywhere, not only at the front)? */
  predicate Contains(s: string, t: string)
    decreases |s|
  {
    (|t| <= |s| && s[..|t|] == t) || (|s| > 0 && Contains(s[1..], t))
  }

  /** `Contains` holds exactly when `t` occurs at some index of `s`. */
  lemma {:induction false} ContainsIffOccurs(s: string, t: string)
    ensures Contains(s, t) <==> exists k: nat :: OccursAt(s, t, k)
    decreases |s|
  {
    if Contains(s, t) {
      if |t| <= |s| && s[..|t|] == t {
        assert OccursAt(s, t, 0);
      } else {
        ContainsIffOccurs(s[1..], t);
        var k: nat :| OccursAt(s[1..], t, k);
        assert s[k + 1..k + 1 + |t|] == s[1..][k..k + |t|];
        assert OccursAt(s, t, k + 1);
      }
    }
    if exists k: nat :: OccursAt(s, t, k) {
      var k: nat :| OccursAt(s, t, k);
      if k == 0 {
        assert s[..|t|] == t;
      } else {
        assert s[1..][k - 1..k - 1 + |t|] == s[k..k + |t|];
        assert OccursAt(s[1..], t, k - 1);
        ContainsIffOccurs(s[1..], t);
      }
    }
  }

  /**
   JavaScript's `s.indexOf(t, from)` for `from <= |s|`: the first index at
   or after `from` where `t` occurs, or -1 when there is none.
   */
  function IndexFrom(s: string, t: string, from: nat): (r: int)
    requires from <= |s|
    ensures r == -1 || (from <= r && OccursAt(s, t, r))
    ensures r == -1 ==> forall k: nat :: from <= k ==> !OccursAt(s, t, k)
    ensures r != -1 ==> forall k: nat :: from <= k < r ==> !OccursAt(s, t, k)
    decreases |s| - from
  {
    if OccursAt(s, t, from) then from
    else if from == |s| then -1
    else IndexFrom(s, t, from + 1)
  }

  /**
   JavaScript's `s.split(sep)` for a non-empty separator, following
   String.prototype.split in ECMA-262: cut at the leftmost occurrence of
   `sep`, then continue after it.
   */
  function Split(s: string, sep: string): (parts: seq<string>)
    requires |sep| > 0
    ensures |parts| >= 1
    ensures !Contains(s, sep) ==> parts == [s]
  {
    ContainsIffOccurs(s, sep);
    assert s[0..] == s;
    SplitFrom(s, sep, 0)
  }

  /** The pieces of `s[from..]` that `Split` produces. */
  function SplitFrom(s: string, sep: string, from: nat): (parts: seq<string>)
    requires |sep| > 0 && from <= |s|
    ensures |parts| >= 1
    decreases |s| - from
  {
    var j := IndexFrom(s, sep, from);
    if j == -1 then [s[from..]]
    else [s[from..j]] + SplitFrom(s, sep, j + |sep|)
  }

  /** JavaScript's `parts.join(sep)`; it undoes `Split`. */
  function Join(parts: seq<string>, sep: string): string
    requires |parts| >= 1
  {
    if |parts| == 1 then parts[0] else parts[0] + sep + Join(parts[1..], sep)
  }

  /** Joining the pieces again gives back the split string. */
  lemma {:induction false} SplitFromJoin(s: string, sep: string, from: nat)
    requires |sep| > 0 && from <= |s|
    ensures Join(SplitFrom(s, sep, from), sep) == s[from..]
    decreases |s| - from
  {
    var j := IndexFrom(s, sep, from);
    if j != -1 {
      SplitFromJoin(s, sep, j + |sep|);
      assert s[from..] == s[from..j] + sep + s[j + |sep|..];
    }
  }

  /** Joining the pieces of `Split` with the separator gives back the string. */
  lemma SplitJoin(s: string, sep: string)
    requires |sep| > 0
    ensures Join(Split(s, sep), sep) == s
  {
    SplitFromJoin(s, sep, 0);
  }

  /** No piece produced by `SplitFrom` contains the separator. */
  lemma {:induction false} SplitFromPieces(s: string, sep: string, from: nat)
    requires |sep| > 0 && from <= |s|
    ensures forall p :: p in SplitFrom(s, sep, from) ==> !Contains(p, sep)
    decreases |s| - from
  {
    var j := IndexFrom(s, sep, from);
    var end := if j == -1 then |s| else j;
    var piece := s[from..end];
    ContainsIffOccurs(piece, sep);
    forall k: nat | OccursAt(piece, sep, k)
      ensures OccursAt(s, sep, from + k) && from + k + |sep| <= end
    {
      OccursInSlice(s, sep, from, end, k);
    }
    if j != -1 {
      SplitFromPieces(s, sep, j + |sep|);
    } else {
      assert s[from..] == piece;
    }
  }

  /** An occurrence inside the slice `s[lo..hi]` is an occurrence in `s`. */
  lemma OccursInSlice(s: string, t: string, lo: nat, hi: nat, k: nat)
    requires lo <= hi <= |s| && OccursAt(s[lo..hi], t, k)
    ensures OccursAt(s, t, lo + k) && lo + k + |t| <= hi
  {
    var piece := s[lo..hi];
    forall i | 0 <= i < |t|
      ensures s[lo + k + i] == t[i]
    {
      assert piece[k..k + |t|][i] == t[i];
      assert piece[k + i] == s[lo + k + i];
    }
    assert s[lo + k..lo + k + |t|] == t;
  }

  /** No piece produced by `Split` contains the separator. */
  lemma SplitPieces(s: string, sep: string)
    requires |sep| > 0
    ensures forall p :: p in Split(s, sep) ==> !Contains(p, sep)
  {
    SplitFromPieces(s, sep, 0);
  }

  /** A string without the separator splits into itself alone. */
  lemma SplitWithoutSeparator(s: string, sep: string)
    requires |sep| > 0 && !Contains(s, sep)
    ensures Split(s, sep) == [s]
  {
    ContainsIffOccurs(s, sep);
    assert s[0..] == s;
  }

  /** A string with the separator splits into at least two pieces, the first one ending just before the first occurrence. */
  lemma SplitWithSeparator(s: string, sep: string)
    requires |sep| > 0 && Contains(s, sep)
    ensures |Split(s, sep)| >= 2
    ensures 0 <= IndexFrom(s, sep, 0)
    ensures Split(s, sep) == [s[..IndexFrom(s, sep, 0)]] + SplitFrom(s, sep, IndexFrom(s, sep, 0) + |sep|)
  {
    ContainsIffOccurs(s, sep);
  }

  predicate IsDigit(c: char)
  {
    '0' <= c <= '9'
  }

  predicate AllDigits(s: string)
  {
    forall i :: 0 <= i < |s| ==> IsDigit(s[i])
  }

  function DigitValue(c: char): (d: nat)
    requires IsDigit(c)
    ensures d < 10
  {
    (c as int) - ('0' as int)
  }

  function DigitChar(d: nat): (c: char)
    requires d < 10
    ensures IsDigit(c) && DigitValue(c) == d
  {
    (('0' as int) + d) as char
  }

  /** JavaScript's `Number(s)` on a string of decimal digits (the empty string gives 0). */
  function DigitsValue(s: string): nat
    requires AllDigits(s)
  {
    if |s| == 0 then 0 else 10 * DigitsValue(s[..|s| - 1]) + DigitValue(s[|s| - 1])
  }

  /** JavaScript's `String(n)` on a non-negative integer: its decimal digits. */
  function ShowNat(n: nat): (s: string)
    ensures |s| >= 1 && AllDigits(s)
  {
    if n < 10 then [DigitChar(n)] else ShowNat(n / 10) + [DigitChar(n % 10)]
  }

  /** Reading back the digits of `n` gives `n`. */
  lemma {:induction false} ShowNatRoundTrip(n: nat)
    ensures DigitsValue(ShowNat(n)) == n
  {
    var s := ShowNat(n);
    if n >= 10 {
      ShowNatRoundTrip(n / 10);
      assert s[..|s| - 1] == ShowNat(n / 10);
    }
  }
}
