/** Small shared vocabulary: optional values, results, duplicate-free
    sequences, first-occurrence lookup and decimal rendering of naturals. */
module Prelude {

  datatype Option<+T> = None | Some(value: T)

  /** A value or the error that stopped the computation (the model of a
      raised exception). */
  datatype Result<+T, +E> = Ok(value: T) | Err(error: E)

  /** No element occurs twice. */
  predicate NoDup<T(==)>(s: seq<T>) {
    forall i, j :: 0 <= i < j < |s| ==> s[i] != s[j]
  }

  /** `x` occurs at exactly one position of `s`. */
  predicate OccursOnce<T(==)>(s: seq<T>, x: T) {
    x in s && forall i, j :: 0 <= i < j < |s| && s[i] == x ==> s[j] != x
  }

  /** The elements of a sequence, as a set. */
  function Elements<T(!new)>(s: seq<T>): (r: set<T>)
    ensures forall x :: x in r <==> x in s
  {
    set x | x in s
  }

  /** `order` lists every element of `s` exactly once: one possible
      iteration order of a set. */
  ghost predicate Enumerates<T(!new)>(order: seq<T>, s: set<T>) {
    NoDup(order) && forall x :: x in order <==> x in s
  }

  /** Python's `list.index`: the first position holding `x`, or None where
      Python raises `ValueError`. */
  function IndexOf<T(==)>(s: seq<T>, x: T): (r: Option<nat>)
    ensures r.None? <==> x !in s
    ensures r.Some? ==> r.value < |s| && s[r.value] == x && x !in s[..r.value]
  {
    if |s| == 0 then None
    else if s[0] == x then Some(0)
    else match IndexOf(s[1..], x)
      case None => None
      case Some(i) =>
        assert s[1..][..i] == s[1..i + 1];
        assert s[..i + 1] == [s[0]] + s[1..i + 1];
        Some(i + 1)
  }

  /** When `x` occurs once, its first position is its only position. */
  lemma OccursOnceAtIndex<T>(s: seq<T>, x: T, i: nat)
    requires OccursOnce(s, x)
    requires IndexOf(s, x) == Some(i)
    ensures forall j :: 0 <= j < |s| && s[j] == x ==> j == i
  {
  }

  /** An enumeration of a set has exactly as many entries as the set. */
  lemma {:induction false} EnumerationSize<T(!new)>(order: seq<T>, s: set<T>)
    requires Enumerates(order, s)
    ensures |order| == |s|
  {
    if |order| == 0 {
    } else {
      var x := order[0];
      var rest := order[1..];
      assert NoDup(rest) by {
        forall i, j | 0 <= i < j < |rest| ensures rest[i] != rest[j] {
          assert rest[i] == order[i + 1] && rest[j] == order[j + 1];
        }
      }
      assert x !in rest by {
        forall i | 0 <= i < |rest| ensures rest[i] != x {
          assert rest[i] == order[i + 1];
        }
      }
      assert forall y :: y in rest <==> y in s - {x} by {
        forall y ensures y in rest <==> y in s - {x} {
          if y in rest {
            assert y in order;
          }
          if y in s - {x} {
            assert y in order;
            var k :| 0 <= k < |order| && order[k] == y;
            assert k != 0;
            assert rest[k - 1] == y;
          }
        }
      }
      EnumerationSize(rest, s - {x});
    }
  }

  /** A non-empty sequence is its head followed by its tail. */
  lemma HeadTail<T>(s: seq<T>)
    requires |s| > 0
    ensures [s[0]] + s[1..] == s
  {
  }

  /** The decimal digit character of `d`. */
  function DigitChar(d: nat): (c: char)
    requires d < 10
    ensures '0' <= c <= '9'
    ensures c as int - '0' as int == d
  {
    "0123456789"[d]
  }

  predicate IsDigits(s: string) {
    forall i :: 0 <= i < |s| ==> '0' <= s[i] <= '9'
  }

  /** The value of a string of decimal digits (the empty string reads as 0). */
  function ParseDecimal(s: string): nat
    requires IsDigits(s)
  {
    if |s| == 0 then 0
    else ParseDecimal(s[..|s| - 1]) * 10 + (s[|s| - 1] as int - '0' as int)
  }

  /** Python's `str(n)` for a natural number: shortest decimal digits. */
  function NatToString(n: nat): (s: string)
    ensures |s| > 0 && IsDigits(s)
    ensures |s| > 1 ==> s[0] != '0'
    ensures ParseDecimal(s) == n
  {
    if n < 10 then [DigitChar(n)]
    else
      var prefix := NatToString(n / 10);
      var s := prefix + [DigitChar(n % 10)];
      assert s[..|s| - 1] == prefix;
      s
  }

  /** Distinct numbers render as distinct strings. */
  lemma NatToStringInjective(m: nat, n: nat)
    requires m != n
    ensures NatToString(m) != NatToString(n)
  {
  }
}
