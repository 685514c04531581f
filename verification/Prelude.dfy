/** Result and option types, and the division and sequence facts the other modules share. */
module Prelude {

  /** The largest size on a 64-bit machine. */
  const USIZE_MAX: nat := 0xFFFF_FFFF_FFFF_FFFF

  datatype Option<+T> = None | Some(value: T) {
    function GetOr(default: T): T {
      if None? then default else value
    }
  }

  datatype Result<+T, +E> = Ok(value: T) | Err(error: E)

  /** The last n elements, or all of them when there are fewer. */
  function Last<T>(s: seq<T>, n: nat): (r: seq<T>)
    ensures |r| == if |s| <= n then |s| else n
    ensures r == s[|s| - |r|..]
  {
    if |s| <= n then s else s[|s| - n..]
  }

  function Concat<T>(pieces: seq<seq<T>>): seq<T> {
    if pieces == [] then [] else Concat(pieces[..|pieces| - 1]) + pieces[|pieces| - 1]
  }

  lemma ConcatSnoc<T>(pieces: seq<seq<T>>, piece: seq<T>)
    ensures Concat(pieces + [piece]) == Concat(pieces) + piece
    ensures Concat<T>([]) == []
  {
    var all := pieces + [piece];
    assert all[..|all| - 1] == pieces;
  }

  /** Keeping the last n of a kept suffix and new elements is keeping the last n of everything. */
  lemma LastOfSuffix<T>(all: seq<T>, kept: seq<T>, more: seq<T>, n: nat)
    requires kept == Last(all, n)
    ensures Last(kept + more, n) == Last(all + more, n)
  {
    var cut := |all| - |kept|;
    assert all == all[..cut] + kept;
    assert all + more == all[..cut] + (kept + more);
  }

  lemma SliceOfSlice<T>(s: seq<T>, lo: nat, hi: nat, a: nat, b: nat)
    requires lo <= hi <= |s| && a <= b <= hi - lo
    ensures s[lo..hi][a..b] == s[lo + a..lo + b]
  {
    var inner, direct := s[lo..hi][a..b], s[lo + a..lo + b];
    assert forall j :: 0 <= j < b - a ==> inner[j] == s[lo..hi][a + j] == direct[j];
  }

  /** Distinct multiples of d are at least d apart, in the order of their multipliers. */
  lemma MultiplesApart(p: int, q: int, d: int)
    requires d >= 0
    ensures p <= q ==> p * d <= q * d
    ensures p < q ==> p * d + d <= q * d
  {
    if p < q {
      Stretch(p, q - p - 1, d);
    }
  }

  lemma Stretch(p: int, gap: int, d: int)
    requires d >= 0 && gap >= 0
    ensures (p + 1 + gap) * d == p * d + d + gap * d
    ensures gap * d >= 0
  {
  }

  /** The quotient is the only multiplier that brackets the dividend. */
  lemma QuotientIs(a: int, d: int, q: int)
    requires d > 0 && q * d <= a < q * d + d
    ensures a / d == q && a % d == a - q * d
  {
    MultiplesApart(a / d, q, d);
    MultiplesApart(q, a / d, d);
  }

  lemma QuotientMonotone(a: int, b: int, d: int)
    requires d > 0 && a <= b
    ensures a / d <= b / d
  {
    MultiplesApart(b / d, a / d, d);
  }

  lemma AtMostQuotient(k: int, a: int, d: int)
    requires d > 0
    ensures k <= a / d <==> k * d <= a
  {
    MultiplesApart(k, a / d, d);
    MultiplesApart(a / d, k, d);
  }

  /** Removing whole divisors shifts the quotient and leaves the remainder alone. */
  lemma QuotientShift(a: int, d: int, q: int)
    requires d > 0
    ensures (a - q * d) / d == a / d - q
    ensures (a - q * d) % d == a % d
  {
    var p := a / d;
    assert (p - q) * d == p * d - q * d;
    QuotientIs(a - q * d, d, p - q);
  }

  lemma ExactQuotient(q: int, d: int)
    requires d > 0
    ensures q * d / d == q && q * d % d == 0
  {
    QuotientIs(q * d, d, q);
  }
}
