/**
  Integers extended with a positive infinity.  The source seeds its distance
  table with `float('inf')` and adds integer edge weights to it; only the two
  operations it applies to those values are modelled: addition, where
  infinity absorbs every integer (Python instead raises `OverflowError` when
  the integer, or a finite sum, lies beyond the float range), and the strict
  comparison of line 65, under which infinity is never smaller than anything
  (so `inf > inf + x` is false).
*/
module Extended {

  datatype Dist = Fin(n: int) | Inf

  /** Saturating addition: a sum is finite exactly when both summands are. */
  function Add(a: Dist, b: Dist): (s: Dist)
    ensures s.Fin? <==> a.Fin? && b.Fin?
    ensures s.Fin? ==> s.n == a.n + b.n
  {
    if a.Fin? && b.Fin? then Fin(a.n + b.n) else Inf
  }

  /** Strict order: `a < b`. Infinity is below nothing, and every finite value is below infinity. */
  predicate Less(a: Dist, b: Dist)
    ensures Less(a, b) ==> a.Fin?
    ensures a.Fin? && b == Inf ==> Less(a, b)
    ensures a.Fin? && b.Fin? ==> (Less(a, b) <==> a.n < b.n)
  {
    match (a, b)
    case (Fin(x), Fin(y)) => x < y
    case (Fin(_), Inf) => true
    case (Inf, _) => false
  }

  /** Non-strict order: `a <= b`. */
  predicate Le(a: Dist, b: Dist)
  {
    !Less(b, a)
  }

  /** `min(a, b)`, keeping `a` on a tie, as the relaxation of line 65 keeps the old entry. */
  function Min(a: Dist, b: Dist): (m: Dist)
    ensures Le(m, a) && Le(m, b)
    ensures m == a || m == b
  {
    if Less(b, a) then b else a
  }

  /** `Less` is a strict total order. */
  lemma LessIsIrreflexiveAndTotal(a: Dist, b: Dist)
    ensures !Less(a, a)
    ensures Less(a, b) ==> !Less(b, a)
    ensures a != b ==> Less(a, b) || Less(b, a)
    ensures Le(a, b) <==> Less(a, b) || a == b
  {
  }

  lemma LeAntisym(a: Dist, b: Dist)
    requires Le(a, b) && Le(b, a)
    ensures a == b
  {
  }

  lemma LeTrans(a: Dist, b: Dist, c: Dist)
    requires Le(a, b) && Le(b, c)
    ensures Le(a, c)
  {
  }

  lemma AddAssoc(a: Dist, b: Dist, c: Dist)
    ensures Add(Add(a, b), c) == Add(a, Add(b, c))
  {
  }

  lemma AddZero(a: Dist)
    ensures Add(a, Fin(0)) == a && Add(Fin(0), a) == a
  {
  }

  /** Adding the same value on either side preserves the order. */
  lemma AddMono(a: Dist, b: Dist, c: Dist)
    requires Le(a, b)
    ensures Le(Add(a, c), Add(c, b)) && Le(Add(c, a), Add(c, b)) && Le(Add(a, c), Add(b, c))
  {
  }

}
