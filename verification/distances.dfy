/** The values of the numpy distance matrix. Every finite entry is a sum of integer edge
    weights and every other entry is `np.inf`, so a distance is a natural number or
    infinity, and the float operations the algorithm uses behave as below. */
module Distances {

  datatype Dist = Fin(n: nat) | Inf

  /** Float `+`: infinity absorbs. */
  function Add(a: Dist, b: Dist): Dist {
    if a.Fin? && b.Fin? then Fin(a.n + b.n) else Inf
  }

  /** Float `<`: no finite value reaches infinity, and nothing is below itself. */
  predicate Less(a: Dist, b: Dist) {
    a.Fin? && (b.Inf? || a.n < b.n)
  }

  predicate Le(a: Dist, b: Dist) {
    !Less(b, a)
  }

  /** The relaxation step `if c < d: d = c`: the old value is kept unless the candidate is
      strictly smaller. */
  function Relax(d: Dist, c: Dist): (r: Dist)
    ensures Le(r, d) && Le(r, c)
    ensures r == d || r == c
  {
    if Less(c, d) then c else d
  }

  lemma LeTotalOrder(a: Dist, b: Dist, c: Dist)
    ensures Le(a, a)
    ensures Le(a, b) || Le(b, a)
    ensures Le(a, b) && Le(b, a) ==> a == b
    ensures Le(a, b) && Le(b, c) ==> Le(a, c)
  {
  }

  /** Weights are never negative: adding a distance never makes a value smaller. */
  lemma AddGrows(a: Dist, b: Dist)
    ensures Le(a, Add(a, b)) && Le(b, Add(a, b))
  {
  }

  lemma AddMonotone(a: Dist, b: Dist, c: Dist, d: Dist)
    requires Le(a, c) && Le(b, d)
    ensures Le(Add(a, b), Add(c, d))
  {
  }

  lemma AddAssoc(a: Dist, b: Dist, c: Dist)
    ensures Add(Add(a, b), c) == Add(a, Add(b, c))
  {
  }
}
