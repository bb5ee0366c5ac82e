/**
 * `vector::vector_iterator`: a bare position in the vector's block. It owns
 * nothing; the model keeps only its offset from the block's start, so that
 * arithmetic is index arithmetic and the six comparisons are index order.
 * Dereferencing goes through the container (`Vectors.Vector.Deref`).
 */
module Iterators {

  datatype Iterator = Iterator(index: int) {

    /** `++it`: one slot forward. */
    function Inc(): (r: Iterator)
      ensures r.Minus(this) == 1
    {
      Iterator(index + 1)
    }

    /** `--it`: one slot back. */
    function Dec(): (r: Iterator)
      ensures this.Minus(r) == 1
    {
      Iterator(index - 1)
    }

    /** `it + n` (and `it += n`). */
    function Add(n: int): (r: Iterator)
      ensures r.Minus(this) == n
    {
      Iterator(index + n)
    }

    /** `it - n` (and `it -= n`). */
    function Sub(n: int): (r: Iterator)
      ensures this.Minus(r) == n
    {
      Iterator(index - n)
    }

    /** `it - rhs`: the signed distance between two positions. */
    function Minus(rhs: Iterator): (d: int)
      ensures d == 0 <==> this == rhs
      ensures Iterator(rhs.index + d) == this
    {
      index - rhs.index
    }

    predicate Eq(rhs: Iterator)
      ensures Eq(rhs) <==> this.Minus(rhs) == 0
    {
      index == rhs.index
    }

    predicate Ne(rhs: Iterator)
      ensures Ne(rhs) <==> !Eq(rhs)
    {
      index != rhs.index
    }

    predicate Lt(rhs: Iterator)
      ensures Lt(rhs) <==> rhs.Minus(this) > 0
    {
      index < rhs.index
    }

    predicate Gt(rhs: Iterator)
      ensures Gt(rhs) <==> rhs.Lt(this)
    {
      index > rhs.index
    }

    predicate Le(rhs: Iterator)
      ensures Le(rhs) <==> Lt(rhs) || Eq(rhs)
    {
      index <= rhs.index
    }

    predicate Ge(rhs: Iterator)
      ensures Ge(rhs) <==> rhs.Le(this)
    {
      index >= rhs.index
    }
  }

  /** Stepping forward by n and back by n returns to the same position, and
      the distance of a shifted iterator is additive. */
  lemma AddSubRoundTrip(it: Iterator, n: int, m: int)
    ensures it.Add(n).Sub(n) == it
    ensures it.Add(n).Add(m) == it.Add(n + m)
    ensures it.Inc().Dec() == it && it.Dec().Inc() == it
  {
  }

  /** The comparisons form a strict total order on positions: exactly one of
      `<`, `==`, `>` holds. */
  lemma Trichotomy(a: Iterator, b: Iterator)
    ensures a.Lt(b) || a.Eq(b) || a.Gt(b)
    ensures !(a.Lt(b) && a.Eq(b)) && !(a.Lt(b) && a.Gt(b)) && !(a.Eq(b) && a.Gt(b))
  {
  }
}
