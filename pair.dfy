/** An ordered pair (src/gtf/math/types/Pair.java). */
module Pairs {
  import opened Wrappers
  import opened JavaPlatform

  /**
   * A pair of Java references, None standing for null. Dafny's `==` on the
   * component types stands for Java's reference comparison `==`; the
   * components' own equals() and hashCode() are not Dafny's `==`, and only
   * hashCode() is used, passed in as a function.
   */
  datatype Pair<X, Y> = Pair(x: Option<X>, y: Option<Y>)

  /**
   * Pair.equals: false for null and for any non-Pair; otherwise both
   * components must be the same references (Java `==`, not equals()).
   */
  function Equals<X(==), Y(==)>(p: Pair<X, Y>, o: JavaObject<Pair<X, Y>>): (r: bool)
    ensures o.NullReference? || o.OtherClassInstance? ==> !r
    ensures o.Instance? ==> (r <==> o.obj == p)
  {
    match o
    case Instance(q) => p.x == q.x && p.y == q.y
    case _ => false
  }

  /**
   * Pair.hashCode: the exclusive or of the components' hash codes; a null
   * component throws NullPointerException.
   */
  function HashCode<X, Y>(p: Pair<X, Y>, hashX: X -> Int32, hashY: Y -> Int32): (r: Result<Int32, JavaException>)
    ensures r.Err? <==> p.x.None? || p.y.None?
    ensures r.Err? ==> r.error == NullPointerException
    ensures r.Ok? ==> r.value == Xor32(hashX(p.x.value), hashY(p.y.value))
  {
    if p.x.None? || p.y.None? then Err(NullPointerException)
    else Ok(Xor32(hashX(p.x.value), hashY(p.y.value)))
  }

  /** equals is an equivalence on pairs, and equal pairs hash alike. */
  lemma EqualsConsistentWithHashCode<X, Y>(p: Pair<X, Y>, q: Pair<X, Y>, r: Pair<X, Y>,
                                     hashX: X -> Int32, hashY: Y -> Int32)
    ensures Equals(p, Instance(p))
    ensures Equals(p, Instance(q)) <==> Equals(q, Instance(p))
    ensures Equals(p, Instance(q)) && Equals(q, Instance(r)) ==> Equals(p, Instance(r))
    ensures Equals(p, Instance(q)) ==> HashCode(p, hashX, hashY) == HashCode(q, hashX, hashY)
  {
  }
}
