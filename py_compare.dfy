/**
 * Python's rich comparison of sequences (tuples, and strings by code point),
 * and the lexicographic order it amounts to.
 */
module PyCompare {

  /** The six comparison operators, in the order the spec pattern tries them. */
  datatype Op = Ge | Le | Gt | Lt | Eq | Ne

  /** What op answers for x and y, given whether x < y, x == y and x > y. */
  function Decide(op: Op, lt: bool, eq: bool, gt: bool): bool {
    match op
    case Ge => gt || eq
    case Le => lt || eq
    case Gt => gt
    case Lt => lt
    case Eq => eq
    case Ne => !eq
  }

  /** Python's comparison of two ints. */
  function IntOp(op: Op, x: int, y: int): bool {
    Decide(op, x < y, x == y, x > y)
  }

  /**
   * Python's comparison of two sequences: the first position where they
   * differ decides, by the comparison of those two elements (== and != are
   * decided by the difference itself); when one is a prefix of the other,
   * the lengths decide.
   */
  function SeqOp<T(==)>(op: Op, a: seq<T>, b: seq<T>, elemOp: (Op, T, T) -> bool): (r: bool)
    // == and != are element-wise equality, whatever the element comparison
    ensures op == Eq ==> (r <==> a == b)
    ensures op == Ne ==> (r <==> a != b)
    decreases |a|
  {
    if a == [] || b == [] then IntOp(op, |a|, |b|)
    else if a[0] == b[0] then
      assert a == b <==> a[1..] == b[1..] by {
        assert a == [a[0]] + a[1..] && b == [b[0]] + b[1..];
      }
      SeqOp(op, a[1..], b[1..], elemOp)
    else match op
      case Eq => false
      case Ne => true
      case _ => elemOp(op, a[0], b[0])
  }

  /** The lexicographic order built on less: a proper prefix comes first. */
  function LexLess<T(==)>(a: seq<T>, b: seq<T>, less: (T, T) -> bool): bool
    decreases |a|
  {
    if b == [] then false
    else if a == [] then true
    else if a[0] == b[0] then LexLess(a[1..], b[1..], less)
    else less(a[0], b[0])
  }

  ghost predicate StrictTotalOrder<T(!new)>(less: (T, T) -> bool) {
    && (forall x :: !less(x, x))
    && (forall x, y, z :: less(x, y) && less(y, z) ==> less(x, z))
    && (forall x, y :: x != y ==> less(x, y) || less(y, x))
  }

  /** elemOp answers every operator as the order less dictates. */
  ghost predicate Agrees<T(!new)>(elemOp: (Op, T, T) -> bool, less: (T, T) -> bool) {
    forall op, x, y :: elemOp(op, x, y) == Decide(op, less(x, y), x == y, less(y, x))
  }

  /** Python's sequence comparison answers every operator as the lexicographic order dictates. */
  lemma {:induction false} SeqOpDecides<T(!new)>(op: Op, a: seq<T>, b: seq<T>, elemOp: (Op, T, T) -> bool, less: (T, T) -> bool)
    requires Agrees(elemOp, less)
    ensures SeqOp(op, a, b, elemOp) == Decide(op, LexLess(a, b, less), a == b, LexLess(b, a, less))
    decreases |a|
  {
    if a == [] || b == [] {
    } else if a[0] == b[0] {
      SeqOpDecides(op, a[1..], b[1..], elemOp, less);
      assert a == [a[0]] + a[1..] && b == [b[0]] + b[1..];
      assert a == b <==> a[1..] == b[1..];
    } else {
      assert a != b by { assert a[0] != b[0]; }
    }
  }

  lemma {:induction false} LexIrreflexive<T>(a: seq<T>, less: (T, T) -> bool)
    ensures !LexLess(a, a, less)
    decreases |a|
  {
    if a != [] {
      LexIrreflexive(a[1..], less);
    }
  }

  lemma {:induction false} LexTransitive<T(!new)>(a: seq<T>, b: seq<T>, c: seq<T>, less: (T, T) -> bool)
    requires StrictTotalOrder(less)
    requires LexLess(a, b, less) && LexLess(b, c, less)
    ensures LexLess(a, c, less)
    decreases |a|
  {
    if a != [] && a[0] == b[0] && b[0] == c[0] {
      LexTransitive(a[1..], b[1..], c[1..], less);
    }
  }

  lemma {:induction false} LexConnected<T(!new)>(a: seq<T>, b: seq<T>, less: (T, T) -> bool)
    requires StrictTotalOrder(less)
    requires a != b
    ensures LexLess(a, b, less) || LexLess(b, a, less)
    decreases |a|
  {
    if a != [] && b != [] && a[0] == b[0] {
      assert a == [a[0]] + a[1..] && b == [b[0]] + b[1..];
      LexConnected(a[1..], b[1..], less);
    }
  }

  /** A proper extension comes after what it extends. */
  lemma {:induction false} LexPrefixLess<T>(a: seq<T>, x: seq<T>, less: (T, T) -> bool)
    requires x != []
    ensures LexLess(a, a + x, less)
    decreases |a|
  {
    if a != [] {
      assert (a + x)[1..] == a[1..] + x;
      LexPrefixLess(a[1..], x, less);
    }
  }

  /** After a common prefix, the first differing elements decide. */
  lemma {:induction false} LexAfterPrefix<T>(p: seq<T>, a: seq<T>, b: seq<T>, less: (T, T) -> bool)
    requires a != [] && b != [] && a[0] != b[0]
    ensures LexLess(p + a, p + b, less) == less(a[0], b[0])
    decreases |p|
  {
    if p != [] {
      assert (p + a)[1..] == p[1..] + a;
      assert (p + b)[1..] == p[1..] + b;
      LexAfterPrefix(p[1..], a, b, less);
    }
  }
}
