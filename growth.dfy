/**
 * The size and capacity arithmetic of the guarded stack, on values: what
 * the constructors set, how `push` grows the buffer (`tryToExpand`) and
 * what `pop` leaves, together with the structural clause `size <= capacity`
 * of the integrity check.
 */
module Growth {

  /** Capacity of a default-constructed stack. */
  const INITIAL_CAPACITY: nat := 1

  /** The element count and the number of allocated slots. */
  datatype Shape = Shape(size: nat, capacity: nat)

  /** The structural clause of the integrity check. */
  predicate ShapeOk(sh: Shape)
  {
    sh.size <= sh.capacity
  }

  /** The capacity after `tryToExpand`: doubled when the buffer is full. */
  function ExpandedCapacity(size: nat, capacity: nat): nat
  {
    if size == capacity then capacity * 2 else capacity
  }

  /** The shape of a default-constructed stack. */
  function DefaultShape(): Shape
  {
    Shape(0, INITIAL_CAPACITY)
  }

  /** The shape of a stack filled with n copies of one value, as written. */
  function FillShape(n: nat): Shape
  {
    Shape(n, n)
  }

  /** The shape after `push`: expand if full, then one more element. */
  function PushShape(sh: Shape): Shape
  {
    Shape(sh.size + 1, ExpandedCapacity(sh.size, sh.capacity))
  }

  /** The shape after `pop` of a non-empty stack: capacity is kept. */
  function PopShape(sh: Shape): Shape
    requires sh.size > 0
  {
    Shape(sh.size - 1, sh.capacity)
  }

  /**
   * From a well-formed shape with at least one slot, `push` keeps the shape
   * well-formed, never shrinks the capacity, and changes the capacity exactly
   * when the stack was full, in which case it doubles it.
   */
  lemma PushKeepsShape(sh: Shape)
    requires ShapeOk(sh) && sh.capacity >= 1
    ensures ShapeOk(PushShape(sh)) && PushShape(sh).capacity >= 1
    ensures PushShape(sh).size == sh.size + 1
    ensures PushShape(sh).capacity >= sh.capacity
    ensures PushShape(sh).capacity != sh.capacity <==> sh.size == sh.capacity
    ensures sh.size == sh.capacity ==> PushShape(sh).capacity == 2 * sh.capacity
  {
  }

  /** `pop` keeps a well-formed shape well-formed and leaves the capacity alone. */
  lemma PopKeepsShape(sh: Shape)
    requires ShapeOk(sh) && sh.size > 0
    ensures ShapeOk(PopShape(sh))
    ensures PopShape(sh).size == sh.size - 1 && PopShape(sh).capacity == sh.capacity
  {
  }

  /** Both constructors (the fill one for n >= 1) give a well-formed shape with room to grow. */
  lemma ConstructedShapesOk(n: nat)
    requires n >= 1
    ensures ShapeOk(DefaultShape()) && DefaultShape().capacity >= 1
    ensures ShapeOk(FillShape(n)) && FillShape(n).capacity >= 1
  {
  }

  /**
   * The fill constructor with n = 0 gives a shape that passes the check, but
   * the next `push` "doubles" 0 to 0 and leaves size 1 above capacity 0.
   */
  lemma EmptyFillThenPushBreaksShape()
    ensures ShapeOk(FillShape(0))
    ensures PushShape(FillShape(0)) == Shape(1, 0)
    ensures !ShapeOk(PushShape(FillShape(0)))
  {
  }

  /** An operation a caller may invoke on the stack. */
  datatype Op = Push | Pop

  /** The result of running operations: a shape, or a fatal assertion (pop on empty). */
  datatype Outcome = Running(shape: Shape) | Aborted

  /** Runs `ops` in order from `sh`; a `pop` on an empty stack aborts the process. */
  function Run(sh: Shape, ops: seq<Op>): Outcome
    decreases |ops|
  {
    if ops == [] then Running(sh)
    else match ops[0]
      case Push => Run(PushShape(sh), ops[1..])
      case Pop => if sh.size == 0 then Aborted else Run(PopShape(sh), ops[1..])
  }

  /**
   * Any sequence of pushes and pops from a well-formed shape with at least one
   * slot either aborts on a pop of an empty stack or ends in a well-formed
   * shape whose capacity is at least the starting one.
   */
  lemma {:induction false} RunKeepsShape(sh: Shape, ops: seq<Op>)
    requires ShapeOk(sh) && sh.capacity >= 1
    ensures Run(sh, ops).Running? ==>
      ShapeOk(Run(sh, ops).shape) && Run(sh, ops).shape.capacity >= sh.capacity
    decreases |ops|
  {
    if ops != [] {
      match ops[0]
      case Push =>
        PushKeepsShape(sh);
        RunKeepsShape(PushShape(sh), ops[1..]);
      case Pop =>
        if sh.size > 0 {
          RunKeepsShape(PopShape(sh), ops[1..]);
        }
    }
  }

  /** `n` copies of one operation. */
  function Repeat(op: Op, n: nat): (r: seq<Op>)
    ensures |r| == n && forall i :: 0 <= i < n ==> r[i] == op
  {
    if n == 0 then [] else [op] + Repeat(op, n - 1)
  }

  /**
   * Pushing n elements and then popping n elements never aborts and returns
   * to the starting size with a capacity no smaller than the starting one.
   */
  lemma {:induction false} PushesThenPops(sh: Shape, n: nat)
    requires ShapeOk(sh) && sh.capacity >= 1
    ensures Run(sh, Repeat(Push, n) + Repeat(Pop, n)).Running?
    ensures Run(sh, Repeat(Push, n) + Repeat(Pop, n)).shape.size == sh.size
    ensures Run(sh, Repeat(Push, n) + Repeat(Pop, n)).shape.capacity >= sh.capacity
  {
    PushedShape(sh, n);
    RunAppend(sh, Repeat(Push, n), Repeat(Pop, n));
    PopsFrom(Run(sh, Repeat(Push, n)).shape, n);
  }

  /** Running `a + b` is running `a`, then `b` from where it left off. */
  lemma {:induction false} RunAppend(sh: Shape, a: seq<Op>, b: seq<Op>)
    ensures Run(sh, a + b) == if Run(sh, a).Aborted? then Aborted else Run(Run(sh, a).shape, b)
    decreases |a|
  {
    if a == [] {
      assert a + b == b;
    } else {
      assert (a + b)[0] == a[0] && (a + b)[1..] == a[1..] + b;
      match a[0]
      case Push => RunAppend(PushShape(sh), a[1..], b);
      case Pop => if sh.size > 0 { RunAppend(PopShape(sh), a[1..], b); }
    }
  }

  /** n pushes add n to the size and keep a well-formed shape that has not shrunk. */
  lemma {:induction false} PushedShape(sh: Shape, n: nat)
    requires ShapeOk(sh) && sh.capacity >= 1
    ensures Run(sh, Repeat(Push, n)).Running?
    ensures Run(sh, Repeat(Push, n)).shape.size == sh.size + n
    ensures ShapeOk(Run(sh, Repeat(Push, n)).shape)
    ensures Run(sh, Repeat(Push, n)).shape.capacity >= sh.capacity
    decreases n
  {
    if n > 0 {
      PushKeepsShape(sh);
      PushedShape(PushShape(sh), n - 1);
      assert Repeat(Push, n)[1..] == Repeat(Push, n - 1);
    }
  }

  /** n pops from a size of at least n subtract n and keep the capacity. */
  lemma {:induction false} PopsFrom(sh: Shape, n: nat)
    requires n <= sh.size
    ensures Run(sh, Repeat(Pop, n)) == Running(Shape(sh.size - n, sh.capacity))
    decreases n
  {
    if n > 0 {
      assert Repeat(Pop, n)[1..] == Repeat(Pop, n - 1);
      PopsFrom(PopShape(sh), n - 1);
    }
  }
}
