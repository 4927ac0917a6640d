/**
 * The guarded stack: a last-in-first-out container over one buffer that
 * holds a left canary, `capacity` element slots and a right canary, grows by
 * doubling, and keeps a checksum of its contents that is recomputed after
 * every mutation.
 *
 * The buffer's layout is modelled by an element array (whose length is the
 * capacity) and two canary fields; the left canary holds a reference to the
 * stack that owns it, the right canary a 32-bit constant.
 */
module GuardedStack {
  import opened ContentChecksum
  import opened Growth

  /** The value the right canary must hold. */
  const CANARY_CORRECT: bv32 := 0xBEDABEDA

  /**
   * Whether the bounds check of element access accepts index `i` on a stack
   * of `size` elements.
   */
  predicate IndexInRange(i: int, size: nat)
  {
    0 <= i < size
  }

  /**
   * `top` asks for the element at `size - 1`, computed in `size_t`: the bounds
   * check passes exactly when the stack is not empty, and on an empty stack
   * the index wraps to 2^64 - 1.
   */
  lemma TopIndexInRangeIff(size: nat)
    requires size < WORD
    ensures IndexInRange(SizeT(size - 1), size) <==> size > 0
    ensures size == 0 ==> SizeT(size - 1) == WORD - 1
  {
  }

  /**
   * Element type `T` is default-constructible (`T(0)`), as the source's fill
   * constructor requires of `Type`.
   */
  class Stack<T(0)> {
    /** The element hash (`std::hash<Type>`), supplied at construction. */
    const hasher: T -> U64
    /** The element slots; `elems.Length` is the capacity. */
    var elems: array<T>
    /** The number of live elements. */
    var size: nat
    /** The checksum stored after the last mutation. */
    var hashSum: U64
    /** The canary in front of the element slots; must identify this stack. */
    var canaryLeft: object?
    /** The canary behind the last element slot. */
    var canaryRight: bv32

    function CurrentShape(): Shape
      reads this
    {
      Shape(size, elems.Length)
    }

    /** The live elements, bottom first; the top of the stack is the last one. */
    function Contents(): seq<T>
      reads this, elems
      requires size <= elems.Length
    {
      elems[..size]
    }

    /**
     * The integrity check: structure first, then the canaries, then the
     * checksum recomputed from the live elements.  A stack that passes it
     * stores a checksum from which its size gives back the fold of its
     * contents, and whose bits from 30 upwards are those of its size.
     */
    predicate Ok()
      reads this, elems
      ensures Ok() ==>
        size <= elems.Length && Xor(hashSum, SizeT(size)) == Fold(hasher, elems[..size])
      ensures Ok() ==> hashSum / 0x4000_0000 == SizeT(size) / 0x4000_0000
    {
      ShapeOk(CurrentShape()) &&
      canaryLeft == this &&
      canaryRight == CANARY_CORRECT &&
      hashSum == Checksum(hasher, elems[..size])
    }

    /**
     * The structural part of the integrity check, plus at least one slot so
     * that doubling makes room: what `push` and `pop` need to stay inside the
     * buffer.
     */
    predicate Structural()
      reads this
    {
      ShapeOk(CurrentShape()) && elems.Length >= 1
    }

    /** The integrity check, plus at least one slot so that doubling makes room. */
    predicate Valid()
      reads this, elems
    {
      Ok() && Structural()
    }

    /** The default constructor: empty, one slot, checksum 0, canaries placed. */
    constructor (hasher: T -> U64)
      ensures Valid() && fresh(elems)
      ensures CurrentShape() == DefaultShape() && Contents() == []
      ensures hashSum == 0 && canaryLeft == this && canaryRight == CANARY_CORRECT
      ensures this.hasher == hasher
    {
      this.hasher := hasher;
      elems := new T[INITIAL_CAPACITY];
      size := 0;
      hashSum := 0;
      canaryLeft := null;
      canaryRight := 0;
      new;
      MakeCanaries();
    }

    /**
     * The fill constructor: n copies of `elem`, capacity n.  With n = 0 the
     * next push would break the integrity check, so n >= 1 is required.
     */
    constructor Fill(n: nat, elem: T, hasher: T -> U64)
      requires n >= 1
      ensures Valid() && fresh(elems)
      ensures CurrentShape() == FillShape(n)
      ensures Contents() == seq(n, _ => elem)
      ensures hashSum == Checksum(hasher, seq(n, _ => elem))
      ensures this.hasher == hasher
    {
      var slots := new T[n];
      var i := 0;
      while i < n
        invariant i <= n
        invariant forall j :: 0 <= j < i ==> slots[j] == elem
      {
        slots[i] := elem;
        i := i + 1;
      }
      this.hasher := hasher;
      elems := slots;
      size := n;
      hashSum := 0;
      canaryLeft := null;
      canaryRight := 0;
      new;
      MakeCanaries();
      hashSum := CalculateHashSum();
    }

    /**
     * A deep copy of a stack that passes its integrity check: same capacity,
     * same contents, same checksum, own buffer and own canaries.
     */
    constructor Copy(that: Stack<T>)
      requires that.Ok()
      ensures Ok() && fresh(elems)
      ensures CurrentShape() == that.CurrentShape()
      ensures Contents() == that.Contents()
      ensures hashSum == that.hashSum && this.hasher == that.hasher
    {
      var slots := new T[that.elems.Length];
      var i := 0;
      while i < that.size
        invariant i <= that.size
        invariant forall j :: 0 <= j < i ==> slots[j] == that.elems[j]
      {
        slots[i] := that.elems[i];
        i := i + 1;
      }
      hasher := that.hasher;
      elems := slots;
      size := that.size;
      hashSum := that.hashSum;
      canaryLeft := null;
      canaryRight := 0;
      new;
      assert elems[..size] == that.elems[..that.size];
      MakeCanaries();
    }

    /** Writes both canaries. */
    method MakeCanaries()
      modifies this`canaryLeft, this`canaryRight
      ensures canaryLeft == this && canaryRight == CANARY_CORRECT
    {
      canaryLeft := this;
      canaryRight := CANARY_CORRECT;
    }

    /** The element at index `i`, which must be below the size. */
    function ElementAt(i: nat): (r: T)
      reads this, elems
      requires size <= elems.Length && IndexInRange(i, size)
      ensures r == Contents()[i]
    {
      elems[i]
    }

    /** The most recently pushed element that has not been popped. */
    function Top(): (r: T)
      reads this, elems
      requires size <= elems.Length && size > 0
      ensures r == Contents()[|Contents()| - 1]
    {
      ElementAt(size - 1)
    }

    /** Recomputes the checksum of the live elements, one element at a time. */
    method CalculateHashSum() returns (r: U64)
      requires size <= elems.Length
      ensures r == Checksum(hasher, Contents())
    {
      var res: nat := 0;
      var i := 0;
      while i < size
        invariant i <= size
        invariant res == Fold(hasher, elems[..i])
      {
        res := res * HASH_MUL % HASH_MOD;
        res := SizeT(res + hasher(elems[i])) % HASH_MOD;
        assert elems[..i + 1][..i] == elems[..i];
        i := i + 1;
      }
      assert elems[..size] == Contents();
      assert Checksum(hasher, Contents()) == Xor(res, SizeT(size));
      r := Xor(res, SizeT(size));
    }

    /**
     * Grows the buffer when it is full: twice the slots, the live elements
     * kept in place, the old right canary erased and both canaries re-placed.
     * When the buffer is not full nothing changes.
     */
    method TryToExpand()
      requires Structural()
      modifies this
      ensures Structural() && size == old(size) && size < elems.Length
      ensures elems.Length == ExpandedCapacity(old(size), old(elems.Length))
      ensures Contents() == old(Contents()) && hashSum == old(hashSum)
      ensures old(size) < old(elems.Length) ==>
        elems == old(elems) && canaryLeft == old(canaryLeft) && canaryRight == old(canaryRight)
      ensures old(size) == old(elems.Length) ==>
        fresh(elems) && canaryLeft == this && canaryRight == CANARY_CORRECT
    {
      if size == elems.Length {
        var grown := new T[elems.Length * 2];
        forall j | 0 <= j < elems.Length {
          grown[j] := elems[j];
        }
        elems := grown;
        canaryRight := 0;
        MakeCanaries();
        assert elems[..size] == old(elems[..size]);
      }
    }

    /**
     * Pushes `x` on top: grows first when full, then stores `x` above the
     * live elements and recomputes the checksum.  The integrity check is not
     * consulted: whatever the stored checksum was, it is replaced by the
     * checksum of the new contents.
     */
    method Push(x: T)
      requires Structural()
      modifies this, elems
      ensures Structural()
      ensures CurrentShape() == PushShape(old(CurrentShape()))
      ensures Contents() == old(Contents()) + [x]
      ensures Top() == x
      ensures hashSum == Checksum(hasher, Contents())
      ensures old(size) < old(elems.Length) ==>
        elems == old(elems) && canaryLeft == old(canaryLeft) && canaryRight == old(canaryRight)
      ensures old(size) == old(elems.Length) ==>
        fresh(elems) && canaryLeft == this && canaryRight == CANARY_CORRECT
      ensures old(Valid()) ==> Valid()
    {
      TryToExpand();
      size := size + 1;
      elems[size - 1] := x;
      hashSum := CalculateHashSum();
    }

    /**
     * Removes the top element of a non-empty stack and recomputes the
     * checksum; the capacity, the canaries and the remaining elements are
     * unchanged.
     */
    method Pop()
      requires Structural() && size > 0
      modifies this
      ensures Structural() && elems == old(elems)
      ensures CurrentShape() == PopShape(old(CurrentShape()))
      ensures Contents() == old(Contents())[..old(size) - 1]
      ensures hashSum == Checksum(hasher, Contents())
      ensures canaryLeft == old(canaryLeft) && canaryRight == old(canaryRight)
      ensures old(Valid()) ==> Valid()
    {
      size := size - 1;
      hashSum := CalculateHashSum();
    }
  }
}
