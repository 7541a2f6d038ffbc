/** A ring queue that doubles its buffer when full, refined to a FIFO sequence, with the cost of its expansions. */
module CircularQueues {
  import opened Wrappers

  // ---------------------------------------------------------------- rings as sequences

  /** The position `i` places after `front` in a ring of `n` slots. */
  function Wrap(front: int, i: int, n: int): int {
    if front + i < n then front + i else front + i - n
  }

  /** The `size` elements of the ring `a` from `front` on. */
  ghost function Ring<T>(a: seq<T>, front: int, size: int): seq<T>
    requires 0 <= size <= |a| && (front == 0 || 0 <= front < |a|)
  {
    if front + size <= |a| then a[front..front + size] else a[front..] + a[..front + size - |a|]
  }

  lemma WrapIsMod(front: int, n: int)
    requires 0 <= front < n
    ensures (front + 1) % n == Wrap(front, 1, n)
  {
  }

  lemma RingPush<T>(a: seq<T>, front: int, size: int, v: T)
    requires 0 <= size < |a| && 0 <= front < |a|
    ensures 0 <= Wrap(front, size, |a|) < |a|
    ensures Ring(a[Wrap(front, size, |a|) := v], front, size + 1) == Ring(a, front, size) + [v]
  {
  }

  lemma RingPop<T>(a: seq<T>, front: int, size: int)
    requires 0 < size <= |a| && 0 <= front < |a|
    ensures |Ring(a, front, size)| == size
    ensures Ring(a, Wrap(front, 1, |a|), size - 1) == Ring(a, front, size)[1..]
  {
  }

  lemma RingAt<T>(a: seq<T>, front: int, size: int, r: seq<T>)
    requires 0 <= size == |r| <= |a| && (front == 0 || 0 <= front < |a|)
    requires forall i :: 0 <= i < size ==> 0 <= Wrap(front, i, |a|) < |a| && r[i] == a[Wrap(front, i, |a|)]
    ensures r == Ring(a, front, size)
  {
  }

  /** Rings that agree on the occupied positions hold the same elements. */
  lemma RingSame<T>(a: seq<T>, b: seq<T>, front: int, size: int)
    requires |a| == |b| && 0 <= size <= |a| && (front == 0 || 0 <= front < |a|)
    requires forall i :: 0 <= i < size ==>
               0 <= Wrap(front, i, |a|) < |a| && a[Wrap(front, i, |a|)] == b[Wrap(front, i, |a|)]
    ensures Ring(a, front, size) == Ring(b, front, size)
  {
    RingAt(b, front, size, seq(size, i requires 0 <= i < size => a[Wrap(front, i, |a|)]));
    RingAt(a, front, size, seq(size, i requires 0 <= i < size => a[Wrap(front, i, |a|)]));
  }

  /** One of the copy loops: `src[lo..hi]` to `dst` from `at` on. */
  method CopyRange<T>(src: array<T>, lo: int, hi: int, dst: array<T>, at: int)
    requires src != dst && 0 <= lo <= hi <= src.Length && 0 <= at && at + hi - lo <= dst.Length
    modifies dst
    ensures forall k :: at <= k < at + hi - lo ==> dst[k] == src[lo + k - at]
    ensures forall k :: 0 <= k < at || at + hi - lo <= k < dst.Length ==> dst[k] == old(dst[k])
  {
    for i := lo to hi
      invariant forall k :: at <= k < at + i - lo ==> dst[k] == src[lo + k - at]
      invariant forall k :: 0 <= k < at || at + i - lo <= k < dst.Length ==> dst[k] == old(dst[k])
    {
      dst[at + i - lo] := src[i];
    }
  }

  // ---------------------------------------------------------------- the queue

  class CircularQueue<T(0)> {
    var arr: array<T>
    var capacity: int
    var front: int
    var rear: int
    var size: int
    /** Pushes so far, and elements copied by expansions so far. */
    ghost var pushes: nat
    ghost var copied: nat

    ghost predicate Valid()
      reads this
    {
      && arr.Length == capacity && 0 <= size <= capacity
      && (if capacity == 0 then front == 0 && rear == 0
          else 0 <= front < capacity && rear == Wrap(front, size, capacity))
    }

    /** Every element was pushed, and the buffer has paid for its expansions. */
    ghost predicate Paid()
      reads this
    {
      size <= pushes && copied <= capacity && (copied > 0 ==> capacity <= 2 * pushes)
    }

    /** The queued elements, oldest first. */
    ghost function Contents(): seq<T>
      requires Valid()
      reads this, arr
    {
      Ring(arr[..], front, size)
    }

    /** The clamp to 4 comes after the capacity was fixed, so it has no effect. */
    constructor (initCapacity: int)
      requires initCapacity >= 0
      ensures Valid() && Contents() == [] && capacity == initCapacity && fresh(arr)
      ensures Paid() && pushes == 0 && copied == 0
    {
      capacity := initCapacity;
      front, rear, size := 0, 0, 0;
      arr := new T[initCapacity];
      pushes, copied := 0, 0;
    }

    /** Only the occupied positions are copied, to the same positions. */
    constructor Copy(other: CircularQueue<T>)
      requires other.Valid()
      ensures Valid() && Contents() == other.Contents() && fresh(arr)
      ensures capacity == other.capacity && pushes == other.pushes && copied == other.copied
    {
      capacity, size, front, rear := other.capacity, other.size, other.front, other.rear;
      arr := new T[other.capacity];
      pushes, copied := other.pushes, other.copied;
      new;
      hide Ring;
      if size > 0 {
        if rear <= front {
          CopyRange(other.arr, front, capacity, arr, front);
          CopyRange(other.arr, 0, rear, arr, 0);
        } else {
          CopyRange(other.arr, front, rear, arr, front);
        }
      }
      RingSame(arr[..], other.arr[..], front, size);
    }

    predicate IsEmpty()
      reads this
    {
      size == 0
    }

    predicate IsFull()
      reads this
    {
      size == capacity
    }

    method Push(value: T) returns (ok: bool)
      requires Valid()
      modifies this, arr
      ensures Valid() && ok && Contents() == old(Contents()) + [value]
      ensures arr == old(arr) || fresh(arr)
      ensures old(Paid()) ==> Paid()
      ensures pushes == old(pushes) + 1
      ensures capacity == if !old(IsFull()) then old(capacity) else if old(capacity) == 0 then 4 else 2 * old(capacity)
    {
      hide Ring;
      if IsFull() {
        Expand();
      }
      RingPush(arr[..], front, size, value);
      WrapIsMod(rear, capacity);
      ghost var a := arr[..];
      arr[rear] := value;
      assert arr[..] == a[rear := value];
      rear := (rear + 1) % capacity;
      size := size + 1;
      pushes := pushes + 1;
      ok := true;
    }

    method Pop() returns (ok: bool)
      requires Valid()
      modifies this
      ensures Valid() && arr == old(arr)
      ensures ok <==> old(Contents()) != []
      ensures Contents() == if ok then old(Contents())[1..] else []
      ensures (old(Paid()) ==> Paid()) && pushes == old(pushes) && copied == old(copied)
    {
      if IsEmpty() {
        return false;
      }
      hide Ring;
      RingPop(arr[..], front, size);
      WrapIsMod(front, capacity);
      front := (front + 1) % capacity;
      size := size - 1;
      return true;
    }

    method GetFront() returns (r: Option<T>)
      requires Valid()
      ensures r == if Contents() == [] then None else Some(Contents()[0])
    {
      if IsEmpty() {
        return None;
      }
      return Some(arr[front]);
    }

    /** Doubles the buffer and straightens the ring; the elements and their order stay, whatever the fill. */
    method Expand()
      requires Valid()
      modifies this
      ensures Valid() && fresh(arr) && Contents() == old(Contents())
      ensures capacity == (if old(capacity) == 0 then 4 else 2 * old(capacity))
      ensures front == 0 && rear == size == old(size) && pushes == old(pushes)
      ensures old(IsFull()) ==> copied == old(copied) + size
      ensures old(Paid()) && old(IsFull()) ==> Paid()
    {
      var newCapacity := if capacity == 0 then 4 else capacity * 2;
      var newArr := new T[newCapacity];
      var idx := CopyOut(newArr);
      copied := copied + idx;
      arr := newArr;
      capacity := newCapacity;
      front := 0;
      rear := size;
    }

    /** The copy loops of `Expand`: the elements in queue order, to the start of `newArr`. */
    method CopyOut(newArr: array<T>) returns (idx: int)
      requires Valid() && newArr != arr && capacity <= newArr.Length
      modifies newArr
      ensures newArr[..size] == Contents()
      ensures 0 <= idx <= capacity && (IsFull() ==> idx == size)
    {
      hide Ring;
      idx := 0;
      if rear <= front {
        CopyRange(arr, front, capacity, newArr, 0);
        idx := capacity - front;
        CopyRange(arr, 0, rear, newArr, idx);
        idx := idx + rear;
      } else {
        CopyRange(arr, front, rear, newArr, 0);
        idx := rear - front;
      }
      RingAt(arr[..], front, size, newArr[..size]);
    }
  }

  // ---------------------------------------------------------------- runs

  datatype Op<T> = Push(value: T) | Pop

  ghost function FifoStep<T>(contents: seq<T>, op: Op<T>): seq<T> {
    match op
    case Push(v) => contents + [v]
    case Pop => if contents == [] then [] else contents[1..]
  }

  /** What a run of operations does to a FIFO sequence; popping an empty one does nothing. */
  ghost function Fifo<T>(contents: seq<T>, ops: seq<Op<T>>): seq<T>
    decreases |ops|
  {
    if ops == [] then contents else Fifo(FifoStep(contents, ops[0]), ops[1..])
  }

  ghost function PushCount<T>(ops: seq<Op<T>>): nat {
    if ops == [] then 0 else (if ops[0].Push? then 1 else 0) + PushCount(ops[1..])
  }

  /**
   * Over every run, from any initial capacity, the queue is the FIFO sequence, and expansions copy at most two elements
   * per push.
   */
  method Run<T(0)>(initCapacity: nat, ops: seq<Op<T>>) returns (q: CircularQueue<T>)
    ensures q.Valid() && q.Contents() == Fifo([], ops)
    ensures q.pushes == PushCount(ops) && q.copied <= 2 * PushCount(ops)
  {
    q := new CircularQueue(initCapacity);
    for i := 0 to |ops|
      invariant q.Valid() && q.Paid() && fresh(q) && fresh(q.arr)
      invariant Fifo(q.Contents(), ops[i..]) == Fifo([], ops)
      invariant q.pushes + PushCount(ops[i..]) == PushCount(ops)
    {
      assert ops[i..][0] == ops[i] && ops[i..][1..] == ops[i + 1..];
      match ops[i] {
        case Push(v) => var _ := q.Push(v);
        case Pop => var _ := q.Pop();
      }
    }
  }
}
