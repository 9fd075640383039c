/** The scheduler's ring of PCB addresses: an array, a front index and a rear
    index, with no count of its own, so that full and empty look alike. */
module ProcessQueue {
  import opened Prelude

  const MAX_PROCESSES := 6
  const ADDR_4MB := 0x0040_0000
  const ADDR_8MB := 0x0080_0000
  const ADDR_8KB := 0x2000

  /** Where the PCB of a process lies: at the top of its 8 KB kernel stack area. */
  function PcbAddress(pid: nat): int {
    ADDR_8MB - pid * ADDR_8KB
  }

  /** The slot `i` places after `front`, around the ring. */
  function Slot(capacity: nat, front: nat, i: nat): (k: nat)
    requires front < capacity && i <= capacity
    ensures k < capacity || (front == k == capacity)
  {
    if front + i < capacity then front + i else front + i - capacity
  }

  /** The ring read from `front` is the sequence `q`, and `rear` is its last slot. */
  ghost predicate Represents(slots: seq<int>, front: int, rear: int, q: seq<int>) {
    && 0 <= front < |slots|
    && 0 <= rear < |slots|
    && |q| <= |slots|
    && Slot(|slots|, rear, 1) == Slot(|slots|, front, |q|)
    && forall i :: 0 <= i < |q| ==> slots[Slot(|slots|, front, i)] == q[i]
  }

  class ProcessQueue {
    const pcbs: array<int>
    var front: int
    var rear: int
    ghost var q: seq<int>           // the processes in the order they will run

    ghost predicate Valid()
      reads this, pcbs
    {
      pcbs.Length >= 2 && Represents(pcbs[..], front, rear, q)
    }

    /** pq_init. The first enqueue at the front will step back to slot 0. */
    constructor (capacity: nat := MAX_PROCESSES)
      requires capacity >= 2
      ensures Valid() && q == [] && pcbs.Length == capacity && front == 1 && rear == 0
      ensures fresh(pcbs)
    {
      pcbs := new int[capacity](_ => 0);
      front, rear, q := 1, 0, [];
    }

    /** pq_enqueue: adds a process, given by number, at the rear. Nothing stops
        it on a full ring, which it cannot tell from an empty one. */
    method Enqueue(processNum: nat) returns (r: int)
      requires Valid()
      modifies this, pcbs
      ensures Valid()
      ensures processNum > MAX_PROCESSES ==> r == FAIL && q == old(q)
      ensures processNum <= MAX_PROCESSES ==>
        r == SUCCESS && q == (if |old(q)| < pcbs.Length then old(q) else []) + [PcbAddress(processNum)]
    {
      if processNum > MAX_PROCESSES {
        return FAIL;
      }
      var thisPcb := PcbAddress(processNum);
      if rear >= pcbs.Length - 1 {
        rear := 0;
      } else {
        rear := rear + 1;
      }
      pcbs[rear] := thisPcb;
      q := (if |q| < pcbs.Length then q else []) + [thisPcb];
      return SUCCESS;
    }

    /** pq_enqueue_front: a process that starts running joins at the front. */
    method EnqueueFront(thisPcb: int) returns (r: int)
      requires Valid()
      modifies this, pcbs
      ensures Valid() && r == SUCCESS
      ensures q == [thisPcb] + if |old(q)| < pcbs.Length then old(q) else []
      ensures front == (if old(front) == 0 then pcbs.Length - 1 else old(front) - 1) && rear == old(rear)
    {
      front := front - 1;
      if front < 0 {
        front := pcbs.Length - 1;
      }
      pcbs[front] := thisPcb;
      q := [thisPcb] + if |q| < pcbs.Length then q else [];
      return SUCCESS;
    }

    /** pq_peak. */
    method Peak() returns (pcb: int)
      requires Valid() && q != []
      ensures pcb == q[0]
    {
      assert Slot(pcbs.Length, front, 0) == front;
      pcb := pcbs[front];
    }

    /** pq_dequeue. */
    method Dequeue() returns (pcb: int)
      requires Valid() && q != []
      modifies this
      ensures Valid() && pcb == old(q)[0] && q == old(q)[1..]
      ensures front == (if old(front) == pcbs.Length - 1 then 0 else old(front) + 1) && rear == old(rear)
    {
      assert Slot(pcbs.Length, front, 0) == front;
      pcb := pcbs[front];
      front := front + 1;
      if front >= pcbs.Length {
        front := 0;
      }
      q := q[1..];
    }

    /** pq_rotate as written: the rear index is not wrapped, so the caller must
        know that it is not at the end of the array. */
    method Rotate()
      requires Valid() && q != [] && rear < pcbs.Length - 1
      modifies this, pcbs
      ensures Valid() && q == Rotated(old(q))
      ensures Some(Now()) == RotatedRing(old(Now()))
    {
      RotatedRingRepresents(Now(), q);
      var oldFront := Dequeue();
      rear := rear + 1;
      pcbs[rear] := oldFront;
      q := q + [oldFront];
    }

    ghost function Now(): Ring
      reads this, pcbs
    {
      Ring(pcbs[..], front, rear)
    }

    /** The rotation with the wrap that pq_enqueue performs. */
    method RotateWrapped()
      requires Valid() && q != []
      modifies this, pcbs
      ensures Valid() && q == Rotated(old(q))
    {
      var oldFront := Dequeue();
      rear := if rear >= pcbs.Length - 1 then 0 else rear + 1;
      pcbs[rear] := oldFront;
      q := q + [oldFront];
    }
  }

  // ---- Rotation ---------------------------------------------------------------

  function Rotated<T>(q: seq<T>): (r: seq<T>)
    requires q != []
    ensures |r| == |q|
  {
    q[1..] + [q[0]]
  }

  function Rotations<T>(q: seq<T>, k: nat): (r: seq<T>)
    requires q != []
    ensures |r| == |q|
  {
    if k == 0 then q else Rotated(Rotations(q, k - 1))
  }

  lemma SlotOfSum(k: nat, n: nat, i: nat)
    requires i <= n && n > 0
    ensures (k + i) % n == Slot(n, k % n, i)
  {
    RemainderOfSum(k, i, n);
  }

  /** k rotations are a left rotation by k modulo the number of processes. */
  lemma {:induction false} RotationsShift<T>(q: seq<T>, k: nat)
    requires q != []
    ensures Rotations(q, k) == q[k % |q|..] + q[..k % |q|]
  {
    if k > 0 {
      RotationsShift(q, k - 1);
      SlotOfSum(k - 1, |q|, 1);
    }
  }

  /** Rotation neither loses nor duplicates a process. */
  lemma {:induction false} RotationsConserve<T>(q: seq<T>, k: nat)
    requires q != []
    ensures multiset(Rotations(q, k)) == multiset(q)
  {
    if k > 0 {
      RotationsConserve(q, k - 1);
      var r := Rotations(q, k - 1);
      assert r == [r[0]] + r[1..];
    }
  }

  /** Who is at the front after `k` rotations. */
  function FrontAfter<T>(q: seq<T>, k: nat): T
    requires q != []
  {
    Rotations(q, k)[0]
  }

  /** Any n consecutive rotations put every process at the front exactly once. */
  lemma EveryProcessRunsOnce<T>(q: seq<T>, start: nat, j: nat)
    requires q != [] && j < |q|
    requires forall a, b :: 0 <= a < b < |q| ==> q[a] != q[b]
    ensures exists k :: start <= k < start + |q| && FrontAfter(q, k) == q[j]
    ensures forall a, b :: start <= a < b < start + |q| ==> FrontAfter(q, a) != FrontAfter(q, b)
  {
    var n, s := |q|, start % |q|;
    forall k | start <= k < start + n ensures FrontAfter(q, k) == q[Slot(n, s, k - start)] {
      RotationsShift(q, k);
      SlotOfSum(start, n, k - start);
    }
    var k := start + if j >= s then j - s else j + n - s;
    assert FrontAfter(q, k) == q[j];
  }

  // ---- The unwrapped rear index ---------------------------------------------------

  datatype Ring = Ring(slots: seq<int>, front: int, rear: int) {
    predicate Valid() {
      0 <= front < |slots| && 0 <= rear < |slots|
    }
  }

  /** One rotation as written; None if the store would land beyond the array. */
  function RotatedRing(r: Ring): (next: Option<Ring>)
    requires r.Valid()
    ensures next.Some? ==> next.value.Valid()
  {
    if r.rear + 1 >= |r.slots| then None
    else Some(Ring(r.slots[r.rear + 1 := r.slots[r.front]], if r.front + 1 >= |r.slots| then 0 else r.front + 1, r.rear + 1))
  }

  function RotatedRings(r: Ring, k: nat): (next: Option<Ring>)
    requires r.Valid()
    ensures next.Some? ==> next.value.Valid()
  {
    if k == 0 then Some(r)
    else match RotatedRings(r, k - 1)
      case None => None
      case Some(s) => RotatedRing(s)
  }

  lemma RotatedRingRepresents(r: Ring, q: seq<int>)
    requires Represents(r.slots, r.front, r.rear, q) && q != [] && r.rear + 1 < |r.slots|
    ensures var s := RotatedRing(r).value; Represents(s.slots, s.front, s.rear, Rotated(q))
  {
    var n, s, rotated := |r.slots|, RotatedRing(r).value, Rotated(q);
    forall i | 0 <= i < |q| ensures s.slots[Slot(n, s.front, i)] == rotated[i] {
      assert Slot(n, r.front, 0) == r.front;
      if i < |q| - 1 {
        assert Slot(n, s.front, i) == Slot(n, r.front, i + 1);
        assert rotated[i] == q[i + 1];
      }
    }
  }

  lemma ThreeInRing(a: int, b: int, c: int)
    ensures Represents([c, 0, 0, 0, a, b], 4, 0, [a, b, c])
  {
  }

  /** Rotation as written stays inside the array for exactly as many rounds as
      there are slots after the rear, and that long it rotates the processes. */
  lemma {:induction false} RotationsAsWritten(r: Ring, q: seq<int>, k: nat)
    requires Represents(r.slots, r.front, r.rear, q) && q != []
    ensures RotatedRings(r, k).Some? <==> r.rear + k < |r.slots|
    ensures RotatedRings(r, k).Some? ==>
      var s := RotatedRings(r, k).value;
      |s.slots| == |r.slots| && s.rear == r.rear + k && Represents(s.slots, s.front, s.rear, Rotations(q, k))
  {
    if k > 0 {
      RotationsAsWritten(r, q, k - 1);
      if r.rear + k < |r.slots| {
        RotatedRingRepresents(RotatedRings(r, k - 1).value, Rotations(q, k - 1));
      }
    }
  }
}
