/** The list of blinking characters: a linked list whose nodes come from a fixed
    pool, in which a location of zero marks a free slot. */
module Blink {
  import opened Prelude
  import opened Bytes

  const SIZE := 80 * 25
  const WORD := 0x1_0000

  type word = w: int | 0 <= w < WORD

  // ---- The list as a value -----------------------------------------------------

  datatype Blinker = Blinker(location: word, onChar: byte, offChar: byte, onLength: word, offLength: word,
                             countdown: word, status: word)
  {
    predicate On() {
      status % 2 == 1
    }

    /** The character that a blinker of this status shows. */
    function Shown(): byte {
      if On() then onChar else offChar
    }

    /** What a newly added blinker looks like. */
    function Lit(): Blinker {
      this.(status := 1, countdown := onLength)
    }
  }

  const CLEARED := Blinker(0, 0, 0, 0, 0, 0, 0)

  /** One tick of a blinker: the 16-bit countdown is compared with zero as a signed number. */
  function Ticked(b: Blinker): (r: Blinker)
    ensures r.location == b.location
  {
    var countdown := (b.countdown - 1) % WORD;
    if 0 < countdown < WORD / 2 then b.(countdown := countdown)
    else if b.On() then b.(countdown := b.offLength, status := b.status - 1)
    else b.(countdown := b.onLength, status := b.status + 1)
  }

  function TickedAll(bs: seq<Blinker>): (r: seq<Blinker>)
    ensures |r| == |bs|
  {
    seq(|bs|, k requires 0 <= k < |bs| => Ticked(bs[k]))
  }

  /** The list and the screen it blinks on. */
  datatype View = View(blinkers: seq<Blinker>, screen: seq<byte>)

  function Poke(screen: seq<byte>, location: nat, c: byte): (r: seq<byte>)
    requires 2 * location < |screen|
    ensures |r| == |screen|
  {
    screen[2 * location := c]
  }

  predicate OnScreen(bs: seq<Blinker>) {
    forall k :: 0 <= k < |bs| ==> 0 < bs[k].location < SIZE
  }

  /** A tick pokes the cell of every blinker that changes. */
  function Painted(screen: seq<byte>, b: Blinker): (r: seq<byte>)
    requires 2 * b.location < |screen|
    ensures |r| == |screen|
  {
    if Ticked(b).status == b.status then screen else Poke(screen, b.location, Ticked(b).Shown())
  }

  function PaintedAll(screen: seq<byte>, bs: seq<Blinker>): (r: seq<byte>)
    requires OnScreen(bs) && |screen| >= 2 * SIZE
    ensures |r| == |screen|
    decreases |bs|
  {
    if bs == [] then screen else PaintedAll(Painted(screen, bs[0]), bs[1..])
  }

  lemma PaintedNext(screen: seq<byte>, bs: seq<Blinker>)
    requires OnScreen(bs) && |screen| >= 2 * SIZE
    ensures bs == [] ==> PaintedAll(screen, bs) == screen
    ensures bs != [] ==>
      && 0 < bs[0].location < SIZE && OnScreen(bs[1..])
      && PaintedAll(screen, bs) == PaintedAll(Painted(screen, bs[0]), bs[1..])
  {
  }

  /** The first `k` blinkers have ticked, the others have still to be painted. */
  ghost predicate Midway(v: View, was: seq<Blinker>, start: seq<byte>, k: nat) {
    && k <= |was| && |v.screen| >= 2 * SIZE && |start| >= 2 * SIZE && OnScreen(was) && OnScreen(was[k..])
    && v.blinkers == TickedAll(was[..k]) + was[k..]
    && PaintedAll(v.screen, was[k..]) == PaintedAll(start, was)
  }

  lemma FromStartToEnd(was: seq<Blinker>, start: seq<byte>)
    requires OnScreen(was) && |start| >= 2 * SIZE
    ensures Midway(View(was, start), was, start, 0)
    ensures forall v :: Midway(v, was, start, |was|) ==> v == Tick(View(was, start))
  {
    TickedNone(was);
    hide TickedAll, Painted;
  }

  /** The first blinker at a location, or the length of the list. */
  function FirstAt(bs: seq<Blinker>, location: nat): (k: nat)
    ensures k <= |bs|
    ensures k < |bs| ==> bs[k].location == location
    ensures forall j :: 0 <= j < k ==> bs[j].location != location
  {
    if bs == [] || bs[0].location == location then 0 else 1 + FirstAt(bs[1..], location)
  }

  // ---- The list in memory ---------------------------------------------------------

  class Node {
    var location: word
    var onChar: byte
    var offChar: byte
    var onLength: word
    var offLength: word
    var countdown: word
    var status: word
    var next: Node?

    constructor ()
      ensures Value() == CLEARED && next == null
    {
      location, onChar, offChar, onLength, offLength, countdown, status, next := 0, 0, 0, 0, 0, 0, 0, null;
    }

    function Value(): Blinker
      reads this`location, this`onChar, this`offChar, this`onLength, this`offLength, this`countdown, this`status
    {
      Blinker(location, onChar, offChar, onLength, offLength, countdown, status)
    }

    /** When the countdown has run out, the other character is poked and the
        other length counted. */
    method CountDown(screen: array<byte>)
      requires location < SIZE && screen.Length >= 2 * SIZE
      modifies this, screen
      ensures Value() == Ticked(old(Value())) && next == old(next)
      ensures screen[..] == Painted(old(screen[..]), old(Value()))
    {
      countdown := (countdown - 1) % WORD;
      if !(0 < countdown < WORD / 2) {
        if status % 2 == 1 {
          screen[location * 2] := offChar;
          countdown := offLength;
          status := status - 1;
        } else {
          screen[location * 2] := onChar;
          countdown := onLength;
          status := status + 1;
        }
      }
    }

    /** ece391_memcpy of a whole structure: the link is copied too. */
    method CopyFrom(b: Blinker, link: Node?)
      modifies this
      ensures Value() == b && next == link
    {
      location, onChar, offChar, onLength := b.location, b.onChar, b.offChar, b.onLength;
      offLength, countdown, status, next := b.offLength, b.countdown, b.status, link;
    }
  }

  ghost predicate Distinct<T>(s: seq<T>) {
    forall i, j :: 0 <= i < j < |s| ==> s[i] != s[j]
  }

  ghost function NodeAt(nodes: seq<Node>, k: nat): Node? {
    if k < |nodes| then nodes[k] else null
  }

  class BlinkList {
    const pool: seq<Node>
    const screen: array<byte>
    var head: Node?
    ghost var nodes: seq<Node>          // the listed nodes, from the head on
    ghost var blinkers: seq<Blinker>    // what they hold

    /** The list is linked through distinct pool nodes, so it has no cycle. */
    ghost predicate Linked()
      reads this, pool
    {
      FromPool() && Chained() && Held()
    }

    ghost predicate FromPool()
      reads this
    {
      && |pool| == SIZE && Distinct(pool) && screen.Length >= 2 * SIZE
      && Distinct(nodes) && forall k :: 0 <= k < |nodes| ==> nodes[k] in pool
    }

    ghost predicate Chained()
      requires FromPool()
      reads this, pool
    {
      && head == NodeAt(nodes, 0)
      && forall k {:trigger nodes[k].next} :: 0 <= k < |nodes| ==> nodes[k].next == NodeAt(nodes, k + 1)
    }

    /** `blinkers` is what the listed nodes hold. */
    ghost predicate Held()
      requires FromPool()
      reads this, pool
    {
      |blinkers| == |nodes| && forall k :: 0 <= k < |nodes| ==> nodes[k].Value() == blinkers[k]
    }

    /** The listed nodes are exactly the pool slots in use. */
    ghost predicate Valid()
      reads this, pool
    {
      && Linked() && OnScreen(blinkers)
      && forall n :: n in pool && n !in nodes ==> n.location == 0
    }

    ghost function State(): View
      reads this, screen
    {
      View(blinkers, screen[..])
    }

    /** The pool zeroed by main, and an empty list. */
    constructor (screen: array<byte>)
      requires screen.Length >= 2 * SIZE
      ensures Valid() && blinkers == [] && this.screen == screen
      ensures fresh(pool)
    {
      var slots: seq<Node> := [];
      while |slots| < SIZE
        invariant |slots| <= SIZE && Distinct(slots)
        invariant fresh(slots) && forall n :: n in slots ==> n.location == 0
      {
        var n := new Node();
        slots := slots + [n];
      }
      pool, this.screen := slots, screen;
      head, nodes, blinkers := null, [], [];
    }

    /** mp1_malloc: the first slot whose location is zero. */
    method Malloc() returns (slot: Node?)
      ensures slot == null <==> forall n :: n in pool ==> n.location != 0
      ensures slot != null ==> exists i: nat :: FirstFree(i) && slot == pool[i]
    {
      for i := 0 to |pool|
        invariant forall j :: 0 <= j < i ==> pool[j].location != 0
      {
        if pool[i].location == 0 {
          assert FirstFree(i) && pool[i] in pool;
          return pool[i];
        }
      }
      return null;
    }

    ghost predicate FirstFree(i: nat)
      reads pool
    {
      i < |pool| && pool[i].location == 0 && forall j :: 0 <= j < i ==> pool[j].location != 0
    }
  
    /** mp1_ioctl_add. */
    method Add(b: Blinker) returns (r: int)
      requires Linked()
      modifies this, pool, screen
      ensures old(Valid()) ==>
        && r == (if b.location >= SIZE || |old(blinkers)| == SIZE then FAIL else SUCCESS)
        && (r == FAIL ==> State() == old(State()))
        && (r == SUCCESS ==> State() == Added(old(State()), b))
        && Linked() && (Valid() <==> r == FAIL || b.location != 0)
        && (r == SUCCESS && b.location == 0 ==> HeadIsFree())
      ensures old(HeadIsFree()) && b.location < SIZE ==> r == SUCCESS && head == old(head) && head != null && head.next == head
    {
      if b.location >= SIZE {
        return FAIL;
      }
      var slot := Malloc();
      if Valid() {
        FullIffAllUsed();
      }
      if slot == null {
        return FAIL;
      }
      Push(slot, b.Lit());
      screen[2 * slot.location] := slot.onChar;
      return SUCCESS;
    }

    /** The head of the list is the slot that the allocator will hand out next. */
    ghost predicate HeadIsFree()
      reads this, pool
    {
      exists i: nat :: FirstFree(i) && pool[i] == head
    }

    /** Any sequence of adds, removes and ticks is, in memory, the run of the list and screen. */
    method Perform(ops: seq<Op>)
      requires Valid() && Run(State(), ops).Some?
      modifies this, pool, screen
      ensures Valid() && Some(State()) == Run(old(State()), ops)
    {
      assert ops[0..] == ops;
      for i := 0 to |ops|
        invariant Valid() && Run(State(), ops[i..]) == Run(old(State()), ops)
      {
        assert ops[i..][1..] == ops[i + 1..];
        PerformOne(ops[i]);
      }
    }

    method PerformOne(op: Op)
      requires Valid() && Apply(State(), op).Some?
      modifies this, pool, screen
      ensures Valid() && Some(State()) == Apply(old(State()), op)
    {
      match op {
        case Add(b) =>
          var r := Add(b);
        case Remove(arg) =>
          var r := Remove(arg);
        case Tasklet =>
          Tasklet();
      }
    }

    /** Copies a structure to a slot and makes it the head of the list. */
    method Push(slot: Node, b: Blinker)
      requires Linked() && slot in pool
      modifies this, slot
      ensures slot.Value() == b && head == slot && slot.next == old(head)
      ensures slot !in old(nodes) ==> Linked() && nodes == [slot] + old(nodes) && blinkers == [b] + old(blinkers)
    {
      slot.CopyFrom(b, head);
      head := slot;
      if slot !in nodes {
        nodes, blinkers := [slot] + nodes, [b] + blinkers;
      }
    }

    /** mp1_rtc_tasklet: every listed blinker counts down and may change. */
    method Tasklet()
      requires Valid()
      modifies this, pool, screen
      ensures Valid() && nodes == old(nodes)
      ensures State() == Tick(old(State()))
    {
      ghost var was, start := blinkers, screen[..];
      hide Midway, Tick, OnScreen;
      FromStartToEnd(was, start);
      var n, k := head, 0;
      while n != null
        invariant Valid() && nodes == old(nodes) && k <= |nodes| && n == NodeAt(nodes, k)
        invariant Midway(State(), was, start, k)
        decreases |nodes| - k
      {
        TickRound(n, k, was, start);
        n, k := n.next, k + 1;
      }
    }

    method TickRound(n: Node, ghost k: nat, ghost was: seq<Blinker>, ghost start: seq<byte>)
      requires Valid() && k < |nodes| && n == nodes[k] && Midway(State(), was, start, k)
      modifies this`blinkers, n, screen
      ensures Valid() && Midway(State(), was, start, k + 1)
      ensures n.next == old(n.next)
    {
      hide TickedAll, Ticked, Painted, PaintedAll, OnScreen;
      TickedPrefix(was, k);
      PaintedNext(screen[..], was[k..]);
      TickNode(n, k);
    }

    /** One listed node counts down. */
    method TickNode(n: Node, ghost k: nat)
      requires Valid() && k < |nodes| && n == nodes[k]
      modifies this`blinkers, n, screen
      ensures Valid() && blinkers == old(blinkers)[k := Ticked(old(blinkers[k]))]
      ensures screen[..] == Painted(old(screen[..]), old(blinkers[k]))
      ensures n.next == old(n.next)
    {
      assert n.Value() == blinkers[k];
      n.CountDown(screen);
      hide Ticked, Painted;
      blinkers := blinkers[k := n.Value()];
    }

    /** mp1_find_helper: the argument is cut to 16 bits, like a location. */
    method FindHelper(arg: nat) returns (n: Node?, ghost k: nat)
      requires Linked()
      ensures n == NodeAt(nodes, FirstAt(blinkers, arg % WORD))
      ensures k == FirstAt(blinkers, arg % WORD)
    {
      var at := arg % WORD;
      n, k := head, 0;
      while n != null && n.location != at
        invariant k <= |nodes| && n == NodeAt(nodes, k)
        invariant forall j :: 0 <= j < k ==> blinkers[j].location != at
        decreases |nodes| - k
      {
        assert nodes[k].Value() == blinkers[k];
        n, k := n.next, k + 1;
      }
      assert k < |nodes| ==> nodes[k].Value() == blinkers[k];
      FirstAtIs(blinkers, at, k);
    }

    /** mp1_ioctl_find: a copy of what the blinker holds. */
    method Find(location: word) returns (r: int, b: Blinker)
      requires Linked()
      ensures var k := FirstAt(blinkers, location);
        r == (if k < |blinkers| then SUCCESS else FAIL) && (k < |blinkers| ==> b == blinkers[k])
    {
      var n, k := FindHelper(location);
      if n == null {
        return FAIL, CLEARED;
      }
      return SUCCESS, n.Value();
    }

    /** mp1_ioctl_remove. */
    method Remove(arg: nat) returns (r: int)
      requires Valid()
      modifies this, pool
      ensures Valid()
      ensures r == if exists b :: b in old(blinkers) && b.location == arg % WORD then SUCCESS else FAIL
      ensures |blinkers| == |old(blinkers)| - if r == SUCCESS then 1 else 0
      ensures State() == Removed(old(State()), arg % WORD)
    {
      var n, k := FindHelper(arg);
      if n == null {
        return FAIL;
      }
      assert blinkers[k] in blinkers;
      Delete(n, k);
      return SUCCESS;
    }

    method Delete(n: Node, ghost k: nat)
      requires Valid() && k < |nodes| && n == nodes[k]
      modifies this, pool
      ensures Valid() && blinkers == Without(old(blinkers), k)
    {
      WithoutFacts(nodes, k);
      WithoutFacts(blinkers, k);
      hide Without;
      Unlink(n, k);
      assert forall m :: m in pool && m !in nodes && m != n ==> m.location == 0;
      Free(n);
      hide Distinct;
    }

    /** The node whose link leads to a listed node; null for the list head itself. */
    method FindPrev(n: Node, ghost k: nat) returns (prev: Node?)
      requires Linked() && k < |nodes| && n == nodes[k]
      ensures prev == if k == 0 then null else nodes[k - 1]
    {
      prev := null;
      ghost var i := 0;
      while (if prev == null then head else prev.next) != n
        invariant i <= k && prev == if i == 0 then null else nodes[i - 1]
        decreases k - i
      {
        prev := if prev == null then head else prev.next;
        i := i + 1;
      }
    }

    /** Bends the link that leads to a listed node past the node. */
    method Unlink(n: Node, ghost k: nat)
      requires Linked() && k < |nodes| && n == nodes[k]
      modifies this, nodes
      ensures Linked()
      ensures nodes == Without(old(nodes), k) && blinkers == Without(old(blinkers), k)
      ensures forall m :: m in old(nodes) ==> m.Value() == old(m.Value())
    {
      var prev := FindPrev(n, k);
      assert forall j :: 0 <= j < |nodes| && j != k - 1 ==> nodes[j] != prev;
      hide Without, Distinct;
      if prev == null {
        head := n.next;
      } else {
        prev.next := n.next;
      }
      assert forall j :: 0 <= j < |nodes| ==>
        nodes[j].next == if j == k - 1 then NodeAt(nodes, k + 1) else NodeAt(nodes, j + 1);
      Drop(k);
    }

    /** Once the link before the k-th node leads past it, the list is one shorter. */
    ghost method Drop(k: nat)
      requires FromPool() && Held() && k < |nodes|
      requires head == NodeAt(nodes, if k == 0 then 1 else 0)
      requires forall j {:trigger nodes[j].next} :: 0 <= j < |nodes| ==>
        nodes[j].next == if j == k - 1 then NodeAt(nodes, k + 1) else NodeAt(nodes, j + 1)
      modifies this`nodes, this`blinkers
      ensures Linked()
      ensures nodes == Without(old(nodes), k) && blinkers == Without(old(blinkers), k)
    {
      hide Without, Distinct;
      ghost var was := nodes;
      WithoutFacts(nodes, k);
      WithoutFacts(blinkers, k);
      nodes, blinkers := Without(nodes, k), Without(blinkers, k);
      forall j | 0 <= j < |nodes|
        ensures nodes[j] in pool && nodes[j].next == NodeAt(nodes, j + 1)
      {
        assert nodes[j] == was[if j < k then j else j + 1];
      }
      forall j | 0 <= j < |nodes| ensures nodes[j].Value() == blinkers[j] {
        assert nodes[j] == was[if j < k then j else j + 1];
      }
    }

    /** mp1_free: the slot is zeroed, so its location marks it free. */
    method Free(n: Node)
      requires Linked() && n in pool && n !in nodes
      modifies n
      ensures Linked() && n.location == 0
    {
      n.CopyFrom(CLEARED, null);
    }

    /** The pool is exhausted exactly when the list is as long as the pool. */
    lemma FullIffAllUsed()
      requires Valid()
      ensures |nodes| == SIZE <==> forall n :: n in pool ==> n.location != 0
    {
      DistinctWithin(nodes, pool);
      assert forall n :: n in nodes ==> n.location != 0;
    }
  }

  function Added(v: View, b: Blinker): View
    requires b.location < SIZE && |v.screen| >= 2 * SIZE
  {
    View([b.Lit()] + v.blinkers, Poke(v.screen, b.location, b.onChar))
  }

  predicate Sound(v: View) {
    OnScreen(v.blinkers) && |v.screen| >= 2 * SIZE
  }

  function Tick(v: View): View
    requires Sound(v)
  {
    View(TickedAll(v.blinkers), PaintedAll(v.screen, v.blinkers))
  }

  lemma TickedPrefix(was: seq<Blinker>, k: nat)
    requires k < |was|
    ensures var bs := TickedAll(was[..k]) + was[k..];
      bs[k] == was[k] && bs[k := Ticked(was[k])] == TickedAll(was[..k + 1]) + was[k + 1..]
    ensures was[k..][0] == was[k] && was[k..][1..] == was[k + 1..]
  {
    hide Ticked;
    assert forall j :: k + 1 <= j < |was| ==> was[j] == was[k..][j - k];
  }

  lemma TickedNone(was: seq<Blinker>)
    ensures TickedAll(was[..0]) + was[0..] == was && was[0..] == was
    ensures TickedAll(was[..|was|]) + was[|was|..] == TickedAll(was)
    ensures OnScreen(was) ==> OnScreen(was[0..])
  {
    assert was[..|was|] == was;
  }

  function Without<T>(s: seq<T>, k: nat): seq<T>
    requires k < |s|
  {
    s[..k] + s[k + 1..]
  }

  lemma WithoutFacts<T>(s: seq<T>, k: nat)
    requires k < |s|
    ensures |Without(s, k)| == |s| - 1
    ensures forall j :: 0 <= j < |s| - 1 ==> Without(s, k)[j] == s[if j < k then j else j + 1]
    ensures forall x :: x in s <==> x in Without(s, k) || x == s[k]
    ensures Distinct(s) ==> Distinct(Without(s, k)) && s[k] !in Without(s, k)
  {
    assert s == s[..k] + [s[k]] + s[k + 1..];
  }

  function Removed(v: View, location: nat): View {
    var k := FirstAt(v.blinkers, location);
    if k < |v.blinkers| then v.(blinkers := Without(v.blinkers, k)) else v
  }

  lemma FirstAtIs(bs: seq<Blinker>, location: nat, k: nat)
    requires k <= |bs| && (k < |bs| ==> bs[k].location == location)
    requires forall j :: 0 <= j < k ==> bs[j].location != location
    ensures k == FirstAt(bs, location)
  {
  }

  /** A blinker at location 0 leaves the list invalid, and the next one added is
      put into the same slot and linked to itself. */
  method ZeroLocationExample(b: Blinker, c: Blinker) returns (list: BlinkList)
    requires b.location == 0 && c.location < SIZE
    ensures list.head != null && list.head in list.pool && list.head.next == list.head
  {
    var screen := new byte[2 * SIZE];
    list := new BlinkList(screen);
    var r := list.Add(b);
    assert list.Linked() && !list.Valid();
    r := list.Add(c);
  }

  /** Where a walk along the links is after `k` steps. */
  ghost function Follow(pool: seq<Node>, n: Node?, k: nat): Node?
    reads pool
  {
    if k == 0 || n == null || n !in pool then n else Follow(pool, n.next, k - 1)
  }

  /** A walk along a list in order ends after as many steps as there are nodes. */
  lemma {:induction false} WalkEnds(list: BlinkList, j: nat, k: nat)
    requires list.Linked() && j + k <= |list.nodes|
    ensures Follow(list.pool, NodeAt(list.nodes, j), k) == NodeAt(list.nodes, j + k)
    decreases k
  {
    if k > 0 {
      WalkEnds(list, j + 1, k - 1);
    }
  }

  /** A walk from a node that is linked to itself, like the tasklet's, never ends. */
  lemma {:induction false} SelfLoopIsEndless(pool: seq<Node>, n: Node, k: nat)
    requires n in pool && n.next == n
    ensures Follow(pool, n, k) == n
  {
    if k > 0 {
      SelfLoopIsEndless(pool, n, k - 1);
    }
  }

  // ---- Counting slots ----------------------------------------------------------------

  ghost function ToSet<T>(s: seq<T>): set<T> {
    set x | x in s
  }

  lemma {:induction false} DistinctSize<T>(s: seq<T>)
    requires Distinct(s)
    ensures |ToSet(s)| == |s|
  {
    if s != [] {
      DistinctSize(s[1..]);
      assert ToSet(s) == ToSet(s[1..]) + {s[0]};
    }
  }

  lemma DistinctWithin<T>(s: seq<T>, all: seq<T>)
    requires Distinct(s) && Distinct(all) && forall k :: 0 <= k < |s| ==> s[k] in all
    ensures |s| == |all| <==> forall x :: x in all ==> x in s
  {
    DistinctSize(s);
    DistinctSize(all);
    SubsetSize(ToSet(s), ToSet(all));
    if forall x :: x in all ==> x in s {
      assert ToSet(s) == ToSet(all);
    } else {
      var x :| x in all && x !in s;
      assert x in ToSet(all) && x !in ToSet(s);
    }
  }

  // ---- The schedule of one blinker ---------------------------------------------------

  /** How many ticks a length lasts: the signed comparison makes lengths beyond
      the signed range, and zero, last for a single tick. */
  function Duration(length: word): (d: nat)
    ensures 0 < d <= WORD / 2
  {
    if 0 < length <= WORD / 2 then length else 1
  }

  /** A blinker `t` ticks after it was added. */
  function After(b: Blinker, t: nat): (r: Blinker)
    ensures r.location == b.location
  {
    if t == 0 then b.Lit() else Ticked(After(b, t - 1))
  }

  function Phase(b: Blinker, t: nat): (p: nat)
    ensures p < Duration(b.onLength) + Duration(b.offLength)
  {
    t % (Duration(b.onLength) + Duration(b.offLength))
  }

  lemma FirstPhase(b: Blinker)
    ensures Phase(b, 0) == 0 && AtPhase(b, 0) == b.Lit()
  {
  }

  lemma NextPhase(b: Blinker, t: nat)
    ensures var n := Duration(b.onLength) + Duration(b.offLength);
      Phase(b, t + 1) == if Phase(b, t) + 1 == n then 0 else Phase(b, t) + 1
  {
    RemainderOfSum(t, 1, Duration(b.onLength) + Duration(b.offLength));
  }

  /** A countdown that started at a length has run out after its duration. */
  lemma CountsDown(b: Blinker, length: word, passed: nat)
    requires passed < Duration(length) && b.countdown == length - passed
    ensures passed + 1 < Duration(length) ==> Ticked(b) == b.(countdown := length - (passed + 1))
    ensures passed + 1 == Duration(length) ==>
      Ticked(b) == (
        if b.On() then b.(countdown := b.offLength, status := b.status - 1)
        else b.(countdown := b.onLength, status := b.status + 1))
  {
  }

  /** The blinker at a point of its period: on in the first part, off in the second. */
  function AtPhase(b: Blinker, p: nat): (r: Blinker)
    requires p < Duration(b.onLength) + Duration(b.offLength)
    ensures r.On() <==> p < Duration(b.onLength)
  {
    if p < Duration(b.onLength) then b.(status := 1, countdown := b.onLength - p)
    else b.(status := 0, countdown := b.offLength - (p - Duration(b.onLength)))
  }

  lemma NextAtPhase(b: Blinker, p: nat)
    requires p < Duration(b.onLength) + Duration(b.offLength)
    ensures Ticked(AtPhase(b, p))
         == AtPhase(b, if p + 1 == Duration(b.onLength) + Duration(b.offLength) then 0 else p + 1)
  {
    var x, on := AtPhase(b, p), Duration(b.onLength);
    if p < on {
      CountsDown(x, b.onLength, p);
    } else {
      CountsDown(x, b.offLength, p - on);
    }
  }

  /** A blinker's state is a function of the ticks since it was added, modulo its
      period, for all lengths. */
  lemma {:induction false} OnSchedule(b: Blinker, t: nat)
    ensures After(b, t) == AtPhase(b, Phase(b, t))
  {
    FirstPhase(b);
    hide Ticked, Phase, Duration, AtPhase;
    if t > 0 {
      OnSchedule(b, t - 1);
      NextPhase(b, t - 1);
      NextAtPhase(b, Phase(b, t - 1));
    }
  }

  /** A length is counted as documented exactly if it is between 1 and 32768. */
  lemma DurationAsDocumented(length: word)
    ensures Duration(length) == length <==> 1 <= length <= WORD / 2
  {
  }

  /** For such lengths a blinker is on after t ticks exactly if t mod (on + off) < on. */
  lemma ScheduleAsDocumented(b: Blinker, t: nat)
    requires 1 <= b.onLength <= WORD / 2 && 1 <= b.offLength <= WORD / 2
    ensures After(b, t).On() <==> t % (b.onLength + b.offLength) < b.onLength
  {
    OnSchedule(b, t);
  }

  /** Lengths of 0 and of 40000 last a single tick. */
  lemma ShortLengthExample(b: Blinker)
    requires b.onLength == 0 || b.onLength == 40000
    ensures After(b, 0).On() && !After(b, 1).On()
  {
    OnSchedule(b, 0);
    OnSchedule(b, 1);
  }

  // ---- List and screen over whole runs --------------------------------------------------

  /** Every listed cell shows the character that its blinker's status says. */
  ghost predicate Agrees(v: View) {
    Sound(v) && DistinctLocations(v.blinkers) && Showing(v.screen, v.blinkers)
  }

  ghost predicate Showing(screen: seq<byte>, bs: seq<Blinker>)
    requires OnScreen(bs) && |screen| >= 2 * SIZE
  {
    forall k :: 0 <= k < |bs| ==> screen[2 * bs[k].location] == bs[k].Shown()
  }

  ghost predicate DistinctLocations(bs: seq<Blinker>) {
    forall i, j :: 0 <= i < j < |bs| ==> bs[i].location != bs[j].location
  }

  lemma AddedAgrees(v: View, b: Blinker)
    requires Sound(v) && Agrees(v) && 0 < b.location < SIZE
    requires FirstAt(v.blinkers, b.location) == |v.blinkers|
    ensures Sound(Added(v, b)) && Agrees(Added(v, b)) && After(b, 0) in Added(v, b).blinkers
  {
    hide Duration, Ticked, DistinctLocations;
    DistinctCons(b.Lit(), v.blinkers);
    var w := Added(v, b);
    assert forall k :: 1 <= k < |w.blinkers| ==> w.blinkers[k] == v.blinkers[k - 1];
    assert w.blinkers[0] == b.Lit() == After(b, 0);
  }

  lemma DistinctCons(b: Blinker, bs: seq<Blinker>)
    requires DistinctLocations(bs) && FirstAt(bs, b.location) == |bs|
    ensures DistinctLocations([b] + bs)
  {
  }

  lemma RemovedAgrees(v: View, location: nat)
    requires Agrees(v)
    ensures Agrees(Removed(v, location))
    ensures forall b :: b in v.blinkers && b.location != location ==> b in Removed(v, location).blinkers
  {
    var k := FirstAt(v.blinkers, location);
    if k < |v.blinkers| {
      WithoutFacts(v.blinkers, k);
    }
  }

  predicate Listed(bs: seq<Blinker>, location: nat) {
    exists k :: 0 <= k < |bs| && bs[k].location == location
  }

  /** A remove takes out exactly the first match and keeps the others in order; if
      locations are distinct, none is listed there any more. The screen is as it was. */
  lemma RemovedExactly(v: View, location: nat)
    ensures var was, now := v.blinkers, Removed(v, location).blinkers;
      && Removed(v, location).screen == v.screen
      && (!Listed(was, location) ==> now == was)
      && (Listed(was, location) ==>
           exists k :: 0 <= k < |was| && was[k].location == location
             && (forall j :: 0 <= j < k ==> was[j].location != location) && now == was[..k] + was[k + 1..])
      && (DistinctLocations(was) ==> !Listed(now, location))
  {
    var k := FirstAt(v.blinkers, location);
    if k < |v.blinkers| {
      WithoutFacts(v.blinkers, k);
      assert v.blinkers[k].location == location;
    }
  }

  /** An added blinker is the first of the list, and found before any other at its
      location; all others stay, in order; only its cell is poked. */
  lemma AddedExactly(v: View, b: Blinker)
    requires b.location < SIZE && |v.screen| >= 2 * SIZE
    ensures var now := Added(v, b);
      && FirstAt(now.blinkers, b.location) == 0
      && now.blinkers != [] && now.blinkers[0].location == b.location && now.blinkers[0].Shown() == b.onChar
      && now.blinkers[1..] == v.blinkers
      && |now.screen| == |v.screen| && now.screen[2 * b.location] == b.onChar
      && forall i :: 0 <= i < |v.screen| && i != 2 * b.location ==> now.screen[i] == v.screen[i]
  {
  }

  /** A tick changes only the cells of listed blinkers, each as if it were alone. */
  lemma {:induction false} PaintedAllAt(screen: seq<byte>, bs: seq<Blinker>)
    requires OnScreen(bs) && DistinctLocations(bs) && |screen| >= 2 * SIZE
    ensures forall k :: 0 <= k < |bs| ==>
      PaintedAll(screen, bs)[2 * bs[k].location] == Painted(screen, bs[k])[2 * bs[k].location]
    ensures forall i :: 0 <= i < |screen| && (forall k :: 0 <= k < |bs| ==> i != 2 * bs[k].location) ==>
      PaintedAll(screen, bs)[i] == screen[i]
    decreases |bs|
  {
    if bs != [] {
      var first, rest := Painted(screen, bs[0]), bs[1..];
      assert forall k :: 1 <= k < |bs| ==> bs[k] == rest[k - 1];
      PaintedAllAt(first, rest);
      assert PaintedAll(screen, bs) == PaintedAll(first, rest);
      assert first[2 * bs[0].location] == PaintedAll(first, rest)[2 * bs[0].location];
    }
  }

  lemma TickedLocations(bs: seq<Blinker>)
    ensures DistinctLocations(TickedAll(bs)) <==> DistinctLocations(bs)
    ensures OnScreen(TickedAll(bs)) <==> OnScreen(bs)
    ensures forall b :: b in bs ==> Ticked(b) in TickedAll(bs)
  {
    hide Ticked;
    var ts := TickedAll(bs);
    assert forall i :: 0 <= i < |bs| ==> ts[i].location == bs[i].location && ts[i] == Ticked(bs[i]);
    forall b | b in bs ensures Ticked(b) in ts {
      var k :| 0 <= k < |bs| && bs[k] == b;
      assert ts[k] == Ticked(b);
    }
  }

  lemma TickAgrees(v: View)
    requires Agrees(v)
    ensures Agrees(Tick(v))
    ensures forall b :: b in v.blinkers ==> Ticked(b) in Tick(v).blinkers
    ensures forall i :: 0 <= i < |v.screen| && i % 2 == 1 ==> Tick(v).screen[i] == v.screen[i]
  {
    hide PaintedAll, Ticked, DistinctLocations, TickedAll, OnScreen, Painted;
    PaintedAllAt(v.screen, v.blinkers);
    TickedLocations(v.blinkers);
    TickShows(v);
  }

  lemma TickShows(v: View)
    requires Agrees(v)
    ensures Sound(Tick(v)) && Showing(Tick(v).screen, Tick(v).blinkers)
  {
    PaintedAllAt(v.screen, v.blinkers);
    hide PaintedAll, Ticked, DistinctLocations;
    forall k | 0 <= k < |v.blinkers|
      ensures Tick(v).screen[2 * v.blinkers[k].location] == Ticked(v.blinkers[k]).Shown()
    {
      PaintedShows(v.screen, v.blinkers[k]);
    }
  }

  lemma PaintedShows(screen: seq<byte>, b: Blinker)
    requires 2 * b.location < |screen| && screen[2 * b.location] == b.Shown()
    ensures Painted(screen, b)[2 * b.location] == Ticked(b).Shown()
  {
  }

  datatype Op = Add(b: Blinker) | Remove(arg: nat) | Tasklet

  /** One operation; adding at location zero or at a listed location is not considered. */
  function Apply(v: View, op: Op): (w: Option<View>)
    requires Sound(v)
    ensures w.Some? ==> Sound(w.value)
  {
    match op
    case Add(b) =>
      if b.location >= SIZE || |v.blinkers| == SIZE then Some(v)
      else if b.location == 0 || FirstAt(v.blinkers, b.location) < |v.blinkers| then None
      else Some(Added(v, b))
    case Remove(arg) => Some(Removed(v, arg % WORD))
    case Tasklet => Some(Tick(v))
  }

  function Run(v: View, ops: seq<Op>): (w: Option<View>)
    requires Sound(v)
    ensures w.Some? ==> Sound(w.value)
    decreases |ops|
  {
    if ops == [] then Some(v)
    else match Apply(v, ops[0])
      case None => None
      case Some(w) => Run(w, ops[1..])
  }

  function Ticks(ops: seq<Op>): nat {
    if ops == [] then 0 else (if ops[0].Tasklet? then 1 else 0) + Ticks(ops[1..])
  }

  predicate Removes(op: Op, location: nat) {
    op.Remove? && op.arg % WORD == location
  }

  lemma ApplyAgrees(v: View, op: Op, b: Blinker)
    requires Agrees(v) && Apply(v, op).Some? && b in v.blinkers && !Removes(op, b.location)
    ensures Sound(Apply(v, op).value) && Agrees(Apply(v, op).value)
    ensures (if op.Tasklet? then Ticked(b) else b) in Apply(v, op).value.blinkers
  {
    match op
    case Add(c) =>
      if c.location < SIZE && |v.blinkers| != SIZE {
        AddedAgrees(v, c);
      }
    case Remove(arg) => RemovedAgrees(v, arg % WORD);
    case Tasklet => TickAgrees(v);
  }

  /** Whatever else is added and removed, a blinker stays on its schedule. */
  lemma {:induction false} RunKeepsBlinker(v: View, ops: seq<Op>, b: Blinker, t: nat)
    requires Sound(v) && Agrees(v) && After(b, t) in v.blinkers && Run(v, ops).Some?
    requires forall i :: 0 <= i < |ops| ==> !Removes(ops[i], b.location)
    ensures Agrees(Run(v, ops).value)
    ensures After(b, t + Ticks(ops)) in Run(v, ops).value.blinkers
    decreases |ops|
  {
    hide *;
    if ops == [] {
      RunNone(v, ops);
    } else {
      RunStep(v, ops, b, t);
      var w, u := Apply(v, ops[0]).value, if ops[0].Tasklet? then t + 1 else t;
      ApplyAgrees(v, ops[0], After(b, t));
      RunKeepsBlinker(w, ops[1..], b, u);
    }
  }

  lemma RunNone(v: View, ops: seq<Op>)
    requires ops == [] && Sound(v)
    ensures Run(v, ops) == Some(v) && Ticks(ops) == 0
  {
  }

  lemma RunStep(v: View, ops: seq<Op>, b: Blinker, t: nat)
    requires ops != [] && Sound(v) && Run(v, ops).Some?
    ensures Apply(v, ops[0]).Some? && Run(v, ops) == Run(Apply(v, ops[0]).value, ops[1..])
    ensures Ticks(ops) == (if ops[0].Tasklet? then 1 else 0) + Ticks(ops[1..])
    ensures After(b, t + 1) == Ticked(After(b, t))
  {
  }

  lemma AgreesAt(v: View, b: Blinker, t: nat)
    requires Sound(v) && Agrees(v) && After(b, t) in v.blinkers
    ensures 2 * b.location < |v.screen|
    ensures v.screen[2 * b.location] == if Phase(b, t) < Duration(b.onLength) then b.onChar else b.offChar
  {
    OnSchedule(b, t);
    hide After, Phase, Duration, DistinctLocations;
  }

  /** After any run of adds, removes and ticks since it was added, a blinker that
      was not removed shows its on character exactly in the first part of its period. */
  lemma BlinksOnSchedule(v: View, b: Blinker, ops: seq<Op>)
    requires Sound(v) && Agrees(v) && 0 < b.location < SIZE && FirstAt(v.blinkers, b.location) == |v.blinkers|
    requires Run(Added(v, b), ops).Some?
    requires forall i :: 0 <= i < |ops| ==> !Removes(ops[i], b.location)
    ensures Run(Added(v, b), ops).value.screen[2 * b.location]
         == if Phase(b, Ticks(ops)) < Duration(b.onLength) then b.onChar else b.offChar
  {
    hide Agrees, Added, Apply, Run, Ticks, Ticked, After, Phase, Duration, FirstAt, PaintedAll, Painted, TickedAll;
    AddedAgrees(v, b);
    var w, t := Run(Added(v, b), ops).value, Ticks(ops);
    RunKeepsBlinker(Added(v, b), ops, b, 0);
    assert After(b, t) in w.blinkers;
    AgreesAt(w, b, t);
  }

  // ---- Cells at rest ---------------------------------------------------------------------

  predicate AddsAt(op: Op, location: nat) {
    op.Add? && op.b.location == location
  }

  lemma AddedAtRest(v: View, c: Blinker, location: nat)
    requires Sound(v) && Agrees(v) && 0 < c.location < SIZE && FirstAt(v.blinkers, c.location) == |v.blinkers|
    requires location < SIZE && !Listed(v.blinkers, location) && c.location != location
    ensures var w := Added(v, c);
      && Sound(w) && Agrees(w) && !Listed(w.blinkers, location)
      && |w.screen| == |v.screen| && w.screen[2 * location] == v.screen[2 * location]
  {
    hide Agrees, FirstAt;
    AddedAgrees(v, c);
    AddedExactly(v, c);
    assert forall k :: 1 <= k < |v.blinkers| + 1 ==> Added(v, c).blinkers[k] == v.blinkers[k - 1];
  }

  lemma TickAtRest(v: View, location: nat)
    requires Sound(v) && Agrees(v) && location < SIZE && !Listed(v.blinkers, location)
    ensures var w := Tick(v);
      && Sound(w) && Agrees(w) && !Listed(w.blinkers, location)
      && |w.screen| == |v.screen| && w.screen[2 * location] == v.screen[2 * location]
  {
    hide PaintedAll, Painted, Ticked;
    TickAgrees(v);
    PaintedAllAt(v.screen, v.blinkers);
  }

  lemma ApplyAtRest(v: View, op: Op, location: nat)
    requires Sound(v) && Agrees(v) && Apply(v, op).Some? && location < SIZE
    requires !Listed(v.blinkers, location) && !AddsAt(op, location)
    ensures var w := Apply(v, op).value;
      && Sound(w) && Agrees(w) && !Listed(w.blinkers, location)
      && |w.screen| == |v.screen| && w.screen[2 * location] == v.screen[2 * location]
  {
    hide Agrees, Tick, Added;
    match op
    case Add(c) =>
      if c.location < SIZE && |v.blinkers| != SIZE {
        AddedAtRest(v, c, location);
      }
    case Remove(arg) =>
      RemovedAgrees(v, arg % WORD);
      if FirstAt(v.blinkers, arg % WORD) < |v.blinkers| {
        WithoutFacts(v.blinkers, FirstAt(v.blinkers, arg % WORD));
      }
    case Tasklet =>
      TickAtRest(v, location);
  }

  lemma {:induction false} RunAtRest(v: View, ops: seq<Op>, location: nat)
    requires Sound(v) && Agrees(v) && Run(v, ops).Some? && location < SIZE && !Listed(v.blinkers, location)
    requires forall i :: 0 <= i < |ops| ==> !AddsAt(ops[i], location)
    ensures var w := Run(v, ops).value;
      |w.screen| == |v.screen| && w.screen[2 * location] == v.screen[2 * location] && !Listed(w.blinkers, location)
    decreases |ops|
  {
    if ops != [] {
      ApplyAtRest(v, ops[0], location);
      RunAtRest(Apply(v, ops[0]).value, ops[1..], location);
    }
  }

  /** From its removal until the next add at its location, a blinker's cell does not
      change, and it is not listed. */
  lemma RestsAfterRemoval(v: View, arg: nat, ops: seq<Op>)
    requires Sound(v) && Agrees(v) && arg % WORD < SIZE && Run(Removed(v, arg % WORD), ops).Some?
    requires forall i :: 0 <= i < |ops| ==> !AddsAt(ops[i], arg % WORD)
    ensures var w := Run(Removed(v, arg % WORD), ops).value;
      |w.screen| == |v.screen| && w.screen[2 * (arg % WORD)] == v.screen[2 * (arg % WORD)] && !Listed(w.blinkers, arg % WORD)
  {
    RemovedAgrees(v, arg % WORD);
    RemovedExactly(v, arg % WORD);
    RunAtRest(Removed(v, arg % WORD), ops, arg % WORD);
  }

  /** The blinkers that the adds of a run have put in, and those that its removes have taken out. */
  function Gains(v: View, ops: seq<Op>): nat
    requires Sound(v) && Run(v, ops).Some?
    decreases |ops|
  {
    if ops == [] then 0
    else
      (if ops[0].Add? && ops[0].b.location < SIZE && |v.blinkers| < SIZE then 1 else 0)
      + Gains(Apply(v, ops[0]).value, ops[1..])
  }

  function Losses(v: View, ops: seq<Op>): nat
    requires Sound(v) && Run(v, ops).Some?
    decreases |ops|
  {
    if ops == [] then 0
    else
      (if ops[0].Remove? && Listed(v.blinkers, ops[0].arg % WORD) then 1 else 0)
      + Losses(Apply(v, ops[0]).value, ops[1..])
  }

  /** Over every run, the blinkers are those at the start, plus those added, minus those removed. */
  lemma {:induction false} BlinkersConserved(v: View, ops: seq<Op>)
    requires Sound(v) && |v.blinkers| <= SIZE && Run(v, ops).Some?
    ensures var w := Run(v, ops).value;
      |w.blinkers| <= SIZE && |w.blinkers| + Losses(v, ops) == |v.blinkers| + Gains(v, ops)
    decreases |ops|
  {
    if ops != [] {
      ApplyCounts(v, ops[0]);
      hide Apply, Sound;
      BlinkersConserved(Apply(v, ops[0]).value, ops[1..]);
    }
  }

  lemma ApplyCounts(v: View, op: Op)
    requires Sound(v) && |v.blinkers| <= SIZE && Apply(v, op).Some?
    ensures var w := Apply(v, op).value;
      && |w.blinkers| == |v.blinkers|
           + (if op.Add? && op.b.location < SIZE && |v.blinkers| < SIZE then 1 else 0)
           - (if op.Remove? && Listed(v.blinkers, op.arg % WORD) then 1 else 0)
      && |w.blinkers| <= SIZE
  {
    if op.Remove? {
      RemovedExactly(v, op.arg % WORD);
    }
  }
}
