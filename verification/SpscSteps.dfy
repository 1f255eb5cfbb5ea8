/** The single-producer single-consumer ring, one atomic step at a time. The producer runs `push` and the
    consumer runs `read_once`; a run interleaves their loads, stores and slot accesses in any order. */
module SpscSteps {

  datatype Slot<T> = Raw | Full(value: T)

  /** What the producer has in hand: the value, the head it loaded, and how far `push` has come. */
  datatype Producer<T> =
    | Idle
    | Loaded(v: T, head: nat)
    | Free(v: T, head: nat)
    | Constructed(v: T, head: nat)

  /** What the consumer has in hand in `read_once`, which calls `front` twice, then `pop`. */
  datatype Consumer<T> =
    | Resting
    | First(tail: nat)
    | Nonempty
    | Second(tail: nat)
    | Pointing(tail: nat)
    | Holding(v: T)
    | Popping(v: T, tail: nat)
    | Destroyed(v: T, tail: nat)

  /** The shared ring, both threads, and what has been pushed and popped so far. */
  datatype Ring<T> = Ring(
    head: nat,
    tail: nat,
    slots: seq<Slot<T>>,
    producer: Producer<T>,
    consumer: Consumer<T>,
    pushed: seq<T>,
    popped: seq<T>,
    misses: nat,
    faulted: bool
  )

  function Next(i: nat, cap: nat): nat { if i + 1 == cap then 0 else i + 1 }

  function Capacity(cap: int): nat { if cap + 1 < 4 then 4 else cap + 1 }

  function Start<T>(cap: int): Ring<T> {
    Ring(0, 0, seq(Capacity(cap), _ => Raw), Idle, Resting, [], [], 0, false)
  }

  /** One atomic step of the producer; `v` is what it pushes next if it is idle. */
  function Produce<T>(r: Ring<T>, v: T): Ring<T> {
    match r.producer
    case Idle => r.(producer := Loaded(v, r.head))
    case Loaded(w, h) => if Next(h, |r.slots|) == r.tail then r else r.(producer := Free(w, h))
    case Free(w, h) =>
      if h < |r.slots| && r.slots[h].Raw? then r.(slots := r.slots[h := Full(w)], producer := Constructed(w, h))
      else r.(faulted := true)
    case Constructed(w, h) => r.(head := Next(h, |r.slots|), producer := Idle, pushed := r.pushed + [w])
  }

  /** One atomic step of the consumer. */
  function Consume<T>(r: Ring<T>): Ring<T> {
    match r.consumer
    case Resting => r.(consumer := First(r.tail))
    case First(t) => if r.head == t then r.(consumer := Resting, misses := r.misses + 1) else r.(consumer := Nonempty)
    case Nonempty => r.(consumer := Second(r.tail))
    case Second(t) => if r.head == t then r.(faulted := true) else r.(consumer := Pointing(t))
    case Pointing(t) =>
      if t < |r.slots| && r.slots[t].Full? then r.(consumer := Holding(r.slots[t].value)) else r.(faulted := true)
    case Holding(v) => r.(consumer := Popping(v, r.tail))
    case Popping(v, t) =>
      if t < |r.slots| && r.slots[t].Full? then r.(slots := r.slots[t := Raw], consumer := Destroyed(v, t))
      else r.(faulted := true)
    case Destroyed(v, t) => r.(tail := Next(t, |r.slots|), consumer := Resting, popped := r.popped + [v])
  }

  datatype Turn<T> = Producing(v: T) | Consuming

  function Step<T>(r: Ring<T>, turn: Turn<T>): Ring<T> {
    match turn
    case Producing(v) => Produce(r, v)
    case Consuming => Consume(r)
  }

  function Run<T>(r: Ring<T>, turns: seq<Turn<T>>): Ring<T>
    decreases |turns|
  {
    if turns == [] then r else Run(Step(r, turns[0]), turns[1..])
  }

  // ---- the ring's contents

  predicate Shaped<T>(r: Ring<T>) { r.head < |r.slots| && r.tail < |r.slots| }

  /** How far slot `j` is from the tail, going forward around the ring. */
  function Offset<T>(r: Ring<T>, j: nat): nat
    requires Shaped(r) && j < |r.slots|
  {
    if r.tail <= j then j - r.tail else j + |r.slots| - r.tail
  }

  /** The number of slots in [tail, head). */
  function Occupied<T>(r: Ring<T>): nat
    requires Shaped(r)
  {
    Offset(r, r.head)
  }

  function Place<T>(r: Ring<T>, i: nat): (j: nat)
    requires Shaped(r) && i < |r.slots|
    ensures j < |r.slots| && Offset(r, j) == i
  {
    if r.tail + i < |r.slots| then r.tail + i else r.tail + i - |r.slots|
  }

  /** The slots of [tail, head) in order; a value that `pop` has just destroyed still counts. */
  function Waiting<T>(r: Ring<T>): (w: seq<Slot<T>>)
    requires Shaped(r)
  {
    seq(Occupied(r), i requires 0 <= i < Occupied(r) =>
      if i == 0 && r.consumer.Destroyed? then Full(r.consumer.v) else r.slots[Place(r, i)])
  }

  function Filled<T>(values: seq<T>): seq<Slot<T>> {
    seq(|values|, i requires 0 <= i < |values| => Full(values[i]))
  }

  // ---- what every step keeps

  /** What slot `j` holds: a value waiting, a value just constructed, or nothing. */
  function SlotOf<T>(r: Ring<T>, j: nat): Slot<T>
    requires Shaped(r) && j < |r.slots| && |r.pushed| == |r.popped| + Occupied(r)
  {
    if Offset(r, j) < Occupied(r) then
      if j == r.tail && r.consumer.Destroyed? then Raw else Full(r.pushed[|r.popped| + Offset(r, j)])
    else if j == r.head && r.producer.Constructed? then Full(r.producer.v)
    else Raw
  }

  ghost predicate Inv<T>(r: Ring<T>) {
    && Shaped(r) && !r.faulted
    && r.popped <= r.pushed && |r.pushed| == |r.popped| + Occupied(r)
    && (forall j :: 0 <= j < |r.slots| ==> r.slots[j] == SlotOf(r, j))
    && ProducerInv(r) && ConsumerInv(r)
  }

  lemma {:induction false} InvIsSafe<T>(r: Ring<T>)
    requires Inv(r)
    ensures Shaped(r) && !r.faulted
  {
  }

  predicate ProducerInv<T>(r: Ring<T>)
    requires Shaped(r)
  {
    match r.producer
    case Idle => true
    case Loaded(_, h) => h == r.head
    case Free(_, h) => h == r.head && Next(h, |r.slots|) != r.tail
    case Constructed(_, h) => h == r.head && Next(h, |r.slots|) != r.tail
  }

  /** The value in the consumer's hand is the oldest one not yet popped. */
  ghost predicate ConsumerInv<T>(r: Ring<T>)
    requires Shaped(r) && |r.pushed| == |r.popped| + Occupied(r)
  {
    match r.consumer
    case Resting => true
    case First(t) => t == r.tail
    case Nonempty => r.tail != r.head
    case Second(t) => t == r.tail != r.head
    case Pointing(t) => t == r.tail != r.head
    case Holding(v) => r.tail != r.head && v == r.pushed[|r.popped|]
    case Popping(v, t) => t == r.tail != r.head && v == r.pushed[|r.popped|]
    case Destroyed(v, t) => t == r.tail != r.head && v == r.pushed[|r.popped|]
  }

  lemma {:induction false} StartInv<T>(cap: int)
    ensures Inv(Start<T>(cap))
  {
  }

  /** Publishing the new head: the constructed slot joins [tail, head). */
  lemma {:induction false} PublishInv<T>(r: Ring<T>, v: T)
    requires Inv(r) && r.producer.Constructed?
    ensures Inv(Produce(r, v))
  {
    var z := Produce(r, v);
    assert Occupied(z) == Occupied(r) + 1;
    assert forall j :: 0 <= j < |r.slots| ==> Offset(z, j) == Offset(r, j);
    assert r.pushed <= z.pushed && z.pushed[|r.pushed|] == r.producer.v;
  }

  lemma {:induction false} ProduceInv<T>(r: Ring<T>, v: T)
    requires Inv(r)
    ensures Inv(Produce(r, v))
  {
    if r.producer.Constructed? { PublishInv(r, v); }
  }

  /** Publishing the new tail: every other slot is one nearer to it. */
  lemma {:induction false} ReleaseInv<T>(r: Ring<T>)
    requires Inv(r) && r.consumer.Destroyed?
    ensures Inv(Consume(r))
  {
    var z := Consume(r);
    var cap := |r.slots|;
    assert Occupied(z) + 1 == Occupied(r);
    assert forall j :: 0 <= j < cap && j != r.tail ==> Offset(z, j) + 1 == Offset(r, j);
    assert Offset(z, r.tail) == cap - 1;
    assert z.popped == r.pushed[..|r.popped| + 1];
    forall j | 0 <= j < cap ensures z.slots[j] == SlotOf(z, j) {
      assert r.slots[j] == SlotOf(r, j);
    }
  }

  lemma {:induction false} ConsumeInv<T>(r: Ring<T>)
    requires Inv(r)
    ensures Inv(Consume(r))
  {
    hide Inv;
    hide Consume;
    if r.consumer.Destroyed? {
      ReleaseInv(r);
    } else if r.consumer.Popping? {
      DestroyInv(r);
    } else {
      LookInv(r);
    }
  }

  /** The other steps only look. */
  lemma {:induction false} LookInv<T>(r: Ring<T>)
    requires Inv(r) && !r.consumer.Destroyed? && !r.consumer.Popping?
    ensures Inv(Consume(r))
  {
    hide SlotOf;
    hide Occupied;
    var z := Consume(r);
    if r.tail != r.head { TailSlot(r); }
    SameOccupied(z, r);
    forall j | 0 <= j < |z.slots| ensures z.slots[j] == SlotOf(z, j) {
      SameSlot(z, r, j);
    }
  }

  /** The slot at the tail holds the oldest value. */
  lemma {:induction false} TailSlot<T>(r: Ring<T>)
    requires Inv(r) && !r.consumer.Destroyed? && r.tail != r.head
    ensures |r.popped| < |r.pushed| && r.slots[r.tail] == Full(r.pushed[|r.popped|])
  {
    assert r.slots[r.tail] == SlotOf(r, r.tail);
  }

  ghost predicate SameRing<T>(z: Ring<T>, r: Ring<T>) {
    z.slots == r.slots && z.head == r.head && z.tail == r.tail && z.popped == r.popped && z.pushed == r.pushed
  }

  lemma {:induction false} SameOccupied<T>(z: Ring<T>, r: Ring<T>)
    requires Shaped(r) && SameRing(z, r)
    ensures Occupied(z) == Occupied(r)
  {
  }

  lemma {:induction false} SameSlot<T>(z: Ring<T>, r: Ring<T>, j: nat)
    requires Shaped(r) && SameRing(z, r) && z.producer == r.producer && j < |r.slots|
    requires |r.pushed| == |r.popped| + Occupied(r) && !z.consumer.Destroyed? && !r.consumer.Destroyed?
    ensures Occupied(z) == Occupied(r) && SlotOf(z, j) == SlotOf(r, j)
  {
    SameOccupied(z, r);
  }

  lemma {:induction false} DestroyInv<T>(r: Ring<T>)
    requires Inv(r) && r.consumer.Popping?
    ensures Inv(Consume(r))
  {
    assert forall j :: 0 <= j < |r.slots| ==> Offset(Consume(r), j) == Offset(r, j);
  }

  lemma {:induction false} RunInv<T>(r: Ring<T>, turns: seq<Turn<T>>)
    requires Inv(r)
    ensures Inv(Run(r, turns)) && |Run(r, turns).slots| == |r.slots|
    decreases |turns|
  {
    if turns != [] {
      StepInv(r, turns[0]);
      hide Inv;
      RunInv(Step(r, turns[0]), turns[1..]);
    }
  }

  lemma {:induction false} StepInv<T>(r: Ring<T>, turn: Turn<T>)
    requires Inv(r)
    ensures Inv(Step(r, turn)) && |Step(r, turn).slots| == |r.slots|
  {
    hide Inv;
    if turn.Producing? { ProduceInv(r, turn.v); } else { ConsumeInv(r); }
  }

  lemma {:induction false} InvWaiting<T>(r: Ring<T>)
    requires Inv(r)
    ensures Waiting(r) == Filled(r.pushed[|r.popped|..]) && |Waiting(r)| < |r.slots|
  {
    assert forall i :: 0 <= i < Occupied(r) ==> Waiting(r)[i] == Full(r.pushed[|r.popped| + i]);
  }

  /** After any interleaving: no slot was overwritten before it was popped or read before it was written,
      what was pushed is what was popped and then what waits in [tail, head), and no more waits than fits. */
  lemma {:induction false} EveryRunIsFifo<T>(cap: int, turns: seq<Turn<T>>)
    ensures var r := Run(Start<T>(cap), turns);
            && Shaped(r) && !r.faulted && r.popped <= r.pushed
            && Waiting(r) == Filled(r.pushed[|r.popped|..])
            && |Waiting(r)| <= (if cap < 3 then 3 else cap)
  {
    StartInv<T>(cap);
    RunInv(Start<T>(cap), turns);
    InvWaiting(Run(Start<T>(cap), turns));
  }

  /** The consumer finds nothing only when everything pushed has been popped. */
  lemma {:induction false} MissMeansEmpty<T>(r: Ring<T>)
    requires Inv(r)
    ensures Consume(r).misses != r.misses <==> r.consumer.First? && r.popped == r.pushed
  {
    assert r.popped == r.pushed <==> Occupied(r) == 0;
  }

  /** The producer waits in its loop exactly while all the slots but one hold values. */
  lemma {:induction false} SpinsWhileFull<T>(r: Ring<T>, v: T)
    requires Inv(r) && r.producer.Loaded?
    ensures Produce(r, v) == r <==> |r.pushed| - |r.popped| == |r.slots| - 1
  {
    assert Next(r.head, |r.slots|) == r.tail <==> Occupied(r) == |r.slots| - 1;
  }

  lemma {:induction false} RunKeepsSlots<T>(r: Ring<T>, turns: seq<Turn<T>>)
    ensures |Run(r, turns).slots| == |r.slots|
    decreases |turns|
  {
    if turns != [] { RunKeepsSlots(Step(r, turns[0]), turns[1..]); }
  }

  /** In every run the producer that is about to push waits exactly while the capacity, but three at least, is taken. */
  lemma {:induction false} SpinsAtCapacity<T>(cap: int, turns: seq<Turn<T>>, v: T)
    requires Run(Start<T>(cap), turns).producer.Loaded?
    ensures var r := Run(Start<T>(cap), turns);
            Produce(r, v) == r <==> |r.pushed| - |r.popped| == if cap < 3 then 3 else cap
  {
    hide Run;
    hide Produce;
    StartInv<T>(cap);
    RunInv(Start<T>(cap), turns);
    RunKeepsSlots(Start<T>(cap), turns);
    SpinsWhileFull(Run(Start<T>(cap), turns), v);
  }
}
