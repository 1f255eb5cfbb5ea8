/** The ring's own fields, stepped by its two threads. */
module SpscQueue {
  import opened Bytes
  import opened SpscSteps

  class Queue<T> {
    const cap: nat
    var head: nat
    var tail: nat
    const buf: array<Slot<T>>
    /** How far `push` and `read_once` have come, with what their threads hold. */
    var producer: Producer<T>
    var consumer: Consumer<T>
    ghost var pushed: seq<T>
    ghost var popped: seq<T>
    ghost var misses: nat

    ghost function State(): Ring<T>
      reads this, buf
    {
      Ring(head, tail, buf[..], producer, consumer, pushed, popped, misses, false)
    }

    ghost predicate Valid()
      reads this, buf
    {
      cap == buf.Length && Inv(State())
    }

    constructor (capacity: int)
      ensures Valid() && fresh(buf) && State() == Start(capacity)
    {
      cap := Capacity(capacity);
      buf := new Slot<T>[Capacity(capacity)](_ => Raw);
      head, tail, producer, consumer := 0, 0, Idle, Resting;
      pushed, popped, misses := [], [], 0;
      new;
      assert buf[..] == seq(Capacity(capacity), _ => Raw);
      StartInv<T>(capacity);
    }

    /** One atomic step of `push`. */
    method Produce(v: T)
      requires Valid()
      modifies this`head, this`producer, this`pushed, buf
      ensures Valid() && State() == SpscSteps.Produce(old(State()), v)
    {
      ProduceInv(State(), v);
      match producer {
        case Idle =>
          producer := Loaded(v, head);
        case Loaded(w, h) =>
          var nextHead := h + 1;
          if nextHead == cap { nextHead := 0; }
          if nextHead != tail { producer := Free(w, h); }
        case Free(w, h) =>
          buf[h] := Full(w);
          assert buf[..] == old(buf[..])[h := Full(w)];
          producer := Constructed(w, h);
        case Constructed(w, h) =>
          head := if h + 1 == cap then 0 else h + 1;
          producer := Idle;
          pushed := pushed + [w];
      }
    }

    /** One atomic step of `read_once`. */
    method Consume()
      requires Valid()
      modifies this`tail, this`consumer, this`popped, this`misses, buf
      ensures Valid() && State() == SpscSteps.Consume(old(State()))
    {
      hide Inv;
      ConsumeInv(State());
      InvIsSafe(SpscSteps.Consume(State()));
      match consumer {
        case Resting =>
          consumer := First(tail);
        case First(t) =>
          if head == t {
            consumer, misses := Resting, misses + 1;
          } else {
            consumer := Nonempty;
          }
        case Nonempty =>
          consumer := Second(tail);
        case Second(t) =>
          consumer := Pointing(t);
        case Pointing(t) =>
          consumer := Holding(buf[t].value);
        case Holding(v) =>
          consumer := Popping(v, tail);
        case Popping(v, t) =>
          buf[t] := Raw;
          assert buf[..] == old(buf[..])[t := Raw];
          consumer := Destroyed(v, t);
        case Destroyed(v, t) =>
          tail := if t + 1 == cap then 0 else t + 1;
          consumer := Resting;
          popped := popped + [v];
      }
    }

    /** `push` with the consumer standing still: the loop ends if there is room. */
    method Push(v: T)
      requires Valid() && producer.Idle? && |pushed| - |popped| < cap - 1
      modifies this`head, this`producer, this`pushed, buf
      ensures Valid() && producer.Idle? && pushed == old(pushed) + [v]
    {
      Produce(v);
      SpinsWhileFull(State(), v);
      Produce(v);
      Produce(v);
      Produce(v);
    }

    /** `front`, the first time or the second. */
    method Front() returns (found: bool)
      requires Valid() && (consumer.Resting? || consumer.Nonempty?)
      modifies this`tail, this`consumer, this`popped, this`misses, buf
      ensures Valid() && popped == old(popped)
      ensures old(consumer.Nonempty?) ==> found && consumer.Pointing?
      ensures old(consumer.Resting?) ==>
              (found <==> popped != pushed) && consumer == if found then Nonempty else Resting
    {
      hide Inv;
      Consume();
      MissMeansEmpty(State());
      Consume();
      found := !consumer.Resting?;
    }

    /** Read the slot that `front` points at, then `pop`. */
    method TakeAndPop() returns (v: T)
      requires Valid() && consumer.Pointing?
      modifies this`tail, this`consumer, this`popped, this`misses, buf
      ensures Valid() && consumer.Resting? && popped == old(popped) + [v]
    {
      hide Inv;
      Consume();
      v := consumer.v;
      Consume();
      Consume();
      Consume();
    }

    /** `read_once` with the producer standing still: the oldest value, or nothing if there is none. */
    method ReadOnce() returns (r: Option<T>)
      requires Valid() && consumer.Resting?
      modifies this`tail, this`consumer, this`popped, this`misses, buf
      ensures Valid() && consumer.Resting?
      ensures r.None? <==> old(popped) == pushed
      ensures popped == old(popped) + match r case None => [] case Some(v) => [v]
    {
      var found := Front();
      if !found { return None; }
      found := Front();
      var v := TakeAndPop();
      return Some(v);
    }

    /** Any interleaving of the two threads' steps. */
    method Perform(turns: seq<Turn<T>>)
      requires Valid()
      modifies this, buf
      ensures Valid() && State() == Run(old(State()), turns)
    {
      for i := 0 to |turns|
        invariant Valid() && Run(State(), turns[i..]) == Run(old(State()), turns)
      {
        match turns[i] {
          case Producing(v) => Produce(v);
          case Consuming => Consume();
        }
        assert turns[i..][1..] == turns[i + 1..];
      }
    }
  }
}
