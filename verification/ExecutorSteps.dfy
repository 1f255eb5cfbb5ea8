/** The executor's task list, one locked operation at a time: callers add and get in any order while the
    single worker picks a task, works on it without the lock through a reference, and marks it over. */
module ExecutorSteps {
  import opened Bytes

  datatype Status = Init | Running | Over

  /** A listed task: the how-manieth it was to be added, whether the worker knows its type, and its result. */
  datatype Entry<O> = Entry(id: nat, uuid: string, known: bool, status: Status, out: O)

  datatype Delivery<O> = Delivery(id: nat, uuid: string, out: O)

  /** `held` is the task that the worker has a reference to; `results` is what it has left in each task
      that is over, by the task's id. */
  datatype Executor<O> = Executor(
    list: seq<Entry<O>>,
    held: Option<nat>,
    added: seq<string>,
    picked: nat,
    results: map<nat, O>,
    delivered: seq<Delivery<O>>
  )

  datatype Reply<O> = Result(out: O) | Retry | NotFound

  function Start<O>(): Executor<O> { Executor([], None, [], 0, map[], []) }

  /** The first task with this uuid, or the length of the list. */
  function FirstOf<O>(list: seq<Entry<O>>, uuid: string): (i: nat)
    ensures i <= |list| && (i < |list| ==> list[i].uuid == uuid)
    ensures forall k :: 0 <= k < i ==> list[k].uuid != uuid
  {
    if list == [] || list[0].uuid == uuid then 0 else 1 + FirstOf(list[1..], uuid)
  }

  function FirstInit<O>(list: seq<Entry<O>>): (i: nat)
    ensures i <= |list| && (i < |list| ==> list[i].status == Init)
    ensures forall k :: 0 <= k < i ==> list[k].status != Init
  {
    if list == [] || list[0].status == Init then 0 else 1 + FirstInit(list[1..])
  }

  function Held<O>(list: seq<Entry<O>>, id: nat): (i: nat)
    ensures i <= |list| && (i < |list| ==> list[i].id == id)
    ensures forall k :: 0 <= k < i ==> list[k].id != id
  {
    if list == [] || list[0].id == id then 0 else 1 + Held(list[1..], id)
  }

  function Add<O>(s: Executor<O>, uuid: string, known: bool, out: O): Executor<O> {
    s.(list := s.list + [Entry(|s.added|, uuid, known, Init, out)], added := s.added + [uuid])
  }

  function Get<O>(s: Executor<O>, uuid: string): (Executor<O>, Reply<O>) {
    var i := FirstOf(s.list, uuid);
    if i == |s.list| then (s, NotFound)
    else if s.list[i].status != Over then (s, Retry)
    else
      var t := s.list[i];
      (s.(list := s.list[..i] + s.list[i + 1..], delivered := s.delivered + [Delivery(t.id, t.uuid, t.out)]),
          Result(t.out))
  }

  /** The worker waits while it has nothing to run. It keeps no reference to a task of a type it does not know. */
  function Pick<O>(s: Executor<O>): Executor<O> {
    var i := FirstInit(s.list);
    if s.held.Some? || i == |s.list| then s
    else s.(list := s.list[i := s.list[i].(status := Running)], picked := s.picked + 1,
            held := if s.list[i].known then Some(s.list[i].id) else None)
  }

  /** The worker writes to the task it holds, without the lock. */
  function Write<O>(s: Executor<O>, out: O): Executor<O> {
    if s.held.None? then s else
      var i := Held(s.list, s.held.value);
      if i == |s.list| then s else s.(list := s.list[i := s.list[i].(out := out)])
  }

  function SetOver<O>(s: Executor<O>): Executor<O> {
    if s.held.None? then s else
      var i := Held(s.list, s.held.value);
      if i == |s.list| then s
      else s.(list := s.list[i := s.list[i].(status := Over)], held := None,
          results := s.results[s.held.value := s.list[i].out])
  }

  lemma {:induction false} GetAt<O>(s: Executor<O>, uuid: string, i: nat)
    requires i == FirstOf(s.list, uuid) < |s.list| && s.list[i].status == Over
    ensures var t := s.list[i];
            Get(s, uuid) == (s.(list := s.list[..i] + s.list[i + 1..],
                delivered := s.delivered + [Delivery(t.id, t.uuid, t.out)]), Result(t.out))
  {
  }

  lemma {:induction false} PickAt<O>(s: Executor<O>, i: nat)
    requires s.held.None? && i == FirstInit(s.list) < |s.list|
    ensures Pick(s) == s.(list := s.list[i := s.list[i].(status := Running)], picked := s.picked + 1,
                          held := if s.list[i].known then Some(s.list[i].id) else None)
  {
  }

  lemma {:induction false} SetOverAt<O>(s: Executor<O>, i: nat)
    requires s.held.Some? && i == Held(s.list, s.held.value) < |s.list|
    ensures SetOver(s) == s.(list := s.list[i := s.list[i].(status := Over)], held := None,
                             results := s.results[s.held.value := s.list[i].out])
  {
  }

  datatype Turn<O> = Adding(uuid: string, known: bool, out: O) | Getting(uuid: string) | Picking | Writing(out: O)
      | Ending

  function Step<O>(s: Executor<O>, turn: Turn<O>): Executor<O> {
    match turn
    case Adding(uuid, known, out) => Add(s, uuid, known, out)
    case Getting(uuid) => Get(s, uuid).0
    case Picking => Pick(s)
    case Writing(out) => Write(s, out)
    case Ending => SetOver(s)
  }

  function Run<O>(s: Executor<O>, turns: seq<Turn<O>>): Executor<O>
    decreases |turns|
  {
    if turns == [] then s else Run(Step(s, turns[0]), turns[1..])
  }

  // ---- what every step keeps

  /** The number of tasks in the list that have been picked. */
  function Front<O>(s: Executor<O>): int { |s.list| - (|s.added| - s.picked) }

  ghost predicate Sorted<O>(list: seq<Entry<O>>) {
    forall i, j :: 0 <= i < j < |list| ==> list[i].id < list[j].id
  }

  /** The list's entries are in the order they were added; those not yet picked are all still there, at
      the end; of the others, one is over unless the worker holds it or does not know its type; and the
      task held is the last one picked. */
  ghost predicate Ordered<O>(s: Executor<O>) {
    && s.picked <= |s.added| && 0 <= Front(s)
    && Sorted(s.list)
    && (forall i :: 0 <= i < |s.list| ==> s.list[i].id < |s.added| && s.list[i].uuid == s.added[s.list[i].id])
    && (forall i :: 0 <= i < Front(s) ==> s.list[i].id < s.picked)
    && (forall i :: Front(s) <= i < |s.list| ==> s.list[i].id == s.picked + i - Front(s))
    && (s.held.Some? ==>
        0 < Front(s) && s.held.value == s.picked - 1 == s.list[Front(s) - 1].id && s.list[Front(s) - 1].known)
  }

  predicate StatusRight<O>(s: Executor<O>, e: Entry<O>) {
    e.status == if e.id >= s.picked then Init else if s.held == Some(e.id) || !e.known then Running else Over
  }

  ghost predicate Statuses<O>(s: Executor<O>) {
    forall i :: 0 <= i < |s.list| ==> StatusRight(s, s.list[i])
  }

  /** What is over, listed or delivered, has the result that the worker left in it. */
  ghost predicate Resulted<O>(s: Executor<O>) {
    && (forall i :: 0 <= i < |s.list| ==> (s.list[i].status == Over <==> s.list[i].id in s.results))
    && (forall i :: 0 <= i < |s.list| && s.list[i].id in s.results ==> s.results[s.list[i].id] == s.list[i].out)
    && (forall d :: d in s.delivered ==> d.id in s.results && s.results[d.id] == d.out)
    && (forall id :: id in s.results ==> id < s.picked && s.held != Some(id))
  }

  ghost predicate Inv<O>(s: Executor<O>) {
    Ordered(s) && Statuses(s) && Resulted(s)
  }

  lemma {:induction false} AddOrdered<O>(s: Executor<O>, uuid: string, known: bool, out: O)
    requires Ordered(s)
    ensures Ordered(Add(s, uuid, known, out))
  {
  }

  lemma {:induction false} AddInv<O>(s: Executor<O>, uuid: string, known: bool, out: O)
    requires Inv(s)
    ensures Inv(Add(s, uuid, known, out))
  {
    AddOrdered(s, uuid, known, out);
    assert s.picked <= |s.added| && (s.held.Some? ==> s.held.value < |s.added|);
    hide Ordered;
  }

  /** What `get` takes out is over, so it has been picked and the worker does not hold it. */
  lemma {:induction false} OverIsPicked<O>(s: Executor<O>, i: nat)
    requires Ordered(s) && Statuses(s) && i < |s.list| && s.list[i].status == Over
    ensures i < Front(s) && s.held != Some(s.list[i].id) && (s.held.Some? ==> i < Front(s) - 1)
  {
    assert StatusRight(s, s.list[i]);
  }

  lemma {:induction false} RemoveOrdered<O>(s: Executor<O>, i: nat, d: Delivery<O>)
    requires Ordered(s) && i < Front(s) && (s.held.Some? ==> i < Front(s) - 1)
    ensures Ordered(s.(list := s.list[..i] + s.list[i + 1..], delivered := s.delivered + [d]))
  {
    hide Sorted;
    hide FirstOf;
    hide FirstInit;
    var list := s.list[..i] + s.list[i + 1..];
    RemoveSorted(s.list, i);
    assert forall j :: 0 <= j < |list| ==> list[j] == s.list[if j < i then j else j + 1];
  }

  lemma {:induction false} RemoveSorted<O>(list: seq<Entry<O>>, i: nat)
    requires Sorted(list) && i < |list|
    ensures Sorted(list[..i] + list[i + 1..])
  {
    var t := list[..i] + list[i + 1..];
    assert forall j :: 0 <= j < |t| ==> t[j] == list[if j < i then j else j + 1];
  }

  lemma {:induction false} RemoveRest<O>(s: Executor<O>, i: nat)
    requires Statuses(s) && Resulted(s) && i < |s.list| && s.list[i].status == Over
    ensures var t := s.list[i];
            var z := s.(list := s.list[..i] + s.list[i + 1..],
                delivered := s.delivered + [Delivery(t.id, t.uuid, t.out)]);
            Statuses(z) && Resulted(z)
  {
    var list := s.list[..i] + s.list[i + 1..];
    assert forall j :: 0 <= j < |list| ==> list[j] == s.list[if j < i then j else j + 1];
  }

  lemma {:induction false} GetInv<O>(s: Executor<O>, uuid: string)
    requires Inv(s)
    ensures Inv(Get(s, uuid).0)
  {
    hide Ordered;
    hide Statuses;
    hide Resulted;
    var i := FirstOf(s.list, uuid);
    if i < |s.list| && s.list[i].status == Over {
      var t := s.list[i];
      OverIsPicked(s, i);
      RemoveOrdered(s, i, Delivery(t.id, t.uuid, t.out));
      RemoveRest(s, i);
    }
  }

  /** The worker picks the tasks in the order they were added, each of them. */
  lemma {:induction false} PickIsNext<O>(s: Executor<O>)
    requires Ordered(s) && Statuses(s)
    ensures FirstInit(s.list) == Front(s)
    ensures Front(s) < |s.list| ==> s.list[Front(s)].id == s.picked
  {
    var k := Front(s);
    assert forall j :: 0 <= j < |s.list| ==> StatusRight(s, s.list[j]);
    assert forall j :: 0 <= j < k ==> s.list[j].status != Init;
    assert k < |s.list| ==> s.list[k].status == Init;
  }

  lemma {:induction false} HeldIsLast<O>(s: Executor<O>)
    requires Ordered(s) && s.held.Some?
    ensures 0 < Front(s) && Held(s.list, s.held.value) == Front(s) - 1
  {
  }

  /** Changing an entry's status or result moves nothing. */
  lemma {:induction false} SameOrder<O>(s: Executor<O>, i: nat, e: Entry<O>, held: Option<nat>, results: map<nat, O>)
    requires Ordered(s) && i < |s.list| && e == s.list[i].(status := e.status, out := e.out)
    requires held == s.held || held == None
    ensures Ordered(s.(list := s.list[i := e], held := held, results := results))
  {
  }

  lemma {:induction false} PickOrdered<O>(s: Executor<O>, i: nat)
    requires Ordered(s) && i == Front(s) < |s.list|
    ensures var t := s.list[i];
            Ordered(s.(list := s.list[i := t.(status := Running)], picked := s.picked + 1,
                       held := if t.known then Some(t.id) else None))
  {
  }

  lemma {:induction false} PickStatuses<O>(s: Executor<O>, i: nat)
    requires Ordered(s) && Statuses(s) && i == Front(s) < |s.list| && s.held.None?
    ensures var t := s.list[i];
            Statuses(s.(list := s.list[i := t.(status := Running)], picked := s.picked + 1,
                        held := if t.known then Some(t.id) else None))
  {
    var t := s.list[i];
    var z := s.(list := s.list[i := t.(status := Running)], picked := s.picked + 1,
                held := if t.known then Some(t.id) else None);
    assert t.id == s.picked;
    forall j | 0 <= j < |z.list| ensures StatusRight(z, z.list[j]) {
      assert StatusRight(s, s.list[j]);
      if j != i { OtherId(s, i, j); }
    }
  }

  lemma {:induction false} PickInv<O>(s: Executor<O>)
    requires Inv(s)
    ensures Inv(Pick(s))
  {
    hide FirstInit;
    hide Ordered;
    hide Statuses;
    PickIsNext(s);
    var i := FirstInit(s.list);
    if s.held.None? && i < |s.list| {
      PickOrdered(s, i);
      PickStatuses(s, i);
    }
  }

  lemma {:induction false} OtherId<O>(s: Executor<O>, i: nat, j: nat)
    requires Ordered(s) && i < |s.list| && j < |s.list| && i != j
    ensures s.list[i].id != s.list[j].id
  {
  }

  /** The held task is not over; what is written to it is no one's result yet. */
  lemma {:induction false} WriteResulted<O>(s: Executor<O>, i: nat, out: O)
    requires Resulted(s) && i < |s.list| && s.held == Some(s.list[i].id)
    ensures Resulted(s.(list := s.list[i := s.list[i].(out := out)]))
  {
  }

  lemma {:induction false} WriteInv<O>(s: Executor<O>, out: O)
    requires Inv(s)
    ensures Inv(Write(s, out))
  {
    hide Resulted;
    if s.held.Some? {
      HeldIsLast(s);
      hide Held;
      var i: nat := Front(s) - 1;
      SameOrder(s, i, s.list[i].(out := out), s.held, s.results);
      WriteResulted(s, i, out);
      assert StatusRight(s, s.list[i]);
      hide Ordered;
    }
  }

  lemma {:induction false} OverResulted<O>(s: Executor<O>, i: nat)
    requires Ordered(s) && Resulted(s) && i < |s.list| && s.held == Some(s.list[i].id)
    ensures Resulted(s.(list := s.list[i := s.list[i].(status := Over)], held := None,
                        results := s.results[s.held.value := s.list[i].out]))
  {
    HeldNotDelivered(s);
    assert forall j :: 0 <= j < |s.list| && j != i ==> s.list[j].id != s.list[i].id;
    assert s.held.value < s.picked;
    hide Ordered;
  }

  lemma {:induction false} OverStatuses<O>(s: Executor<O>, i: nat, results: map<nat, O>)
    requires Ordered(s) && Statuses(s) && i < |s.list| && s.held == Some(s.list[i].id)
    ensures Statuses(s.(list := s.list[i := s.list[i].(status := Over)], held := None, results := results))
  {
    HeldIsLast(s);
    var z := s.(list := s.list[i := s.list[i].(status := Over)], held := None, results := results);
    forall j | 0 <= j < |z.list| ensures StatusRight(z, z.list[j]) {
      assert StatusRight(s, s.list[j]);
      if j != i { OtherId(s, i, j); }
    }
  }

  lemma {:induction false} SetOverInv<O>(s: Executor<O>)
    requires Inv(s)
    ensures Inv(SetOver(s))
  {
    hide Resulted;
    if s.held.Some? {
      HeldIsLast(s);
      hide Held;
      var i: nat := Front(s) - 1;
      var z := SetOver(s);
      SameOrder(s, i, s.list[i].(status := Over), None, z.results);
      OverStatuses(s, i, z.results);
      OverResulted(s, i);
      hide Ordered;
      hide Statuses;
    }
  }

  lemma {:induction false} HeldNotDelivered<O>(s: Executor<O>)
    requires Resulted(s) && s.held.Some?
    ensures s.held.value !in s.results && forall d :: d in s.delivered ==> d.id != s.held.value
  {
  }

  // ---- nothing lost, nothing delivered twice, every uuid's results in order

  datatype Name = Name(id: nat, uuid: string)

  /** The ids that go with a uuid, in order. */
  function Of(names: seq<Name>, uuid: string): seq<nat> {
    if names == [] then [] else (if names[0].uuid == uuid then [names[0].id] else []) + Of(names[1..], uuid)
  }

  function Listed<O>(list: seq<Entry<O>>): seq<Name> {
    seq(|list|, i requires 0 <= i < |list| => Name(list[i].id, list[i].uuid))
  }

  function Delivered<O>(ds: seq<Delivery<O>>): seq<Name> {
    seq(|ds|, i requires 0 <= i < |ds| => Name(ds[i].id, ds[i].uuid))
  }

  function Added(added: seq<string>): seq<Name> {
    seq(|added|, i requires 0 <= i < |added| => Name(i, added[i]))
  }

  /** For every uuid, its tasks delivered and then those listed are those added, in that order. */
  ghost predicate Conserved<O>(s: Executor<O>) {
    forall uuid :: Of(Delivered(s.delivered), uuid) + Of(Listed(s.list), uuid) == Of(Added(s.added), uuid)
  }

  lemma {:induction false} OfJoined(a: seq<Name>, b: seq<Name>, uuid: string)
    ensures Of(a + b, uuid) == Of(a, uuid) + Of(b, uuid)
  {
    hide *;
    OfNames(a, uuid);
    OfNames(a + b, uuid);
    if a == [] {
      assert a + b == b && [] + Of(b, uuid) == Of(b, uuid);
    } else {
      assert (a + b)[1..] == a[1..] + b;
      OfJoined(a[1..], b, uuid);
      Regrouped(if a[0].uuid == uuid then [a[0].id] else [], Of(a[1..], uuid), Of(b, uuid));
    }
  }

  lemma {:induction false} OfNames(names: seq<Name>, uuid: string)
    ensures Of(names, uuid) == if names == [] then [] else
                                 (if names[0].uuid == uuid then [names[0].id] else []) + Of(names[1..], uuid)
  {
  }

  lemma {:induction false} Regrouped(a: seq<nat>, b: seq<nat>, c: seq<nat>)
    ensures a + (b + c) == (a + b) + c
  {
  }

  lemma {:induction false} OfNone(a: seq<Name>, uuid: string)
    requires forall i :: 0 <= i < |a| ==> a[i].uuid != uuid
    ensures Of(a, uuid) == []
  {
    if a != [] { OfNone(a[1..], uuid); }
  }

  lemma {:induction false} OfOne(n: Name, uuid: string)
    ensures Of([n], uuid) == if n.uuid == uuid then [n.id] else []
  {
    assert Of([], uuid) == [];
  }

  /** The first of a uuid's tasks goes from the one list to the end of the other. */
  lemma {:induction false} Moved(done: seq<Name>, a: seq<Name>, n: Name, b: seq<Name>, uuid: string)
    requires forall i :: 0 <= i < |a| ==> a[i].uuid != n.uuid
    ensures Of(done + [n], uuid) + Of(a + b, uuid) == Of(done, uuid) + Of(a + ([n] + b), uuid)
  {
    hide Of;
    OfJoined(done, [n], uuid);
    OfJoined(a, b, uuid);
    OfJoined(a, [n] + b, uuid);
    OfJoined([n], b, uuid);
    OfOne(n, uuid);
    if n.uuid == uuid { OfNone(a, uuid); }
  }

  lemma {:induction false} GetNames<O>(s: Executor<O>, i: nat)
    requires i < |s.list| && i == FirstOf(s.list, s.list[i].uuid)
    ensures var t := s.list[i];
            var a, n, b := Listed(s.list[..i]), Name(t.id, t.uuid), Listed(s.list[i + 1..]);
            && Listed(s.list) == a + ([n] + b) && Listed(s.list[..i] + s.list[i + 1..]) == a + b
            && Delivered(s.delivered + [Delivery(t.id, t.uuid, t.out)]) == Delivered(s.delivered) + [n]
            && forall k :: 0 <= k < |a| ==> a[k].uuid != n.uuid
  {
  }

  lemma {:induction false} StepConserves<O>(s: Executor<O>, turn: Turn<O>)
    requires Conserved(s)
    ensures Conserved(Step(s, turn))
  {
    var z := Step(s, turn);
    match turn
    case Adding(uuid, known, out) =>
      assert Listed(z.list) == Listed(s.list) + [Name(|s.added|, uuid)];
      assert Added(z.added) == Added(s.added) + [Name(|s.added|, uuid)];
      forall u ensures Of(Delivered(z.delivered), u) + Of(Listed(z.list), u) == Of(Added(z.added), u) {
        OfJoined(Listed(s.list), [Name(|s.added|, uuid)], u);
        OfJoined(Added(s.added), [Name(|s.added|, uuid)], u);
      }
    case Getting(uuid) =>
      GetConserves(s, uuid);
    case _ =>
      assert Listed(z.list) == Listed(s.list);
  }

  lemma {:induction false} ConservedFor<O>(s: Executor<O>, uuid: string)
    requires Conserved(s)
    ensures Of(Delivered(s.delivered), uuid) + Of(Listed(s.list), uuid) == Of(Added(s.added), uuid)
  {
    hide Of;
  }

  lemma {:induction false} NowConserved<O>(s: Executor<O>)
    requires forall u :: Of(Delivered(s.delivered), u) + Of(Listed(s.list), u) == Of(Added(s.added), u)
    ensures Conserved(s)
  {
    hide Of;
  }

  lemma {:induction false} GetIs<O>(s: Executor<O>, uuid: string)
    ensures var i, z := FirstOf(s.list, uuid), Get(s, uuid).0;
            if i < |s.list| && s.list[i].status == Over then
              var t := s.list[i];
              && z.list == s.list[..i] + s.list[i + 1..] && z.added == s.added
              && z.delivered == s.delivered + [Delivery(t.id, t.uuid, t.out)] && t.uuid == uuid
            else z == s
  {
  }

  lemma {:induction false} GetConserves<O>(s: Executor<O>, uuid: string)
    requires Conserved(s)
    ensures Conserved(Get(s, uuid).0)
  {
    hide *;
    var i, z := FirstOf(s.list, uuid), Get(s, uuid).0;
    GetIs(s, uuid);
    if i < |s.list| && s.list[i].status == Over {
      var t := s.list[i];
      GetNames(s, i);
      forall u ensures Of(Delivered(z.delivered), u) + Of(Listed(z.list), u) == Of(Added(z.added), u) {
        ConservedFor(s, u);
        Moved(Delivered(s.delivered), Listed(s.list[..i]), Name(t.id, t.uuid), Listed(s.list[i + 1..]), u);
      }
      NowConserved(z);
    }
  }

  lemma {:induction false} StepInv<O>(s: Executor<O>, turn: Turn<O>)
    requires Inv(s)
    ensures Inv(Step(s, turn))
  {
    hide Inv;
    match turn
    case Adding(uuid, known, out) => AddInv(s, uuid, known, out);
    case Getting(uuid) => GetInv(s, uuid);
    case Picking => PickInv(s);
    case Writing(out) => WriteInv(s, out);
    case Ending => SetOverInv(s);
  }

  lemma {:induction false} RunInv<O>(s: Executor<O>, turns: seq<Turn<O>>)
    requires Inv(s) && Conserved(s)
    ensures Inv(Run(s, turns)) && Conserved(Run(s, turns))
    decreases |turns|
  {
    if turns != [] {
      hide Inv;
      hide Conserved;
      hide Step;
      StepInv(s, turns[0]);
      StepConserves(s, turns[0]);
      RunInv(Step(s, turns[0]), turns[1..]);
    }
  }

  /** After any interleaving: the list reads over or unknown, then what the worker holds, then those not
      yet picked, all of them; a result delivered is what the worker left in that task; and each uuid's
      tasks are delivered in the order they were added, each once. */
  lemma {:induction false} EveryRunIsOrderly<O>(turns: seq<Turn<O>>)
    ensures var s := Run(Start<O>(), turns);
            && Ordered(s) && Statuses(s) && Resulted(s) && Conserved(s)
            && (forall i :: 0 <= i < |s.list| ==> (s.list[i].status == Init <==> Front(s) <= i))
            && (s.held.Some? ==>
                0 < Front(s) && s.list[Front(s) - 1].id == s.held.value && s.list[Front(s) - 1].status == Running)
            && (forall i :: 0 <= i < |s.list| && s.list[i].status == Running ==>
                s.held == Some(s.list[i].id) || !s.list[i].known)
  {
    var s := Start<O>();
    assert Inv(s) && Conserved(s);
    RunInv(s, turns);
    OrderlyShape(Run(s, turns));
    hide *;
  }

  lemma {:induction false} OrderlyShape<O>(s: Executor<O>)
    requires Ordered(s) && Statuses(s)
    ensures forall i :: 0 <= i < |s.list| ==> (s.list[i].status == Init <==> Front(s) <= i)
    ensures s.held.Some? ==>
            0 < Front(s) && s.list[Front(s) - 1].id == s.held.value && s.list[Front(s) - 1].status == Running
    ensures forall i :: 0 <= i < |s.list| && s.list[i].status == Running ==>
            s.held == Some(s.list[i].id) || !s.list[i].known
  {
    forall i | 0 <= i < |s.list|
      ensures s.list[i].status == Init <==> Front(s) <= i
      ensures s.list[i].status == Running ==> s.held == Some(s.list[i].id) || !s.list[i].known
    {
      assert StatusRight(s, s.list[i]);
    }
  }

  /** `get` gives a uuid's next result, if that task is over; it finds nothing just if none is left. */
  lemma {:induction false} GetGivesNext<O>(s: Executor<O>, uuid: string)
    requires Inv(s) && Conserved(s)
    ensures var k := |Of(Delivered(s.delivered), uuid)|;
            var ids := Of(Added(s.added), uuid);
            match Get(s, uuid).1
            case NotFound => k == |ids|
            case Retry => k < |ids| && ids[k] !in s.results
            case Result(out) =>
              && k < |ids| && ids[k] in s.results && out == s.results[ids[k]]
              && Of(Delivered(Get(s, uuid).0.delivered), uuid) == ids[..k + 1]
  {
    var i := FirstOf(s.list, uuid);
    var ids := Of(Added(s.added), uuid);
    assert Of(Delivered(s.delivered), uuid) + Of(Listed(s.list), uuid) == ids;
    if i == |s.list| {
      OfNone(Listed(s.list), uuid);
    } else {
      var t := s.list[i];
      FirstListed(s.list, i, uuid);
      assert StatusRight(s, t);
      if t.status == Over {
        OfJoined(Delivered(s.delivered), [Name(t.id, uuid)], uuid);
        OfOne(Name(t.id, uuid), uuid);
        assert Delivered(s.delivered + [Delivery(t.id, t.uuid, t.out)]) == Delivered(s.delivered) + [Name(t.id, uuid)];
      } else {
        NotOverNoResult(s, i);
      }
    }
  }

  lemma {:induction false} FirstListed<O>(list: seq<Entry<O>>, i: nat, uuid: string)
    requires i == FirstOf(list, uuid) < |list|
    ensures Of(Listed(list), uuid) != [] && Of(Listed(list), uuid)[0] == list[i].id
  {
    var a, n, b := Listed(list[..i]), Name(list[i].id, uuid), Listed(list[i + 1..]);
    assert Listed(list) == a + ([n] + b);
    hide Listed;
    OfNone(a, uuid);
    OfJoined(a, [n] + b, uuid);
    OfJoined([n], b, uuid);
    OfOne(n, uuid);
  }

  lemma {:induction false} NotOverNoResult<O>(s: Executor<O>, i: nat)
    requires Inv(s) && i < |s.list| && s.list[i].status != Over
    ensures s.list[i].id !in s.results
  {
  }
}
