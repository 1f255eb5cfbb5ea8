/** The executor over its list of task objects; the worker holds one of them by reference. */
module TaskExecutor {
  import opened Bytes
  import opened ExecutorSteps

  class Task<O> {
    ghost const id: nat
    const uuid: string
    const known: bool
    var status: Status
    var out: O

    constructor (ghost id: nat, uuid: string, known: bool, out: O)
      ensures Entry() == ExecutorSteps.Entry(id, uuid, known, Init, out)
    {
      this.id, this.uuid, this.known, this.status, this.out := id, uuid, known, Init, out;
    }

    ghost function Entry(): Entry<O>
      reads this
    {
      ExecutorSteps.Entry(id, uuid, known, status, out)
    }
  }

  ghost function Entries<O>(list: seq<Task<O>>): (es: seq<Entry<O>>)
    reads list
    ensures |es| == |list| && forall i :: 0 <= i < |list| ==> es[i] == list[i].Entry()
  {
    seq(|list|, i requires 0 <= i < |list| reads list => list[i].Entry())
  }

  lemma {:induction false} EntriesRemoved<O>(list: seq<Task<O>>, i: nat)
    requires i < |list|
    ensures Entries(list[..i] + list[i + 1..]) == Entries(list)[..i] + Entries(list)[i + 1..]
  {
    var rest := list[..i] + list[i + 1..];
    assert forall j :: 0 <= j < |rest| ==> rest[j] == list[if j < i then j else j + 1];
  }

  /** Changing one task of a list changes one entry. */
  method SetStatus<O>(ghost list: seq<Task<O>>, ghost i: nat, task: Task<O>, status: Status)
    requires i < |list| && list[i] == task && forall j :: 0 <= j < |list| && j != i ==> list[j] != task
    modifies task
    ensures Entries(list) == old(Entries(list))[i := old(task.Entry()).(status := status)]
    ensures task.out == old(task.out)
  {
    task.status := status;
  }

  method SetOut<O>(ghost list: seq<Task<O>>, ghost i: nat, task: Task<O>, out: O)
    requires i < |list| && list[i] == task && forall j :: 0 <= j < |list| && j != i ==> list[j] != task
    modifies task
    ensures Entries(list) == old(Entries(list))[i := old(task.Entry()).(out := out)]
  {
    task.out := out;
  }

  class TaskList<O> {
    var list: seq<Task<O>>
    /** The worker's reference, from when it picks a task until it has set it over. */
    var held: Task?<O>
    ghost var added: seq<string>
    ghost var picked: nat
    ghost var results: map<nat, O>
    ghost var delivered: seq<Delivery<O>>

    ghost function State(): Executor<O>
      reads this, list, held
    {
      Executor(Entries(list), if held == null then None else Some(held.id), added, picked, results, delivered)
    }

    /** The reference the worker holds is to a task in the list. */
    ghost predicate Valid()
      reads this, list, held
    {
      Inv(State()) && (held != null ==> held in list)
    }

    constructor ()
      ensures Valid() && State() == Start()
    {
      list, held, added, picked, results, delivered := [], null, [], 0, map[], [];
    }

    lemma {:induction false} TasksDiffer(i: nat)
      requires Valid() && i < |list|
      ensures forall j :: 0 <= j < |list| && j != i ==> list[j] != list[i]
    {
      forall j | 0 <= j < |list| && j != i ensures list[j] != list[i] {
        OtherId(State(), i, j);
      }
    }

    lemma {:induction false} HeldPlace() returns (i: nat)
      requires Valid() && held != null
      ensures i < |list| && list[i] == held && Held(State().list, held.id) == i
      ensures held.known
    {
      i :| i < |list| && list[i] == held;
      HeldIsLast(State());
      var k: nat := Front(State()) - 1;
      if i != k { OtherId(State(), i, k); }
    }

    method Add(uuid: string, known: bool, out: O)
      requires Valid()
      modifies this`list, this`added
      ensures Valid() && State() == ExecutorSteps.Add(old(State()), uuid, known, out)
    {
      hide Inv;
      AddInv(State(), uuid, known, out);
      var task := new Task<O>(|added|, uuid, known, out);
      list := list + [task];
      added := added + [uuid];
      assert Entries(list) == old(Entries(list)) + [task.Entry()];
    }

    method Get(uuid: string) returns (r: Reply<O>)
      requires Valid()
      modifies this`list, this`delivered
      ensures Valid() && (State(), r) == ExecutorSteps.Get(old(State()), uuid)
    {
      hide Inv;
      for i := 0 to |list|
        invariant list == old(list) && delivered == old(delivered)
        invariant forall k :: 0 <= k < i ==> list[k].uuid != uuid
      {
        if list[i].uuid == uuid {
          assert FirstOf(State().list, uuid) == i;
          if list[i].status != Over { return Retry; }
          r := Take(i, uuid);
          return;
        }
      }
      assert FirstOf(State().list, uuid) == |list|;
      return NotFound;
    }

    /** Take the task out of the list, and its result. */
    method Take(i: nat, uuid: string) returns (r: Reply<O>)
      requires Valid() && i < |list| && i == FirstOf(State().list, uuid) && list[i].status == Over
      modifies this`list, this`delivered
      ensures Valid() && (State(), r) == ExecutorSteps.Get(old(State()), uuid)
    {
      hide Inv;
      hide ExecutorSteps.Get;
      hide FirstOf;
      GetInv(State(), uuid);
      GetAt(State(), uuid, i);
      HeldStays(i);
      EntriesRemoved(list, i);
      r := Result(list[i].out);
      delivered := delivered + [Delivery(list[i].id, list[i].uuid, list[i].out)];
      list := list[..i] + list[i + 1..];
    }

    lemma {:induction false} HeldStays(i: nat)
      requires Valid() && i < |list| && list[i].status == Over
      ensures held != null ==> held in list[..i] + list[i + 1..]
    {
      OverIsPicked(State(), i);
      if held != null {
        var k := HeldPlace();
        assert list[i + 1..][k - i - 1] == held;
      }
    }

    method HasTaskToRun() returns (some: bool)
      ensures some == exists i :: 0 <= i < |list| && list[i].status == Init
    {
      for i := 0 to |list|
        invariant forall k :: 0 <= k < i ==> list[k].status != Init
      {
        if list[i].status == Init { return true; }
      }
      return false;
    }

    /** The worker picks a task, if there is one; else it goes on waiting. */
    method Pick()
      requires Valid() && held == null
      modifies this`held, this`picked, list
      ensures Valid() && State() == ExecutorSteps.Pick(old(State()))
    {
      hide Inv;
      var some := HasTaskToRun();
      if !some {
        assert FirstInit(State().list) == |list|;
        return;
      }
      var i := 0;
      while list[i].status != Init
        invariant i < |list| && forall k :: 0 <= k < i ==> list[k].status != Init
        decreases |list| - i
      {
        i := i + 1;
      }
      assert FirstInit(State().list) == i;
      SetRunning(i);
    }

    method SetRunning(i: nat)
      requires Valid() && held == null && i < |list| && i == FirstInit(State().list)
      modifies this`held, this`picked, list
      ensures Valid() && State() == ExecutorSteps.Pick(old(State()))
    {
      hide Inv;
      hide ExecutorSteps.Pick;
      hide FirstInit;
      PickInv(State());
      PickAt(State(), i);
      TasksDiffer(i);
      SetStatus(list, i, list[i], Running);
      picked := picked + 1;
      if list[i].known { held := list[i]; }
    }

    /** The worker writes the result, without the lock. */
    method Write(out: O)
      requires Valid() && held != null
      modifies held
      ensures Valid() && State() == ExecutorSteps.Write(old(State()), out)
    {
      hide Inv;
      WriteInv(State(), out);
      ghost var i := HeldPlace();
      TasksDiffer(i);
      SetOut(list, i, held, out);
    }

    method SetTaskOver()
      requires Valid() && held != null
      modifies this`held, this`results, held
      ensures Valid() && State() == SetOver(old(State()))
    {
      hide Inv;
      hide SetOver;
      hide Held;
      SetOverInv(State());
      ghost var i := HeldPlace();
      SetOverAt(State(), i);
      TasksDiffer(i);
      SetStatus(list, i, held, Over);
      results := results[held.id := held.out];
      held := null;
    }
  }
}
