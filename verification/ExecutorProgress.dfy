/** What the executor does get done: tasks are listed as they are added, and the worker's rounds finish them all. */
module ExecutorProgress {
  import opened Bytes
  import opened ExecutorSteps

  // ---- what is added is listed

  function Adds<O>(turns: seq<Turn<O>>): seq<Turn<O>> {
    if turns == [] then [] else (if turns[0].Adding? then [turns[0]] else []) + Adds(turns[1..])
  }

  /** The tasks added are these, in order; and what is listed of them has their uuid and type. */
  ghost predicate Tied<O>(s: Executor<O>, adds: seq<Turn<O>>) {
    && |adds| == |s.added|
    && (forall i :: 0 <= i < |adds| ==> adds[i].Adding? && adds[i].uuid == s.added[i])
    && forall j :: 0 <= j < |s.list| ==> s.list[j].id < |adds| && s.list[j].known == adds[s.list[j].id].known
  }

  lemma {:induction false} StepTied<O>(s: Executor<O>, adds: seq<Turn<O>>, turn: Turn<O>)
    requires Tied(s, adds)
    ensures Tied(Step(s, turn), adds + if turn.Adding? then [turn] else [])
  {
    hide FirstOf;
    hide FirstInit;
    hide Held;
    var z, more := Step(s, turn), adds + if turn.Adding? then [turn] else [];
    match turn
    case Adding(_, _, _) =>
    case Getting(uuid) =>
      assert more == adds;
      var i := FirstOf(s.list, uuid);
      if z.list != s.list {
        assert forall j :: 0 <= j < |z.list| ==> z.list[j] == s.list[if j < i then j else j + 1];
      }
    case _ => assert more == adds;
  }

  lemma {:induction false} RunTied<O>(s: Executor<O>, adds: seq<Turn<O>>, turns: seq<Turn<O>>)
    requires Tied(s, adds)
    ensures Tied(Run(s, turns), adds + Adds(turns))
    decreases |turns|
  {
    hide Tied;
    hide Step;
    if turns == [] {
      assert adds + [] == adds;
    } else {
      var first: seq<Turn<O>> := if turns[0].Adding? then [turns[0]] else [];
      StepTied(s, adds, turns[0]);
      RunTied(Step(s, turns[0]), adds + first, turns[1..]);
      assert (adds + first) + Adds(turns[1..]) == adds + (first + Adds(turns[1..]));
    }
  }

  /** In every interleaving, what has been added is what the adding calls asked for, in their order. */
  lemma {:induction false} AddedInOrder<O>(turns: seq<Turn<O>>)
    ensures Tied(Run(Start<O>(), turns), Adds(turns))
  {
    hide Run;
    RunTied(Start<O>(), [], turns);
    assert [] + Adds(turns) == Adds(turns);
  }

  // ---- the worker's rounds

  /** One round of the worker: it picks a task, writes its result, and sets it over. */
  function Work<O>(s: Executor<O>, out: O): Executor<O> { SetOver(Write(Pick(s), out)) }

  /** A round of an idle worker finishes the first waiting task with the result it wrote; one of a type it does not know
      stays running. */
  lemma {:induction false} RoundFinishes<O>(s: Executor<O>, out: O)
    requires Inv(s) && s.held.None? && Front(s) < |s.list|
    ensures Inv(Work(s, out))
    ensures var i := Front(s);
            var t := s.list[i];
            Work(s, out) == if t.known then
                              s.(list := s.list[i := t.(status := Over, out := out)], picked := s.picked + 1,
                                 results := s.results[t.id := out])
                            else s.(list := s.list[i := t.(status := Running)], picked := s.picked + 1)
  {
    hide FirstInit;
    hide Held;
    hide Ordered;
    hide Statuses;
    hide Resulted;
    FrontIsIn(s);
    var i := Front(s);
    var t := s.list[i];
    PickIsNext(s);
    PickAt(s, i);
    PickInv(s);
    var p := Pick(s);
    WriteInv(p, out);
    SetOverInv(Write(p, out));
    if t.known {
      HeldIsLast(p);
      assert Front(p) == i + 1;
      HeldSame(p.list, i, p.list[i].(out := out), t.id);
      assert p.list[i := p.list[i].(out := out)][i := t.(status := Over, out := out)]
             == s.list[i := t.(status := Over, out := out)];
    }
  }

  lemma {:induction false} FrontIsIn<O>(s: Executor<O>)
    requires Ordered(s)
    ensures 0 <= Front(s) && s.picked <= |s.added| && Front(s) + (|s.added| - s.picked) == |s.list|
    ensures forall i :: 0 <= i < |s.list| ==> s.list[i].id < |s.added|
  {
  }

  lemma {:induction false} HeldSame<O>(list: seq<Entry<O>>, i: nat, e: Entry<O>, id: nat)
    requires i < |list| && e.id == list[i].id
    ensures Held(list[i := e], id) == Held(list, id)
  {
    hide Held;
    var a, b := Held(list[i := e], id), Held(list, id);
    assert forall k :: 0 <= k < |list| ==> list[i := e][k].id == list[k].id;
  }

  function WorkAll<O>(s: Executor<O>, outs: seq<O>): Executor<O>
    decreases |outs|
  {
    if outs == [] then s else WorkAll(Work(s, outs[0]), outs[1..])
  }

  /** What has become of the list after the rounds that wrote `outs`. */
  ghost predicate Worked<O>(s: Executor<O>, outs: seq<O>, z: Executor<O>) {
    && |z.list| == |s.list| && 0 <= Front(s) && Front(s) + |outs| <= |s.list|
    && (forall i :: 0 <= i < |s.list| && !(Front(s) <= i < Front(s) + |outs|) ==> z.list[i] == s.list[i])
    && (forall i :: Front(s) <= i < Front(s) + |outs| ==>
          z.list[i] == if s.list[i].known then s.list[i].(status := Over, out := outs[i - Front(s)])
                       else s.list[i].(status := Running))
    && z.added == s.added && z.delivered == s.delivered && z.held.None? && z.picked == s.picked + |outs|
  }

  /** As many rounds as tasks are waiting finish them all, each with its own result, but those of unknown type. */
  lemma {:induction false} RoundsFinish<O>(s: Executor<O>, outs: seq<O>)
    requires Inv(s) && s.held.None? && |outs| <= |s.added| - s.picked
    ensures Inv(WorkAll(s, outs)) && Worked(s, outs, WorkAll(s, outs))
    decreases |outs|
  {
    hide Ordered;
    hide Statuses;
    hide Resulted;
    hide Work;
    FrontIsIn(s);
    if outs != [] {
      RoundFinishes(s, outs[0]);
      var y := Work(s, outs[0]);
      FrontIsIn(y);
      RoundsFinish(y, outs[1..]);
      assert Front(y) == Front(s) + 1;
    }
  }

  lemma {:induction false} InvParts<O>(s: Executor<O>)
    ensures Inv(s) <==> Ordered(s) && Statuses(s) && Resulted(s)
  {
    hide Ordered;
    hide Statuses;
    hide Resulted;
  }

  /** After such rounds, asking for a uuid whose first listed task is of a known type gives that task's result: what the
      worker wrote for it, or had written before. */
  lemma {:induction false} WorkIsDelivered<O>(s: Executor<O>, outs: seq<O>, uuid: string)
    requires Inv(s) && s.held.None? && |outs| == |s.added| - s.picked
    ensures var i, reply := FirstOf(s.list, uuid), Get(WorkAll(s, outs), uuid).1;
            if i == |s.list| then reply == NotFound
            else if !s.list[i].known then reply == Retry
            else 0 <= Front(s) && reply == Result(if i < Front(s) then s.list[i].out else outs[i - Front(s)])
  {
    hide Ordered;
    hide Statuses;
    hide Resulted;
    hide Work;
    hide WorkAll;
    hide FirstOf;
    hide Front;
    var z, i := WorkAll(s, outs), FirstOf(s.list, uuid);
    RoundsFinish(s, outs);
    FrontIsIn(s);
    SameFirst(s.list, z.list, uuid);
    if i < |s.list| { StatusAfter(s, outs, z, i); }
  }

  lemma {:induction false} SameFirst<O>(a: seq<Entry<O>>, b: seq<Entry<O>>, uuid: string)
    requires |a| == |b| && forall i :: 0 <= i < |a| ==> a[i].uuid == b[i].uuid
    ensures FirstOf(a, uuid) == FirstOf(b, uuid)
  {
    hide FirstOf;
    var i, j := FirstOf(a, uuid), FirstOf(b, uuid);
    assert forall k :: 0 <= k < |a| ==> b[k].uuid == a[k].uuid;
  }

  lemma {:induction false} StatusAfter<O>(s: Executor<O>, outs: seq<O>, z: Executor<O>, i: nat)
    requires Inv(s) && Inv(z) && s.held.None? && Worked(s, outs, z) && i < |s.list| && |outs| == |s.added| - s.picked
    ensures z.list[i].known == s.list[i].known && (z.list[i].status == Over <==> s.list[i].known)
  {
    hide Ordered;
    hide Resulted;
    InvParts(z);
    FrontIsIn(z);
    assert StatusRight(z, z.list[i]);
  }
}
