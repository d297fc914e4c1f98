/** `_withCreateLock` of src/modules/timeoff/timeoff.service.js as a small-step system. Callers are
    numbered in arrival order. Each holds a gate and the promise it found in the lock map; the
    promise a caller leaves there is settled when both are. */
module CreateLanes {
  import opened Wrappers

  datatype Phase = Waiting | Running | Finished

  datatype Caller = Caller(key: string, previous: Option<nat>, phase: Phase)

  /** `tails` is the lock map: the last promise of each key, named by the caller that left it. */
  datatype Lanes = Lanes(callers: seq<Caller>, tails: map<string, nat>)

  const NO_LANES := Lanes([], map[])

  /** Whether caller `i`'s promise `previous.then(() => gate)` is settled. */
  predicate Settled(cs: seq<Caller>, i: nat)
    decreases i
  {
    && i < |cs|
    && cs[i].phase == Finished
    && (cs[i].previous.Some? ==> cs[i].previous.value < i && Settled(cs, cs[i].previous.value))
  }

  /** A caller arrives; one whose predecessor is settled begins its body; a body ends, by return or by
      throwing: the `finally` clause treats both alike. */
  datatype Step = Enter(key: string) | Start(i: nat) | Finish(i: nat)

  predicate Enabled(s: Lanes, a: Step) {
    match a
    case Enter(_) => true
    case Start(i) =>
      && i < |s.callers| && s.callers[i].phase == Waiting
      && (s.callers[i].previous.Some? ==> Settled(s.callers, s.callers[i].previous.value))
    case Finish(i) => i < |s.callers| && s.callers[i].phase == Running
  }

  function SetPhase(cs: seq<Caller>, i: nat, p: Phase): seq<Caller>
    requires i < |cs|
  {
    cs[i := cs[i].(phase := p)]
  }

  function Do(s: Lanes, a: Step): Lanes
    requires Enabled(s, a)
  {
    match a
    case Enter(key) =>
      var previous := if key in s.tails then Some(s.tails[key]) else None;
      Lanes(s.callers + [Caller(key, previous, Waiting)], s.tails[key := |s.callers|])
    case Start(i) => s.(callers := SetPhase(s.callers, i, Running))
    case Finish(i) =>
      var key := s.callers[i].key;
      Lanes(SetPhase(s.callers, i, Finished),
            if key in s.tails && s.tails[key] == i then s.tails - {key} else s.tails)
  }

  ghost predicate Executes(s: Lanes, steps: seq<Step>, end: Lanes)
    decreases |steps|
  {
    if steps == [] then s == end
    else Enabled(s, steps[0]) && Executes(Do(s, steps[0]), steps[1..], end)
  }

  // ---- What every schedule keeps ---------------------------------------------------------------

  ghost predicate SameKey(cs: seq<Caller>, i: nat, j: nat) {
    i < |cs| && j < |cs| && cs[i].key == cs[j].key
  }

  /** Arrival order: whoever has begun finds every earlier caller of its key finished. */
  ghost predicate Fifo(cs: seq<Caller>) {
    forall i: nat, j: nat :: i < j && SameKey(cs, i, j) && cs[j].phase != Waiting ==> cs[i].phase == Finished
  }

  ghost predicate IsLast(cs: seq<Caller>, key: string, i: nat) {
    && i < |cs| && cs[i].key == key
    && forall j: nat :: i < j < |cs| ==> cs[j].key != key
  }

  /** What a caller found on arrival: its immediate predecessor, or nobody unfinished. */
  ghost predicate Linked(cs: seq<Caller>, i: nat)
    requires i < |cs|
  {
    match cs[i].previous
    case Some(p) => p < i && IsLast(cs[..i], cs[i].key, p)
    case None => forall j: nat :: j < i && cs[j].key == cs[i].key ==> cs[j].phase == Finished
  }

  ghost predicate TailsRight(s: Lanes) {
    && (forall k :: k in s.tails ==> IsLast(s.callers, k, s.tails[k]) && s.callers[s.tails[k]].phase != Finished)
    && (forall i: nat :: i < |s.callers| && s.callers[i].phase != Finished ==> s.callers[i].key in s.tails)
  }

  ghost predicate Inv(s: Lanes) {
    && Fifo(s.callers)
    && (forall i: nat :: i < |s.callers| ==> Linked(s.callers, i))
    && TailsRight(s)
  }

  lemma EnterKeepsInv(s: Lanes, key: string)
    requires Inv(s)
    ensures Inv(Do(s, Enter(key)))
  {
    var s' := Do(s, Enter(key));
    var n := |s.callers|;
    forall i: nat | i < |s'.callers|
      ensures Linked(s'.callers, i)
    {
      assert s'.callers[..i] == if i == n then s.callers else s.callers[..i];
      if i < n {
        assert Linked(s.callers, i);
      }
    }
  }

  lemma StartKeepsInv(s: Lanes, i: nat)
    requires Inv(s) && Enabled(s, Start(i))
    ensures Inv(Do(s, Start(i)))
  {
    var cs, cs' := s.callers, Do(s, Start(i)).callers;
    StartingIsFirst(s, i);
    PhaseOnly(cs, i, Running);
  }

  lemma StartingIsFirst(s: Lanes, i: nat)
    requires Inv(s) && Enabled(s, Start(i))
    ensures forall j: nat :: j < i && s.callers[j].key == s.callers[i].key ==> s.callers[j].phase == Finished
  {
    var cs := s.callers;
    assert Linked(cs, i);
    match cs[i].previous
    case None =>
    case Some(p) =>
      forall j: nat | j < i && cs[j].key == cs[i].key
        ensures cs[j].phase == Finished
      {
        assert j <= p by {
          assert cs[..i][j] == cs[j];
        }
        assert SameKey(cs, j, p);
      }
  }

  /** Changing a phase forward leaves every link intact. */
  lemma PhaseOnly(cs: seq<Caller>, i: nat, p: Phase)
    requires i < |cs| && forall j: nat :: j < |cs| ==> Linked(cs, j)
    requires cs[i].phase != Finished
    ensures forall j: nat :: j < |cs| ==> Linked(SetPhase(cs, i, p), j)
  {
    var cs' := SetPhase(cs, i, p);
    forall j: nat | j < |cs|
      ensures Linked(cs', j)
    {
      assert Linked(cs, j);
      forall k: nat | k < j
        ensures cs'[..j][k].key == cs[..j][k].key
      {
      }
    }
  }

  lemma FinishKeepsInv(s: Lanes, i: nat)
    requires Inv(s) && Enabled(s, Finish(i))
    ensures Inv(Do(s, Finish(i)))
  {
    var cs := s.callers;
    var s' := Do(s, Finish(i));
    PhaseOnly(cs, i, Finished);
    var key := cs[i].key;
    assert key in s.tails;
    var t := s.tails[key];
    assert SameKey(cs, i, t);
  }

  lemma StepKeepsInv(s: Lanes, a: Step)
    requires Inv(s) && Enabled(s, a)
    ensures Inv(Do(s, a))
  {
    match a
    case Enter(key) => EnterKeepsInv(s, key);
    case Start(i) => StartKeepsInv(s, i);
    case Finish(i) => FinishKeepsInv(s, i);
  }

  lemma {:induction false} AllSchedulesKeepInv(s: Lanes, steps: seq<Step>, end: Lanes)
    requires Inv(s) && Executes(s, steps, end)
    ensures Inv(end)
    decreases |steps|
  {
    if steps != [] {
      StepKeepsInv(s, steps[0]);
      AllSchedulesKeepInv(Do(s, steps[0]), steps[1..], end);
    }
  }

  /** Mutual exclusion and order: on every schedule, at most one body of a key runs at a time, and a
      body begins only after all earlier callers of its key are done. */
  lemma OneBodyPerKey(steps: seq<Step>, s: Lanes, i: nat, j: nat)
    requires Executes(NO_LANES, steps, s) && i < j < |s.callers| && s.callers[i].key == s.callers[j].key
    ensures !(s.callers[i].phase == Running && s.callers[j].phase == Running)
    ensures s.callers[j].phase != Waiting ==> s.callers[i].phase == Finished
  {
    AllSchedulesKeepInv(NO_LANES, steps, s);
    assert SameKey(s.callers, i, j);
  }

  /** The lock map holds a key exactly while some caller of it is unfinished. */
  lemma LockMapIsExact(steps: seq<Step>, s: Lanes, key: string)
    requires Executes(NO_LANES, steps, s)
    ensures key in s.tails <==> exists i: nat :: i < |s.callers| && s.callers[i].key == key && s.callers[i].phase != Finished
  {
    AllSchedulesKeepInv(NO_LANES, steps, s);
    if key in s.tails {
      assert s.callers[s.tails[key]].phase != Finished;
    }
  }

  // ---- Refinement of a queue per key -----------------------------------------------------------

  /** The abstract lane of a key: its unfinished callers in arrival order. */
  function Lane(cs: seq<Caller>, key: string): seq<nat>
    decreases |cs|
  {
    if cs == [] then []
    else
      var n := |cs| - 1;
      Lane(cs[..n], key) + (if cs[n].key == key && cs[n].phase != Finished then [n] else [])
  }

  lemma {:induction false} LaneUnchanged(cs: seq<Caller>, cs': seq<Caller>, key: string)
    requires |cs| == |cs'|
    requires forall i: nat :: i < |cs| ==>
               cs[i].key == cs'[i].key && (cs[i].key == key ==> (cs[i].phase == Finished <==> cs'[i].phase == Finished))
    ensures Lane(cs, key) == Lane(cs', key)
    decreases |cs|
  {
    if cs != [] {
      LaneUnchanged(cs[..|cs| - 1], cs'[..|cs| - 1], key);
    }
  }

  lemma {:induction false} EmptyLane(cs: seq<Caller>, key: string)
    requires forall i: nat :: i < |cs| && cs[i].key == key ==> cs[i].phase == Finished
    ensures Lane(cs, key) == []
    decreases |cs|
  {
    if cs != [] {
      EmptyLane(cs[..|cs| - 1], key);
    }
  }

  /** The first unfinished caller of a key heads its lane, and finishing it removes just the head. */
  lemma {:induction false} HeadOfLane(cs: seq<Caller>, i: nat)
    requires i < |cs| && cs[i].phase != Finished
    requires forall j: nat :: j < i && cs[j].key == cs[i].key ==> cs[j].phase == Finished
    ensures Lane(cs, cs[i].key) == [i] + Lane(SetPhase(cs, i, Finished), cs[i].key)
    decreases |cs|
  {
    var n := |cs| - 1;
    var cs' := SetPhase(cs, i, Finished);
    if i == n {
      EmptyLane(cs[..n], cs[i].key);
      assert cs'[..n] == cs[..n];
    } else {
      HeadOfLane(cs[..n], i);
      assert cs'[..n] == SetPhase(cs[..n], i, Finished);
    }
  }

  lemma RunningIsFirst(s: Lanes, i: nat)
    requires Inv(s) && Enabled(s, Finish(i))
    ensures forall j: nat :: j < i && s.callers[j].key == s.callers[i].key ==> s.callers[j].phase == Finished
  {
    forall j: nat | j < i && s.callers[j].key == s.callers[i].key
      ensures s.callers[j].phase == Finished
    {
      assert SameKey(s.callers, j, i);
    }
  }

  /** The promise chain behaves as one FIFO queue per key: an arrival joins the end of its own lane, only
      the head of a lane can begin or end, ending pops it, and other lanes are untouched. */
  lemma LanesAreQueues(s: Lanes, a: Step, key: string)
    requires Inv(s) && Enabled(s, a)
    ensures var before, after := Lane(s.callers, key), Lane(Do(s, a).callers, key);
            match a
            case Enter(k) => after == if k == key then before + [|s.callers|] else before
            case Start(i) => after == before && (s.callers[i].key == key ==> before != [] && before[0] == i)
            case Finish(i) => if s.callers[i].key == key then before == [i] + after else after == before
  {
    var cs, cs' := s.callers, Do(s, a).callers;
    match a
    case Enter(k) =>
      assert cs'[..|cs|] == cs;
    case Start(i) =>
      LaneUnchanged(cs, cs', key);
      if cs[i].key == key {
        StartingIsFirst(s, i);
        HeadOfLane(cs, i);
      }
    case Finish(i) =>
      RunningIsFirst(s, i);
      if cs[i].key == key {
        HeadOfLane(cs, i);
      } else {
        LaneUnchanged(cs, cs', key);
      }
  }

  lemma {:induction false} LaneMembers(cs: seq<Caller>, key: string)
    ensures forall i: nat :: i in Lane(cs, key) <==> (i < |cs| && cs[i].key == key && cs[i].phase != Finished)
    ensures forall x, y :: 0 <= x < y < |Lane(cs, key)| ==> Lane(cs, key)[x] < Lane(cs, key)[y]
    decreases |cs|
  {
    if cs != [] {
      var n := |cs| - 1;
      LaneMembers(cs[..n], key);
      var rest := Lane(cs[..n], key);
      assert forall i: nat :: i in rest <==> (i < n && cs[i].key == key && cs[i].phase != Finished);
      assert forall x :: 0 <= x < |rest| ==> rest[x] in rest;
    }
  }

  lemma HeadIsLeast(cs: seq<Caller>, key: string)
    requires Lane(cs, key) != []
    ensures var h := Lane(cs, key)[0];
            && h < |cs| && cs[h].key == key && cs[h].phase != Finished
            && forall j: nat :: j < h && cs[j].key == key ==> cs[j].phase == Finished
  {
    LaneMembers(cs, key);
    var lane := Lane(cs, key);
    assert lane[0] in lane;
    forall j: nat | j < lane[0] && cs[j].key == key
      ensures cs[j].phase == Finished
    {
      assert forall x :: 0 <= x < |lane| ==> lane[x] > j;
      assert j !in lane;
    }
  }

  lemma {:induction false} DoneChainSettles(s: Lanes, i: nat)
    requires Inv(s) && i < |s.callers|
    requires forall j: nat :: j <= i && s.callers[j].key == s.callers[i].key ==> s.callers[j].phase == Finished
    ensures Settled(s.callers, i)
    decreases i
  {
    assert Linked(s.callers, i);
    if s.callers[i].previous.Some? {
      assert s.callers[..i][s.callers[i].previous.value] == s.callers[s.callers[i].previous.value];
      DoneChainSettles(s, s.callers[i].previous.value);
    }
  }

  /** No schedule is ever stuck: the head of a non-empty lane can always begin or end its body. */
  lemma HeadCanProceed(steps: seq<Step>, s: Lanes, key: string)
    requires Executes(NO_LANES, steps, s) && key in s.tails
    ensures Lane(s.callers, key) != []
    ensures var h := Lane(s.callers, key)[0]; Enabled(s, Start(h)) || Enabled(s, Finish(h))
  {
    AllSchedulesKeepInv(NO_LANES, steps, s);
    LaneMembers(s.callers, key);
    assert s.tails[key] in Lane(s.callers, key);
    var cs := s.callers;
    var h := Lane(cs, key)[0];
    HeadIsLeast(cs, key);
    if cs[h].phase == Waiting && cs[h].previous.Some? {
      assert Linked(cs, h);
      assert cs[..h][cs[h].previous.value] == cs[cs[h].previous.value];
      DoneChainSettles(s, cs[h].previous.value);
    }
  }

  /** Steps still owed by the callers that have arrived. */
  function Work(cs: seq<Caller>): nat
    decreases |cs|
  {
    if cs == [] then 0
    else Work(cs[..|cs| - 1]) + (match cs[|cs| - 1].phase case Waiting => 2 case Running => 1 case Finished => 0)
  }

  lemma {:induction false} WorkUpdate(cs: seq<Caller>, i: nat, p: Phase)
    requires i < |cs| && ((cs[i].phase == Waiting && p == Running) || (cs[i].phase == Running && p == Finished))
    ensures Work(SetPhase(cs, i, p)) == Work(cs) - 1
    decreases |cs|
  {
    var n := |cs| - 1;
    if i == n {
      assert SetPhase(cs, i, p)[..n] == cs[..n];
    } else {
      WorkUpdate(cs[..n], i, p);
      assert SetPhase(cs, i, p)[..n] == SetPhase(cs[..n], i, p);
    }
  }

  lemma {:induction false} WorkIsZeroWhenAllDone(cs: seq<Caller>)
    ensures Work(cs) == 0 <==> forall i: nat :: i < |cs| ==> cs[i].phase == Finished
    decreases |cs|
  {
    if cs != [] {
      var n := |cs| - 1;
      WorkIsZeroWhenAllDone(cs[..n]);
      if forall i: nat :: i < n ==> cs[..n][i].phase == Finished {
        assert forall i: nat :: i < n ==> cs[i].phase == Finished;
      } else {
        var i: nat :| i < n && cs[..n][i].phase != Finished;
        assert cs[i].phase != Finished;
      }
    }
  }

  /** Every caller is served: without new arrivals a schedule takes exactly the owed number of steps, and
      one that can take no more has finished everybody and emptied the lock map. */
  lemma {:induction false} EverybodyIsServed(s: Lanes, steps: seq<Step>, end: Lanes)
    requires Inv(s) && Executes(s, steps, end) && forall i :: 0 <= i < |steps| ==> !steps[i].Enter?
    ensures |steps| + Work(end.callers) == Work(s.callers)
    ensures Work(end.callers) == 0 ==> end.tails == map[]
    decreases |steps|
  {
    if steps == [] {
      WorkIsZeroWhenAllDone(end.callers);
    } else {
      StepKeepsInv(s, steps[0]);
      match steps[0] {
        case Start(i) => WorkUpdate(s.callers, i, Running);
        case Finish(i) => WorkUpdate(s.callers, i, Finished);
      }
      EverybodyIsServed(Do(s, steps[0]), steps[1..], end);
    }
  }

  // ---- The lock map as the service holds it ----------------------------------------------------

  class CreateLocks {
    var createLocks: map<string, nat>
    var callers: seq<Caller>

    function Value(): Lanes reads this {
      Lanes(callers, createLocks)
    }

    constructor ()
      ensures Value() == NO_LANES
    {
      createLocks, callers := map[], [];
    }

    /** Up to `await previous`. */
    method Arrive(key: string) returns (ticket: nat)
      modifies this
      ensures Value() == Do(old(Value()), Enter(key)) && ticket == |old(callers)|
    {
      var previous := if key in createLocks then Some(createLocks[key]) else None;
      ticket := |callers|;
      callers := callers + [Caller(key, previous, Waiting)];
      createLocks := createLocks[key := ticket];
    }

    method BeginBody(ticket: nat)
      requires Enabled(Value(), Start(ticket))
      modifies this
      ensures Value() == Do(old(Value()), Start(ticket))
    {
      callers := SetPhase(callers, ticket, Running);
    }

    /** The `finally` clause: open the gate, and drop the map entry if nobody queued up behind. */
    method Release(ticket: nat)
      requires Enabled(Value(), Finish(ticket))
      modifies this
      ensures Value() == Do(old(Value()), Finish(ticket))
    {
      var lockKey := callers[ticket].key;
      callers := SetPhase(callers, ticket, Finished);
      if lockKey in createLocks && createLocks[lockKey] == ticket {
        createLocks := createLocks - {lockKey};
      }
    }
  }
}
