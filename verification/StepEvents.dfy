/**
 The single-step scheduler (vmi_step_event and step_and_reg_events in
 lib/libvmi/libvmi/events.c): a work list of wrappers waiting for a number of single-step
 events on a vCPU, per-vCPU counters, and the table of vCPUs being stepped.

 A callback may queue further steps; what it queues is carried by the wrapper as a script.
 Driver calls fail at will.
 */
module StepEvents {
  import opened Common

  /** What happens when a wrapper is due: its event is registered again, or its callback runs
      and issues the given requests. */
  datatype Action = Reregister | Callback(requests: seq<Request>)

  /** The arguments of vmi_step_event. */
  datatype Request = Request(vcpu: nat, steps: nat, action: Action)

  /** step_and_reg_event_wrapper_t; `id` stands for the wrapper's address. */
  datatype Wrapper = Wrapper(id: nat, vcpu: nat, steps: nat, action: Action)

  /** Wrapper `id` fires at the `at`-th single-step event on `vcpu`, with that action. */
  datatype Firing = Firing(id: nat, vcpu: nat, at: nat, action: Action)

  /** A request that was granted, and how many single-step events its vCPU had seen by then. */
  datatype Asked = Asked(request: Request, seenThen: nat)

  /** What is owed to the id-th request: its action, at the event that many steps on. */
  function Owed(asked: seq<Asked>, id: nat): Firing
    requires id < |asked|
  {
    var r := asked[id].request;
    Firing(id, r.vcpu, asked[id].seenThen + r.steps, r.action)
  }

  /** MAX_SINGLESTEP_VCPUS: the length of the counter array and the width of the vCPU mask. */
  const MAX_VCPUS: nat := 32

  function CountFor(ws: seq<Wrapper>, v: nat): nat {
    if ws == [] then 0 else (if ws[0].vcpu == v then 1 else 0) + CountFor(ws[1..], v)
  }

  function Ids(ws: seq<Wrapper>): multiset<nat> {
    if ws == [] then multiset{} else multiset{ws[0].id} + Ids(ws[1..])
  }

  function FiredIds(fs: seq<Firing>): multiset<nat> {
    if fs == [] then multiset{} else FiredIds(fs[..|fs| - 1]) + multiset{fs[|fs| - 1].id}
  }

  /** A wrapper after a single-step event on `v`. */
  function Ticked(w: Wrapper, v: nat): Wrapper
    requires w.steps >= 1
  {
    if w.vcpu == v then w.(steps := w.steps - 1) else w
  }

  ghost predicate AllWaiting(ws: seq<Wrapper>) { forall w :: w in ws ==> w.steps >= 1 }

  /** What stays queued after a single-step event on `v`, in the same order. */
  function Survivors(ws: seq<Wrapper>, v: nat): seq<Wrapper>
    requires AllWaiting(ws)
  {
    if ws == [] then []
    else
      var w := Ticked(ws[0], v);
      (if w.steps == 0 then [] else [w]) + Survivors(ws[1..], v)
  }

  /** What fires, oldest first: requests are queued at the head of the list. */
  function Expired(ws: seq<Wrapper>, v: nat, at: nat): seq<Firing>
    requires AllWaiting(ws)
  {
    if ws == [] then []
    else
      Expired(ws[1..], v, at) +
      (if Ticked(ws[0], v).steps == 0 then [Firing(ws[0].id, ws[0].vcpu, at, ws[0].action)] else [])
  }

  lemma {:induction false} CountSplit(ws: seq<Wrapper>, xs: seq<Wrapper>, v: nat)
    ensures CountFor(ws + xs, v) == CountFor(ws, v) + CountFor(xs, v)
    ensures Ids(ws + xs) == Ids(ws) + Ids(xs)
  {
    if ws == [] {
      assert ws + xs == xs;
    } else {
      assert (ws + xs)[1..] == ws[1..] + xs;
      CountSplit(ws[1..], xs, v);
    }
  }

  lemma FiredIdsSnoc(fs: seq<Firing>, f: Firing)
    ensures FiredIds(fs + [f]) == FiredIds(fs) + multiset{f.id}
  {
    assert (fs + [f])[..|fs|] == fs;
  }

  // ---------------------------------------------------------------- state and invariant

  /** The scheduler's fields, and the history of a run. */
  datatype State = State(
    numVcpus: nat,
    stepEvents: seq<Wrapper>,
    stepVcpus: seq<nat>,      // one counter per id that the bound check lets through
    ssVcpus: set<nat>,        // keys of ss_events
    pendingClear: set<nat>,   // vCPUs whose single-step event is queued in clear_events
    issued: nat,              // wrappers allocated so far
    seen: seq<nat>,           // single-step events delivered, per vCPU
    asked: seq<Asked>,        // the request behind each wrapper, by id
    fired: seq<Firing>)       // what fired, in order

  ghost predicate Shape(s: State) {
    && |s.stepVcpus| == |s.seen| == s.numVcpus + 1 <= MAX_VCPUS && |s.asked| == s.issued
    && (forall v :: v in s.ssVcpus ==> v < s.numVcpus)
    && (forall v :: v in s.pendingClear ==> v in s.ssVcpus && s.stepVcpus[v] == 0)
    && (forall v :: 0 <= v < s.numVcpus && s.stepVcpus[v] > 0 ==> v in s.ssVcpus)
  }

  /** A promise still to be kept: `w.steps` more events on its vCPU. */
  ghost predicate OnSchedule(s: State, w: Wrapper) {
    && w.id < |s.asked| && w.vcpu < |s.seen|
    && Owed(s.asked, w.id) == Firing(w.id, w.vcpu, s.seen[w.vcpu] + w.steps, w.action)
  }

  ghost predicate QueueOnSchedule(s: State) {
    forall w :: w in s.stepEvents ==> w.steps >= 1 && OnSchedule(s, w)
  }

  /** A promise kept. */
  ghost predicate Kept(s: State, f: Firing) {
    && f.id < |s.asked| && f == Owed(s.asked, f.id)
    && f.vcpu < |s.seen| && f.at <= s.seen[f.vcpu]
  }

  ghost predicate LogOnSchedule(s: State) {
    forall i :: 0 <= i < |s.fired| ==> Kept(s, s.fired[i])
  }

  /** When the wrappers `held` are off the list for the time being: each counter is the number
      of wrappers for its vCPU, and every wrapper ever allocated is queued, held or fired,
      exactly once. */
  ghost predicate Balanced(s: State, held: seq<Wrapper>) {
    && (forall v :: 0 <= v < |s.stepVcpus| ==> s.stepVcpus[v] == CountFor(s.stepEvents, v) + CountFor(held, v))
    && Ids(s.stepEvents) + Ids(held) + FiredIds(s.fired) == UpTo(s.issued)
  }

  ghost predicate Consistent(s: State, held: seq<Wrapper>) {
    Shape(s) && QueueOnSchedule(s) && LogOnSchedule(s) && Balanced(s, held)
  }

  /** Schedules survive as long as no single-step event arrives and promises are only added. */
  lemma SameSchedule(s: State, s': State)
    requires s'.seen == s.seen && s.asked <= s'.asked
    ensures forall w :: OnSchedule(s, w) ==> OnSchedule(s', w)
    ensures forall f :: Kept(s, f) ==> Kept(s', f)
  {
  }

  /** The id-th request has been met, once, with its own action and at the event that many steps on,
      exactly when its vCPU has seen that event; until then its wrapper is queued, once. */
  ghost predicate Punctual(s: State, id: nat) {
    && id < |s.asked| && s.asked[id].request.vcpu < |s.seen|
    && var f := Owed(s.asked, id);
       && Ids(s.stepEvents)[id] == (if f.at <= s.seen[f.vcpu] then 0 else 1)
       && FiredIds(s.fired)[id] == (if f.at <= s.seen[f.vcpu] then 1 else 0)
       && (forall i :: 0 <= i < |s.fired| && s.fired[i].id == id ==> s.fired[i] == f)
  }

  lemma FiresOnSchedule(s: State, id: nat)
    requires Consistent(s, []) && id < s.issued
    ensures Punctual(s, id)
  {
    UpToOnce(s.issued, id);
    if id in Ids(s.stepEvents) {
      var w := WithId(s.stepEvents, id);
      assert OnSchedule(s, w);
    } else {
      assert id in FiredIds(s.fired);
      var i := FiredAt(s.fired, id);
      assert Kept(s, s.fired[i]);
    }
    forall i | 0 <= i < |s.fired| && s.fired[i].id == id ensures s.fired[i] == Owed(s.asked, id) {
      assert Kept(s, s.fired[i]);
    }
  }

  lemma {:induction false} WithId(ws: seq<Wrapper>, id: nat) returns (w: Wrapper)
    requires id in Ids(ws)
    ensures w in ws && w.id == id
  {
    if ws[0].id == id {
      w := ws[0];
    } else {
      w := WithId(ws[1..], id);
    }
  }

  lemma {:induction false} FiredAt(fs: seq<Firing>, id: nat) returns (i: nat)
    requires id in FiredIds(fs)
    ensures i < |fs| && fs[i].id == id
  {
    if fs[|fs| - 1].id == id {
      i := |fs| - 1;
    } else {
      i := FiredAt(fs[..|fs| - 1], id);
    }
  }

  // ---------------------------------------------------------------- vmi_step_event

  /** The checks of vmi_step_event. The bound admits `vcpu == numVcpus`. */
  predicate Admits(s: State, r: Request)
    requires |s.stepVcpus| == s.numVcpus + 1
  {
    && r.vcpu <= s.numVcpus && r.steps >= 1
    && (r.vcpu in s.ssVcpus ==> s.stepVcpus[r.vcpu] > 0)
  }

  function Enqueue(s: State, r: Request): State
    requires |s.stepVcpus| == |s.seen| == s.numVcpus + 1 && r.vcpu <= s.numVcpus
  {
    s.(stepEvents := [Wrapper(s.issued, r.vcpu, r.steps, r.action)] + s.stepEvents,
       stepVcpus := s.stepVcpus[r.vcpu := s.stepVcpus[r.vcpu] + 1],
       ssVcpus := if r.vcpu < s.numVcpus then s.ssVcpus + {r.vcpu} else s.ssVcpus,
       issued := s.issued + 1,
       asked := s.asked + [Asked(r, s.seen[r.vcpu])])
  }

  /** A callback issuing `rs` in order can lead from `s` to `end`: what is queued was admitted,
      and a request is refused only if it is not admitted or needs a single-step event that
      the driver may refuse. */
  ghost predicate Issues(s: State, rs: seq<Request>, end: State)
    decreases |rs|
  {
    if rs == [] then end == s
    else
      && |s.stepVcpus| == |s.seen| == s.numVcpus + 1
      && (|| (Admits(s, rs[0]) && Issues(Enqueue(s, rs[0]), rs[1..], end))
          || (!(Admits(s, rs[0]) && rs[0].vcpu in s.ssVcpus) && Issues(s, rs[1..], end)))
  }

  function RequestsOf(a: Action): seq<Request> { if a.Callback? then a.requests else [] }

  lemma EnqueueConsistent(s: State, held: seq<Wrapper>, r: Request)
    requires Consistent(s, held) && Admits(s, r)
    ensures Consistent(Enqueue(s, r), held)
  {
    hide CountFor, Ids, FiredIds, UpTo, OnSchedule, Kept;
    var s' := Enqueue(s, r);
    var w := s'.stepEvents[0];
    SameSchedule(s, s');
    NewOnSchedule(s, r);
    forall u ensures CountFor(s'.stepEvents, u) == (if r.vcpu == u then 1 else 0) + CountFor(s.stepEvents, u) {
      Cons(w, s.stepEvents, u);
    }
    Cons(w, s.stepEvents, 0);
    UpToNext(s.issued);
  }

  lemma NewOnSchedule(s: State, r: Request)
    requires Shape(s) && r.vcpu <= s.numVcpus
    ensures OnSchedule(Enqueue(s, r), Wrapper(s.issued, r.vcpu, r.steps, r.action))
  {
  }

  lemma Cons(w: Wrapper, ws: seq<Wrapper>, u: nat)
    ensures CountFor([w] + ws, u) == (if w.vcpu == u then 1 else 0) + CountFor(ws, u)
    ensures Ids([w] + ws) == multiset{w.id} + Ids(ws)
  {
    assert ([w] + ws)[1..] == ws;
  }

  /** The one way in which a positive counter can lack a single-step event: a step accepted for
      the id one past the last vCPU. */
  lemma UnsteppedOnlyPastLast(s: State)
    requires Consistent(s, [])
    ensures (forall v :: 0 <= v <= s.numVcpus && s.stepVcpus[v] > 0 ==> v in s.ssVcpus)
            <==> s.stepVcpus[s.numVcpus] == 0
  {
    assert s.numVcpus !in s.ssVcpus;
  }

  /** Such a step is accepted on a machine with one vCPU, and nothing will ever count it down. */
  lemma PastLastAccepted()
    ensures var s := State(1, [], [0, 0], {}, {}, 0, [0, 0], [], []);
            var r := Request(1, 1, Reregister);
            && Consistent(s, []) && Admits(s, r)
            && Enqueue(s, r).stepVcpus[1] == 1 && 1 !in Enqueue(s, r).ssVcpus
  {
    var s := State(1, [], [0, 0], {}, {}, 0, [0, 0], [], []);
    assert Balanced(s, []);
  }

  // ---------------------------------------------------------------- step_and_reg_events

  /** A single-step event on `v` arrives and the list is taken off. */
  function TakeList(s: State, v: nat): State
    requires v < |s.seen|
  {
    s.(stepEvents := [], seen := s.seen[v := s.seen[v] + 1])
  }

  /** The request is one of those that a firing from the `from`-th on issued. */
  ghost predicate IssuedBy(r: Request, fired: seq<Firing>, from: nat) {
    exists j :: from <= j < |fired| && r in RequestsOf(fired[j].action)
  }

  lemma IssuedMore(s0: State, asked: seq<Asked>, asked': seq<Asked>, fired: seq<Firing>, f: Firing)
    requires asked <= asked' && |s0.fired| <= |fired|
    requires forall k :: |s0.asked| <= k < |asked| ==> IssuedBy(asked[k].request, fired, |s0.fired|)
    requires forall k :: |asked| <= k < |asked'| ==> asked'[k].request in RequestsOf(f.action)
    ensures forall k :: |s0.asked| <= k < |asked'| ==> IssuedBy(asked'[k].request, fired + [f], |s0.fired|)
  {
    var fired' := fired + [f];
    forall k | |s0.asked| <= k < |asked'| ensures IssuedBy(asked'[k].request, fired', |s0.fired|) {
      if k < |asked| {
        assert IssuedBy(asked[k].request, fired, |s0.fired|);
        var j :| |s0.fired| <= j < |fired| && asked[k].request in RequestsOf(fired[j].action);
        assert fired'[j] == fired[j];
      } else {
        assert fired'[|fired|] == f;
      }
    }
  }

  /** The wrapper fires at the next single-step event on `v`. */
  predicate FallsDue(w: Wrapper, v: nat) { w.vcpu == v && w.steps == 1 }

  /** The loop has handled `ws[i..]` and kept `remain` of it. */
  ghost predicate Midway(s: State, ws: seq<Wrapper>, i: nat, v: nat, remain: seq<Wrapper>)
    requires i <= |ws|
  {
    && AllWaiting(ws) && Consistent(s, ws[..i] + remain)
    && remain == Survivors(ws[i..], v)
    && (forall w :: w in ws ==> OnSchedule(s, Ticked(w, v)))
  }

  lemma MidwayStart(s: State, v: nat)
    requires Consistent(s, []) && v < |s.seen|
    ensures Midway(TakeList(s, v), s.stepEvents, |s.stepEvents|, v, [])
  {
    hide CountFor, FiredIds, UpTo;
    var s' := TakeList(s, v);
    var ws := s.stepEvents;
    assert ws[..|ws|] + [] == ws;
    NoneHeld();
    forall w | w in ws ensures OnSchedule(s', Ticked(w, v)) {
      assert OnSchedule(s, w);
    }
    forall i | 0 <= i < |s'.fired| ensures Kept(s', s'.fired[i]) {
      assert Kept(s, s.fired[i]);
    }
  }

  lemma NoneHeld()
    ensures forall u :: CountFor([], u) == 0
    ensures Ids([]) == multiset{}
  {
  }

  /** Growing the list or the promises does not disturb what the loop holds. */
  lemma MidwayGrown(s: State, s': State, ws: seq<Wrapper>, i: nat, v: nat, remain: seq<Wrapper>)
    requires i <= |ws| && Midway(s, ws, i, v, remain)
    requires Consistent(s', ws[..i] + remain) && s'.seen == s.seen && s.asked <= s'.asked
    ensures Midway(s', ws, i, v, remain)
  {
    hide OnSchedule, Consistent;
    SameSchedule(s, s');
  }

  lemma HeldSplit(ws: seq<Wrapper>, i: nat, remain: seq<Wrapper>, u: nat)
    requires 0 < i <= |ws|
    ensures CountFor(ws[..i] + remain, u) ==
            CountFor(ws[..i - 1], u) + (if ws[i - 1].vcpu == u then 1 else 0) + CountFor(remain, u)
    ensures Ids(ws[..i] + remain) == Ids(ws[..i - 1]) + multiset{ws[i - 1].id} + Ids(remain)
  {
    assert ws[..i] == ws[..i - 1] + [ws[i - 1]];
    CountSplit(ws[..i], remain, u);
    CountSplit(ws[..i - 1], [ws[i - 1]], u);
  }

  /** A wrapper that is not due goes to the remainder, one step closer. */
  lemma MidwayKeep(s: State, ws: seq<Wrapper>, i: nat, v: nat, remain: seq<Wrapper>)
    requires 0 < i <= |ws| && Midway(s, ws, i, v, remain) && Ticked(ws[i - 1], v).steps > 0
    ensures Midway(s, ws, i - 1, v, [Ticked(ws[i - 1], v)] + remain)
  {
    hide CountFor, Ids, FiredIds, UpTo, OnSchedule, QueueOnSchedule, LogOnSchedule, Shape;
    var w := Ticked(ws[i - 1], v);
    var remain' := [w] + remain;
    assert ws[i - 1..] == [ws[i - 1]] + ws[i..];
    forall u ensures CountFor(ws[..i - 1] + remain', u) == CountFor(ws[..i] + remain, u) {
      KeptHeld(ws, i, remain, w, u);
    }
    KeptHeld(ws, i, remain, w, 0);
  }

  lemma KeptHeld(ws: seq<Wrapper>, i: nat, remain: seq<Wrapper>, w: Wrapper, u: nat)
    requires 0 < i <= |ws| && w.vcpu == ws[i - 1].vcpu && w.id == ws[i - 1].id
    ensures CountFor(ws[..i - 1] + ([w] + remain), u) == CountFor(ws[..i] + remain, u)
    ensures Ids(ws[..i - 1] + ([w] + remain)) == Ids(ws[..i] + remain)
  {
    HeldSplit(ws, i, remain, u);
    CountSplit(ws[..i - 1], [w] + remain, u);
    Cons(w, remain, u);
  }

  /** A due wrapper is counted off and logged. */
  function Fire(s: State, w: Wrapper): State
    requires w.vcpu < |s.stepVcpus| && w.vcpu < |s.seen| && s.stepVcpus[w.vcpu] > 0
  {
    s.(stepVcpus := s.stepVcpus[w.vcpu := s.stepVcpus[w.vcpu] - 1],
       fired := s.fired + [Firing(w.id, w.vcpu, s.seen[w.vcpu], w.action)])
  }

  /** Inside a callback, the single-step event is queued for clearing when nothing waits any more. */
  function AfterFiring(s: State, w: Wrapper): State
    requires w.vcpu < |s.stepVcpus| && w.vcpu < |s.seen| && s.stepVcpus[w.vcpu] > 0
  {
    var s' := Fire(s, w);
    if s'.stepVcpus[w.vcpu] == 0 then s'.(pendingClear := s'.pendingClear + {w.vcpu}) else s'
  }

  /** Firing `w` in state `s` issues its requests, which leads to `middle`. */
  ghost predicate Fires(s: State, w: Wrapper, middle: State) {
    && Issues(s, RequestsOf(w.action), middle)
    && w.vcpu < |middle.stepVcpus| && w.vcpu < |middle.seen| && middle.stepVcpus[w.vcpu] > 0
  }

  /** What the wrappers `ws[..i]` do at a single-step event on `v`, last first: those due fire, each in
      the state the ones before it left. */
  ghost predicate LoopRun(s: State, ws: seq<Wrapper>, i: nat, v: nat, end: State)
    requires i <= |ws|
    decreases i, 0
  {
    if i == 0 then end == s
    else if !FallsDue(ws[i - 1], v) then LoopRun(s, ws, i - 1, v, end)
    else FiringRun(s, ws[i - 1], ws, i - 1, v, end)
  }

  ghost predicate FiringRun(s: State, w: Wrapper, ws: seq<Wrapper>, i: nat, v: nat, end: State)
    requires i <= |ws|
    decreases i, 1
  {
    exists middle :: Fires(s, w, middle) && LoopRun(AfterFiring(middle, w), ws, i, v, end)
  }

  lemma LoopRunFires(s: State, ws: seq<Wrapper>, i: nat, v: nat, middle: State)
    requires 0 < i <= |ws| && FallsDue(ws[i - 1], v) && Fires(s, ws[i - 1], middle)
    ensures forall end :: LoopRun(AfterFiring(middle, ws[i - 1]), ws, i - 1, v, end) ==> LoopRun(s, ws, i, v, end)
  {
    hide Fires, AfterFiring;
  }

  lemma LoopRunDone(s: State, ws: seq<Wrapper>, v: nat)
    ensures LoopRun(s, ws, 0, v, s)
  {
  }

  lemma LoopRunKeeps(s: State, ws: seq<Wrapper>, i: nat, v: nat)
    requires 0 < i <= |ws| && !FallsDue(ws[i - 1], v)
    ensures forall end :: LoopRun(s, ws, i - 1, v, end) ==> LoopRun(s, ws, i, v, end)
  {
  }

  lemma MidwayFire(s: State, ws: seq<Wrapper>, i: nat, v: nat, remain: seq<Wrapper>)
    requires 0 < i <= |ws| && Midway(s, ws, i, v, remain) && Ticked(ws[i - 1], v).steps == 0
    ensures ws[i - 1].vcpu == v && v < |s.stepVcpus| && v < |s.seen| && s.stepVcpus[v] > 0
    ensures Midway(Fire(s, ws[i - 1]), ws, i - 1, v, remain)
  {
    hide CountFor, Ids, FiredIds, UpTo, Kept;
    var w := ws[i - 1];
    assert OnSchedule(s, Ticked(w, v));
    FiredHeld(ws, i, remain, v);
    var s' := Fire(s, w);
    SameSchedule(s, s');
    KeptNow(s, s', w);
    assert ws[i - 1..] == [w] + ws[i..];
    FiredIdsSnoc(s.fired, Firing(w.id, w.vcpu, s.seen[v], w.action));
    forall u
      ensures CountFor(ws[..i - 1] + remain, u) + (if u == v then 1 else 0) == CountFor(ws[..i] + remain, u)
    {
      FiredHeld(ws, i, remain, u);
    }
  }

  lemma KeptNow(s: State, s': State, w: Wrapper)
    requires w.steps >= 1 && OnSchedule(s, Ticked(w, w.vcpu)) && Ticked(w, w.vcpu).steps == 0
    requires s'.seen == s.seen && s'.asked == s.asked
    ensures Kept(s', Firing(w.id, w.vcpu, s.seen[w.vcpu], w.action))
  {
  }

  lemma FiredHeld(ws: seq<Wrapper>, i: nat, remain: seq<Wrapper>, u: nat)
    requires 0 < i <= |ws|
    ensures CountFor(ws[..i - 1] + remain, u) + (if ws[i - 1].vcpu == u then 1 else 0) ==
            CountFor(ws[..i] + remain, u)
    ensures Ids(ws[..i - 1] + remain) + multiset{ws[i - 1].id} == Ids(ws[..i] + remain)
  {
    HeldSplit(ws, i, remain, u);
    CountSplit(ws[..i - 1], remain, u);
  }

  /** The remainder goes back in front of what callbacks queued. */
  lemma MidwayEnd(s: State, ws: seq<Wrapper>, v: nat, remain: seq<Wrapper>)
    requires Midway(s, ws, 0, v, remain)
    ensures remain == Survivors(ws, v)
    ensures Consistent(s.(stepEvents := remain + s.stepEvents), [])
  {
    hide CountFor, Ids, FiredIds, UpTo, Kept, OnSchedule;
    assert ws[0..] == ws && ws[..0] + remain == remain;
    var s' := s.(stepEvents := remain + s.stepEvents);
    SameSchedule(s, s');
    NoneHeld();
    forall u ensures CountFor(s'.stepEvents, u) == CountFor(remain, u) + CountFor(s.stepEvents, u) {
      CountSplit(remain, s.stepEvents, u);
    }
    CountSplit(remain, s.stepEvents, 0);
    SurvivorsTicked(ws, v);
    forall x | x in s'.stepEvents ensures x.steps >= 1 && OnSchedule(s', x) {
      if x in remain {
        var w :| w in ws && x == Ticked(w, v);
      }
    }
  }

  lemma {:induction false} SurvivorsTicked(ws: seq<Wrapper>, v: nat)
    requires AllWaiting(ws)
    ensures forall x :: x in Survivors(ws, v) ==> x.steps >= 1 && exists w :: w in ws && x == Ticked(w, v)
  {
    if ws != [] {
      SurvivorsTicked(ws[1..], v);
      forall x | x in Survivors(ws, v) ensures x.steps >= 1 && exists w :: w in ws && x == Ticked(w, v) {
        if x in Survivors(ws[1..], v) {
          var w :| w in ws[1..] && x == Ticked(w, v);
          assert w in ws;
        } else {
          assert x == Ticked(ws[0], v) && ws[0] in ws;
        }
      }
    }
  }

  /** Dropping held wrappers leaves a counter above the number of queued wrappers. */
  lemma LostWrapper(s: State, ws: seq<Wrapper>, i: nat, remain: seq<Wrapper>)
    requires 0 < i <= |ws| && Balanced(s, ws[..i] + remain) && ws[i - 1].vcpu < |s.stepVcpus|
    ensures !Balanced(s, [])
  {
    hide Ids, FiredIds, UpTo;
    HeldSplit(ws, i, remain, ws[i - 1].vcpu);
  }

  lemma ExpiredStep(ws: seq<Wrapper>, i: nat, v: nat, at: nat)
    requires 0 < i <= |ws| && AllWaiting(ws)
    ensures Expired(ws[i - 1..], v, at) ==
            Expired(ws[i..], v, at) +
            if Ticked(ws[i - 1], v).steps == 0 then [Firing(ws[i - 1].id, ws[i - 1].vcpu, at, ws[i - 1].action)] else []
  {
    assert ws[i - 1..][1..] == ws[i..];
  }

  lemma ClearedConsistent(s: State, s': State, held: seq<Wrapper>, v: nat)
    requires Consistent(s, held) && v < |s.stepVcpus| && s.stepVcpus[v] == 0
    requires || (v in s.ssVcpus && s' == s.(pendingClear := s.pendingClear + {v}))
             || s' == s.(ssVcpus := s.ssVcpus - {v}, pendingClear := s.pendingClear - {v})
    ensures Consistent(s', held)
  {
    hide CountFor, Ids, FiredIds, UpTo;
    SameSchedule(s, s');
  }

  class Scheduler {
    const numVcpus: nat
    var eventCallback: bool
    var stepEvents: seq<Wrapper>
    var stepVcpus: seq<nat>
    var ssVcpus: set<nat>
    var pendingClear: set<nat>
    var issued: nat
    ghost var seen: seq<nat>
    ghost var asked: seq<Asked>
    ghost var fired: seq<Firing>

    ghost function View(): State
      reads this
    {
      State(numVcpus, stepEvents, stepVcpus, ssVcpus, pendingClear, issued, seen, asked, fired)
    }

    ghost predicate Valid()
      reads this
    {
      Consistent(View(), [])
    }

    /** Fewer vCPUs than counters, because the bound check lets one id more through. */
    constructor (numVcpus: nat)
      requires numVcpus < MAX_VCPUS
      ensures Valid() && this.numVcpus == numVcpus && issued == 0 && fired == [] && asked == [] && !eventCallback
    {
      this.numVcpus := numVcpus;
      eventCallback, stepEvents, ssVcpus, pendingClear := false, [], {}, {};
      stepVcpus, seen := seq(numVcpus + 1, _ => 0), seq(numVcpus + 1, _ => 0);
      issued, asked, fired := 0, [], [];
    }

    /** A driver call: may refuse. */
    method Driver() returns (ok: bool) {
      ok := *;
    }

    /** vmi_step_event, also while `held` wrappers are off the list; `started` is the driver's answer
        when a single-step event has to be registered. */
    method StepEvent(r: Request, started: bool, ghost held: seq<Wrapper>) returns (ok: bool)
      requires Consistent(View(), held)
      modifies this
      ensures eventCallback == old(eventCallback) && Consistent(View(), held)
      ensures ok <==> && r.vcpu <= numVcpus && r.steps >= 1
                      && if r.vcpu in old(ssVcpus) then old(stepVcpus)[r.vcpu] > 0 else started
      ensures !ok ==> View() == old(View())
      ensures ok ==> && stepEvents == [Wrapper(old(issued), r.vcpu, r.steps, r.action)] + old(stepEvents)
                     && stepVcpus == old(stepVcpus)[r.vcpu := old(stepVcpus)[r.vcpu] + 1]
                     && ssVcpus == old(ssVcpus) + (if r.vcpu < numVcpus then {r.vcpu} else {})
                     && issued == old(issued) + 1 && asked == old(asked) + [Asked(r, old(seen)[r.vcpu])]
                     && pendingClear == old(pendingClear) && seen == old(seen) && fired == old(fired)
    {
      hide Balanced, QueueOnSchedule, LogOnSchedule;
      ghost var s := View();
      if r.vcpu > numVcpus {
        return false;
      }
      var needNewSs := true;
      if r.vcpu in ssVcpus {
        if stepVcpus[r.vcpu] == 0 {
          return false;
        }
        needNewSs := false;
      }
      if r.steps == 0 {
        return false;
      }
      if needNewSs {
        if !started {
          return false;
        }
        if r.vcpu < numVcpus {
          ssVcpus := ssVcpus + {r.vcpu};
        }
      }
      stepEvents := [Wrapper(issued, r.vcpu, r.steps, r.action)] + stepEvents;
      asked := asked + [Asked(r, seen[r.vcpu])];
      issued := issued + 1;
      stepVcpus := stepVcpus[r.vcpu := stepVcpus[r.vcpu] + 1];
      assert s.ssVcpus + {r.vcpu} == ssVcpus || r.vcpu >= numVcpus;
      EnqueueConsistent(s, held, r);
      return true;
    }

    /** What a callback's requests can change: wrappers are added, nothing is taken away. */
    ghost predicate Grown(s: State)
      reads this
    {
      && numVcpus == s.numVcpus && pendingClear == s.pendingClear && seen == s.seen && fired == s.fired
      && s.asked <= asked && s.issued <= issued
      && (forall w :: w in stepEvents ==> w in s.stepEvents || w.id >= s.issued)
      && |stepVcpus| == |s.stepVcpus|
      && (forall v :: 0 <= v < |stepVcpus| ==> s.stepVcpus[v] <= stepVcpus[v])
    }

    /** A callback issues its requests; those that are refused leave no trace. */
    method RunCallback(requests: seq<Request>, ghost held: seq<Wrapper>)
      requires Consistent(View(), held)
      modifies this
      ensures eventCallback == old(eventCallback)
      ensures Consistent(View(), held) && Grown(old(View()))
      ensures Issues(old(View()), requests, View())
      ensures forall k :: |old(asked)| <= k < |asked| ==> asked[k].request in requests
    {
      hide Balanced, QueueOnSchedule, LogOnSchedule;
      ghost var s := View();
      for i := 0 to |requests|
        invariant eventCallback == old(eventCallback)
        invariant Consistent(View(), held) && Grown(s)
        invariant forall end :: Issues(View(), requests[i..], end) ==> Issues(s, requests, end)
        invariant forall k :: |s.asked| <= k < |asked| ==> asked[k].request in requests
      {
        assert requests[i..][1..] == requests[i + 1..];
        ghost var before := View();
        var started := Driver();
        var granted := StepEvent(requests[i], started, held);
        if granted {
          assert ssVcpus == Enqueue(before, requests[i]).ssVcpus;
          assert View() == Enqueue(before, requests[i]);
        }
      }
    }

    /** vmi_clear_event on the internal single-step event of `v`: queued while a callback runs,
        else stopped at once; a driver that refuses (`stopped`) leaves the event registered. */
    method ClearSingleStep(v: nat, stopped: bool, ghost held: seq<Wrapper>) returns (ok: bool)
      requires Consistent(View(), held) && v in ssVcpus && stepVcpus[v] == 0
      modifies this`ssVcpus, this`pendingClear
      ensures Consistent(View(), held)
      ensures if eventCallback
              then && ssVcpus == old(ssVcpus) && pendingClear == old(pendingClear) + {v}
                   && (ok <==> v !in old(pendingClear))
              else && pendingClear == old(pendingClear) - {v} && ok == stopped
                   && ssVcpus == if ok then old(ssVcpus) - {v} else old(ssVcpus)
    {
      hide Balanced, QueueOnSchedule, LogOnSchedule;
      ghost var s := View();
      if eventCallback {
        ok := v !in pendingClear;
        pendingClear := pendingClear + {v};
        ClearedConsistent(s, View(), held, v);
        return;
      }
      pendingClear := pendingClear - {v};
      ok := stopped;
      if ok {
        ssVcpus := ssVcpus - {v};
        ClearedConsistent(s, View(), held, v);
      } else {
        UnqueuedConsistent(s, View(), held, v);
      }
    }

    /** The driver drains clear_events once no callback is running; `stops` are its answers. Exactly
        the queued vCPUs that it stops are no longer stepped. */
    method ProcessClears(stops: nat -> bool)
      requires Valid() && !eventCallback
      modifies this`ssVcpus, this`pendingClear
      ensures Valid() && pendingClear == {}
      ensures forall v :: v in ssVcpus <==> v in old(ssVcpus) && !(v in old(pendingClear) && stops(v))
    {
      hide Balanced, QueueOnSchedule, LogOnSchedule;
      while pendingClear != {}
        invariant Valid() && !eventCallback && pendingClear <= old(pendingClear)
        invariant forall v :: v in ssVcpus <==>
                    v in old(ssVcpus) && !(v in old(pendingClear) && v !in pendingClear && stops(v))
        decreases pendingClear
      {
        var v :| v in pendingClear;
        var _ := ClearSingleStep(v, stops(v), []);
      }
    }

    /** What the loop does with a due wrapper: run its action, count it off, and drop the
        single-step event of `v` when nothing else waits for it. */
    method FireDue(w: Wrapper, registered: bool, ghost ws: seq<Wrapper>, ghost i: nat, v: nat,
                   ghost remain: seq<Wrapper>)
      returns (ok: bool, cleared: bool, ghost middle: State)
      requires 0 < i <= |ws| && Midway(View(), ws, i, v, remain) && v in ssVcpus
      requires w == Ticked(ws[i - 1], v) && w.steps == 0
      modifies this
      ensures eventCallback == old(eventCallback)
      ensures !ok ==> !Balanced(View(), [])
      ensures ok ==> Midway(View(), ws, i - 1, v, remain)
      ensures ok ==> && seen == old(seen) && old(asked) <= asked && old(issued) <= issued
                     && v < |seen| && fired == old(fired) + [Firing(w.id, w.vcpu, seen[v], w.action)]
                     && (forall x :: x in stepEvents ==> x in old(stepEvents) || x.id >= old(issued))
                     && v < |stepVcpus| && (cleared <==> stepVcpus[v] == 0) && (!cleared ==> v in ssVcpus)
      ensures ok && eventCallback ==> pendingClear == old(pendingClear) + if cleared then {v} else {}
      ensures ok <==> w.action.Callback? || registered
      ensures ok ==> Fires(old(View()), ws[i - 1], middle)
      ensures ok && eventCallback ==> View() == AfterFiring(middle, ws[i - 1])
      ensures ok ==> && Issues(old(View()), RequestsOf(w.action), middle)
                     && stepEvents == middle.stepEvents && asked == middle.asked
                     && (forall k :: |old(asked)| <= k < |asked| ==> asked[k].request in RequestsOf(w.action))
                     && v < |middle.stepVcpus| && middle.stepVcpus[v] > 0
                     && stepVcpus == middle.stepVcpus[v := middle.stepVcpus[v] - 1]
    {
      hide Balanced, QueueOnSchedule, LogOnSchedule, Survivors, OnSchedule, Kept, Enqueue;
      ghost var s := View();
      StillCounted(s, ws, i, v, remain);
      match w.action {
        case Callback(requests) =>
          RunCallback(requests, ws[..i] + remain);
          MidwayGrown(s, View(), ws, i, v, remain);
        case Reregister =>
          if !registered {
            LostWrapper(View(), ws, i, remain);
            return false, false, s;
          }
      }
      middle := View();
      MidwayFire(middle, ws, i, v, remain);
      stepVcpus := stepVcpus[v := stepVcpus[v] - 1];
      fired := fired + [Firing(w.id, v, seen[v], w.action)];
      assert View() == Fire(middle, ws[i - 1]);
      cleared := stepVcpus[v] == 0;
      if cleared {
        ghost var s2 := View();
        var stopped := Driver();
        var _ := ClearSingleStep(v, stopped, ws[..i - 1] + remain);
        MidwayGrown(s2, View(), ws, i - 1, v, remain);
      }
      ok := true;
    }

    /** step_and_reg_events, called for a single-step event on `v`. The list is walked from its
        tail, as the source does over its reversed copy. `answers` are the driver's answers to the
        re-registrations, by wrapper. A refused one returns early and drops every wrapper not yet
        put back; that is the one way to unbalance the counters. */
    method StepAndRegEvents(v: nat, answers: nat -> bool) returns (ok: bool, ghost end: State)
      requires Valid() && v in ssVcpus
      modifies this
      ensures eventCallback == old(eventCallback)
      ensures ok <==> Balanced(View(), [])
      ensures ok ==> Valid() && AllWaiting(old(stepEvents))
      ensures ok ==> && seen == old(seen)[v := old(seen)[v] + 1] && old(asked) <= asked
                     && fired == old(fired) + Expired(old(stepEvents), v, old(seen)[v] + 1)
      ensures ok ==> && Survivors(old(stepEvents), v) <= stepEvents
                     && forall w :: w in stepEvents[|Survivors(old(stepEvents), v)|..] ==> w.id >= old(issued)
      ensures ok && eventCallback ==>
                && v < |old(seen)|
                && LoopRun(TakeList(old(View()), v), old(stepEvents), |old(stepEvents)|, v, end)
                && View() == end.(stepEvents := Survivors(old(stepEvents), v) + end.stepEvents)
      ensures ok ==> forall k :: |old(asked)| <= k < |asked| ==> IssuedBy(asked[k].request, fired, |old(fired)|)
      ensures ok <==> forall w :: w in old(stepEvents) && FallsDue(w, v) && w.action.Reregister? ==> answers(w.id)
      ensures ok && eventCallback ==>
                var due := Expired(old(stepEvents), v, old(seen)[v] + 1);
                pendingClear == old(pendingClear) + if due != [] && stepVcpus[v] == 0 then {v} else {}
    {
      hide Balanced, QueueOnSchedule, LogOnSchedule, Expired, Survivors, OnSchedule, Kept, IssuedBy, RequestsOf,
           LoopRun, Fires, AfterFiring, Midway;
      ghost var s0 := View();
      var ws := stepEvents;
      AllQueuedWait(s0);
      stepEvents, seen := [], seen[v := seen[v] + 1];
      MidwayStart(s0, v);
      ExpiredNone(ws, v, seen[v]);
      var remain := [];
      var stepping := true;
      var i := |ws|;
      while i > 0
        invariant 0 <= i <= |ws| && eventCallback == old(eventCallback) && v < |stepVcpus|
        invariant Midway(View(), ws, i, v, remain)
        invariant seen == s0.seen[v := s0.seen[v] + 1] && s0.asked <= asked && s0.issued <= issued
        invariant fired == s0.fired + Expired(ws[i..], v, seen[v])
        invariant !stepping ==> stepVcpus[v] == 0 && Expired(ws[i..], v, seen[v]) != []
        invariant stepping ==> v in ssVcpus && (Expired(ws[i..], v, seen[v]) != [] ==> stepVcpus[v] > 0)
        invariant eventCallback ==> pendingClear == s0.pendingClear + if stepping then {} else {v}
        invariant forall w :: w in stepEvents ==> w.id >= s0.issued
        invariant forall k :: |s0.asked| <= k < |asked| ==> IssuedBy(asked[k].request, fired, |s0.fired|)
        invariant eventCallback ==>
                    forall e :: LoopRun(View(), ws, i, v, e) ==> LoopRun(TakeList(s0, v), ws, |ws|, v, e)
        invariant forall k :: i <= k < |ws| && FallsDue(ws[k], v) && ws[k].action.Reregister? ==> answers(ws[k].id)
      {
        ghost var s := View();
        var w := ws[i - 1];
        assert w in ws;
        StillCounted(s, ws, i, v, remain);
        ExpiredStep(ws, i, v, seen[v]);
        if stepping && w.vcpu == v {
          w := w.(steps := w.steps - 1);
        }
        if w.steps == 0 {
          ghost var asked0, fired0 := asked, fired;
          var fine, cleared, middle := FireDue(w, answers(w.id), ws, i, v, remain);
          if !fine {
            return false, s;
          }
          LoopRunFires(s, ws, i, v, middle);
          IssuedMore(s0, asked0, asked, fired0, fired[|fired0|]);
          if cleared {
            stepping := false;
          }
        } else {
          MidwayKeep(s, ws, i, v, remain);
          LoopRunKeeps(s, ws, i, v);
          remain := [w] + remain;
        }
        i := i - 1;
      }
      MidwayEnd(View(), ws, v, remain);
      assert ws[0..] == ws;
      end := View();
      LoopRunDone(end, ws, v);
      stepEvents := remain + stepEvents;
      ok := true;
    }
  }

  lemma UnqueuedConsistent(s: State, s': State, held: seq<Wrapper>, v: nat)
    requires Consistent(s, held) && s' == s.(pendingClear := s.pendingClear - {v})
    ensures Consistent(s', held)
  {
    hide CountFor, Ids, FiredIds, UpTo;
    SameSchedule(s, s');
  }

  lemma AllQueuedWait(s: State)
    requires QueueOnSchedule(s)
    ensures AllWaiting(s.stepEvents)
  {
  }

  lemma ExpiredNone(ws: seq<Wrapper>, v: nat, at: nat)
    requires AllWaiting(ws)
    ensures Expired(ws[|ws|..], v, at) == [] && Survivors(ws[|ws|..], v) == []
  {
  }

  /** While a wrapper of `v` is held, the counter of `v` is positive. */
  lemma StillCounted(s: State, ws: seq<Wrapper>, i: nat, v: nat, remain: seq<Wrapper>)
    requires 0 < i <= |ws| && Midway(s, ws, i, v, remain)
    ensures ws[i - 1].vcpu < |s.stepVcpus| && ws[i - 1].steps >= 1
    ensures ws[i - 1].vcpu == v ==> s.stepVcpus[v] > 0
  {
    hide Ids, FiredIds, UpTo, CountFor;
    assert OnSchedule(s, Ticked(ws[i - 1], v));
    HeldSplit(ws, i, remain, ws[i - 1].vcpu);
  }

  // ---------------------------------------------------------------- runs

  /** What can happen to the scheduler from outside: a request, a single-step event on a vCPU that
      is being stepped, or the driver draining the queue of clears. */
  datatype Op = Ask(request: Request, started: bool) | Deliver(vcpu: nat) | Drain(stops: nat -> bool)

  /** A request came from outside, or a callback that ran issued it. */
  ghost predicate Sourced(r: Request, ops: seq<Op>, fired: seq<Firing>) {
    (exists i :: 0 <= i < |ops| && ops[i].Ask? && ops[i].request == r) || IssuedBy(r, fired, 0)
  }

  lemma FromOutside(ops: seq<Op>, i: nat, fired: seq<Firing>)
    requires i < |ops| && ops[i].Ask?
    ensures Sourced(ops[i].request, ops, fired)
  {
  }

  lemma SourcedStill(asked: seq<Asked>, asked': seq<Asked>, ops: seq<Op>, fired: seq<Firing>, fired': seq<Firing>)
    requires asked <= asked' && fired <= fired'
    requires forall id :: 0 <= id < |asked| ==> Sourced(asked[id].request, ops, fired)
    requires forall k :: |asked| <= k < |asked'| ==> IssuedBy(asked'[k].request, fired', |fired|)
    ensures forall id :: 0 <= id < |asked'| ==> Sourced(asked'[id].request, ops, fired')
  {
    forall id | 0 <= id < |asked'| ensures Sourced(asked'[id].request, ops, fired') {
      if id < |asked| {
        assert Sourced(asked[id].request, ops, fired);
        if IssuedBy(asked[id].request, fired, 0) {
          var j :| 0 <= j < |fired| && asked[id].request in RequestsOf(fired[j].action);
          assert fired'[j] == fired[j];
        }
      } else {
        assert IssuedBy(asked'[id].request, fired', |fired|);
      }
    }
  }

  /** Any run from an empty scheduler, up to a failed re-registration: the counters match the queue,
      every positive counter of a vCPU has its single-step event, and every wrapper ever queued
      fires once, at the asked event. */
  method Run(numVcpus: nat, ops: seq<Op>, answers: nat -> bool) returns (s: Scheduler, ok: bool)
    requires numVcpus < MAX_VCPUS
    ensures ok <==> Balanced(s.View(), [])
    ensures !ok ==> exists id: nat :: !answers(id)
    ensures ok ==> s.Valid() && forall id :: 0 <= id < s.issued ==> Punctual(s.View(), id)
    ensures ok ==> |s.asked| == s.issued
    ensures ok ==> forall id :: 0 <= id < |s.asked| ==> Sourced(s.asked[id].request, ops, s.fired)
  {
    hide Punctual, QueueOnSchedule, LogOnSchedule, Balanced, Sourced, IssuedBy;
    s := new Scheduler(numVcpus);
    for i := 0 to |ops|
      invariant s.Valid() && !s.eventCallback && fresh(s)
      invariant forall id :: 0 <= id < |s.asked| ==> Sourced(s.asked[id].request, ops, s.fired)
    {
      ghost var before := s.View();
      match ops[i]
      case Ask(r, started) =>
        FromOutside(ops, i, s.fired);
        var _ := s.StepEvent(r, started, []);
      case Deliver(v) =>
        if v in s.ssVcpus {
          s.eventCallback := true;
          var fine, _ := s.StepAndRegEvents(v, answers);
          if !fine {
            return s, false;
          }
          s.eventCallback := false;
          SourcedStill(before.asked, s.asked, ops, before.fired, s.fired);
        }
      case Drain(stops) =>
        s.ProcessClears(stops);
    }
    forall id | 0 <= id < s.issued ensures Punctual(s.View(), id) {
      FiresOnSchedule(s.View(), id);
    }
    ok := true;
  }
}
