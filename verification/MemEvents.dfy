/**
 The registry of memory events (lib/libvmi/libvmi/events.c): one table keyed by guest frame and
 one keyed by access type, kept against what the hypervisor actually traps in one view. Driver
 calls fail at will, and clearing from inside a callback is deferred.
 */
module MemEvents {
  const ACCESS_INVALID: nat := 0
  const ACCESS_N: nat := 1
  const ANY_GFN: nat := 0xFFFF_FFFF_FFFF_FFFF

  datatype Event = Event(generic: bool, gfn: nat, access: nat)

  datatype State = State(
    onGfn: map<nat, Event>,      // mem_events_on_gfn
    generic: map<nat, Event>,    // mem_events_generic, by access
    traps: map<nat, nat>,        // what the hypervisor traps: frame to access
    pending: map<Event, bool>,   // clear_events: whether a free routine was given
    shuttingDown: bool)

  /** Every registered frame is trapped with the access asked for, unless none was asked for, and
      no other frame is trapped. */
  ghost predicate Synced(s: State) {
    && (forall g :: g in s.traps <==> g in s.onGfn && s.onGfn[g].access != ACCESS_N)
    && (forall g :: g in s.traps ==> s.traps[g] == s.onGfn[g].access)
  }

  /** Frame handlers and generic handlers are never both registered. */
  ghost predicate Exclusive(s: State) { s.onGfn == map[] || s.generic == map[] }

  ghost predicate Keyed(s: State) {
    && (forall g :: g in s.onGfn ==> s.onGfn[g].gfn == g && !s.onGfn[g].generic)
    && (forall a :: a in s.generic ==> s.generic[a].access == a && s.generic[a].generic)
  }

  ghost predicate Consistent(s: State) { Synced(s) && Exclusive(s) && Keyed(s) }

  /** The registered frames are the trapped frames exactly when no registered event asks for no
      access. */
  lemma FramesAreTraps(s: State)
    requires Consistent(s)
    ensures s.onGfn.Keys == s.traps.Keys <==> forall g :: g in s.onGfn ==> s.onGfn[g].access != ACCESS_N
  {
    if s.onGfn.Keys == s.traps.Keys {
      forall g | g in s.onGfn ensures s.onGfn[g].access != ACCESS_N {
        assert g in s.onGfn.Keys;
        assert g in s.traps.Keys;
      }
    } else {
      var g :| g in s.onGfn.Keys && g !in s.traps.Keys;
      assert s.onGfn[g].access == ACCESS_N;
    }
  }

  /** driver_set_mem_access, when it succeeds: setting no access stops trapping the frame. */
  function SetAccess(traps: map<nat, nat>, gfn: nat, access: nat): map<nat, nat> {
    if access == ACCESS_N then traps - {gfn} else traps[gfn := access]
  }

  /** register_mem_event; `driverOk` is the driver's answer, had it been asked. */
  function Register(s: State, e: Event, driverOk: bool): (State, bool) {
    if e.generic then
      if e.gfn != ANY_GFN || s.onGfn != map[] || e.access in s.generic then (s, false)
      else (s.(generic := s.generic[e.access := e]), true)
    else
      if e.access == ACCESS_INVALID || s.generic != map[] || e.gfn in s.onGfn || !driverOk then (s, false)
      else (s.(onGfn := s.onGfn[e.gfn := e], traps := SetAccess(s.traps, e.gfn, e.access)), true)
  }

  /** clear_mem_event */
  function Clear(s: State, e: Event, driverOk: bool): (State, bool) {
    if e.generic then (if s.shuttingDown then s else s.(generic := s.generic - {e.access}), true)
    else if !driverOk then (s, false)
    else
      var s' := s.(traps := SetAccess(s.traps, e.gfn, ACCESS_N));
      (if s.shuttingDown then s' else s'.(onGfn := s.onGfn - {e.gfn}), true)
  }

  lemma RegisterConsistent(s: State, e: Event, driverOk: bool)
    requires Consistent(s)
    ensures Consistent(Register(s, e, driverOk).0)
    ensures !Register(s, e, driverOk).1 ==> Register(s, e, driverOk).0 == s
  {
  }

  /** What a registration leaves: a refused one nothing, an accepted frame event exactly itself in the
      table and its own access trapped, and an accepted generic event exactly itself. */
  lemma RegisterEffect(s: State, e: Event, driverOk: bool)
    ensures var (s', ok) := Register(s, e, driverOk);
            && s'.pending == s.pending && s'.shuttingDown == s.shuttingDown
            && (!ok ==> s' == s)
            && (ok && !e.generic ==>
                  && driverOk && e.gfn in s'.onGfn && s'.onGfn[e.gfn] == e && s'.generic == s.generic
                  && (e.gfn in s'.traps <==> e.access != ACCESS_N)
                  && (e.gfn in s'.traps ==> s'.traps[e.gfn] == e.access)
                  && Elsewhere(s, s', e.gfn))
            && (ok && e.generic ==>
                  && s'.onGfn == s.onGfn && s'.traps == s.traps
                  && s'.generic.Keys == s.generic.Keys + {e.access} && s'.generic[e.access] == e
                  && forall a :: a in s.generic && a != e.access ==> s'.generic[a] == s.generic[a])
  {
  }

  /** No other frame's event or trap differs. */
  ghost predicate Elsewhere(s: State, s': State, gfn: nat) {
    forall g :: g != gfn ==>
      && (g in s'.onGfn <==> g in s.onGfn) && (g in s.onGfn ==> s'.onGfn[g] == s.onGfn[g])
      && (g in s'.traps <==> g in s.traps) && (g in s.traps ==> s'.traps[g] == s.traps[g])
  }

  /** What a clear leaves. With a willing driver the frame is no longer trapped and, outside shutdown,
      no longer in the table, everything else standing as before; a generic event needs no driver,
      and during shutdown the tables stay. */
  lemma ClearEffect(s: State, e: Event, driverOk: bool)
    ensures var (s', ok) := Clear(s, e, driverOk);
            && s'.pending == s.pending && s'.shuttingDown == s.shuttingDown
            && (ok <==> e.generic || driverOk) && (!ok ==> s' == s)
            && (s.shuttingDown ==> s'.onGfn == s.onGfn && s'.generic == s.generic)
            && (ok && !e.generic ==>
                  && e.gfn !in s'.traps && s'.generic == s.generic && Elsewhere(s, s', e.gfn)
                  && (!s.shuttingDown ==> e.gfn !in s'.onGfn))
            && (ok && e.generic ==> s'.onGfn == s.onGfn && s'.traps == s.traps)
            && (ok && e.generic && !s.shuttingDown ==>
                  && s'.generic.Keys == s.generic.Keys - {e.access}
                  && forall a :: a in s'.generic ==> s'.generic[a] == s.generic[a])
  {
  }

  /** A registration that the driver allows is refused only for a malformed event, a handler of
      the other kind, or one already in its place; and clearing it takes everything back. */
  lemma RegisterThenClear(s: State, e: Event)
    requires Consistent(s) && !s.shuttingDown
    ensures var (s', ok) := Register(s, e, true);
            && (ok <==> if e.generic then e.gfn == ANY_GFN && s.onGfn == map[] && e.access !in s.generic
                        else e.access != ACCESS_INVALID && s.generic == map[] && e.gfn !in s.onGfn)
            && (ok ==> && (if e.generic then e.access in s'.generic else e.gfn in s'.onGfn)
                       && Clear(s', e, true) == (s, true))
  {
    var (s', ok) := Register(s, e, true);
    if ok {
      var back := Clear(s', e, true).0;
      assert back.onGfn == s.onGfn && back.generic == s.generic && back.traps == s.traps;
    }
  }

  /** Clearing keeps the registry in step, except that during shutdown a trapped frame stays in
      the table. */
  lemma ClearConsistent(s: State, e: Event, driverOk: bool)
    requires Consistent(s)
    ensures Consistent(Clear(s, e, driverOk).0) <==>
            !(s.shuttingDown && !e.generic && driverOk && e.gfn in s.traps)
  {
    var s' := Clear(s, e, driverOk).0;
    if s.shuttingDown && !e.generic && driverOk && e.gfn in s.traps {
      assert e.gfn !in s'.traps && e.gfn in s'.onGfn;
    } else {
      assert Synced(s') && Exclusive(s') && Keyed(s');
    }
  }

  /** A request outside callbacks, with the driver's answer to it. */
  datatype Op = Reg(event: Event, driverOk: bool) | Clr(event: Event, driverOk: bool)

  function Apply(s: State, op: Op): State {
    match op
    case Reg(e, ok) => Register(s, e, ok).0
    case Clr(e, ok) => Clear(s, e, ok).0
  }

  function Run(s: State, ops: seq<Op>): State
    decreases |ops|
  {
    if ops == [] then s else Run(Apply(s, ops[0]), ops[1..])
  }

  /** Whatever is registered and cleared, and whatever the driver refuses, the two tables stay
      exclusive and the hypervisor traps exactly the registered frames that ask for access. */
  lemma {:induction false} RunConsistent(s: State, ops: seq<Op>)
    requires Consistent(s) && !s.shuttingDown
    ensures Consistent(Run(s, ops)) && !Run(s, ops).shuttingDown
    ensures (forall g :: g in s.onGfn ==> s.onGfn[g].access != ACCESS_N)
            && (forall i :: 0 <= i < |ops| && ops[i].Reg? ==> ops[i].event.access != ACCESS_N)
            ==> Run(s, ops).onGfn.Keys == Run(s, ops).traps.Keys
    decreases |ops|
  {
    if ops == [] {
      FramesAreTraps(s);
    } else {
      match ops[0] {
        case Reg(e, ok) => RegisterConsistent(s, e, ok);
        case Clr(e, ok) => ClearConsistent(s, e, ok);
      }
      RunConsistent(Apply(s, ops[0]), ops[1..]);
    }
  }

  lemma {:induction false} RunLast(s: State, ops: seq<Op>, n: nat)
    requires n < |ops|
    ensures Run(s, ops[..n + 1]) == Apply(Run(s, ops[..n]), ops[n])
    decreases n
  {
    if n == 0 {
      assert ops[..1] == [ops[0]] && ops[..1][1..] == [] && ops[..0] == [];
    } else {
      var s1, rest := Apply(s, ops[0]), ops[1..];
      RunLast(s1, rest, n - 1);
      assert ops[..n + 1][1..] == rest[..n] && ops[..n][1..] == rest[..n - 1];
    }
  }

  /** The k-th request of the run is a registration of a frame event for `g`, and succeeds. */
  ghost predicate Registers(s: State, ops: seq<Op>, k: nat, g: nat) {
    && k < |ops| && ops[k].Reg? && !ops[k].event.generic && ops[k].event.gfn == g
    && Register(Run(s, ops[..k]), ops[k].event, ops[k].driverOk).1
  }

  /** The k-th request clears frame `g`, and the driver agrees. */
  ghost predicate Clears(ops: seq<Op>, k: nat, g: nat) {
    k < |ops| && ops[k].Clr? && !ops[k].event.generic && ops[k].event.gfn == g && ops[k].driverOk
  }

  /** The k-th of the first `n` requests is the last that registered frame `g`, and none cleared it
      since. */
  ghost predicate LastToRegister(s: State, ops: seq<Op>, n: nat, k: nat, g: nat) {
    && k < n && Registers(s, ops, k, g)
    && forall i :: k < i < n ==> !Registers(s, ops, i, g) && !Clears(ops, i, g)
  }

  /** What `t` holds for frame `g` is the event of the last of the first `n` requests to register it. */
  ghost predicate Accounts(s: State, ops: seq<Op>, n: nat, g: nat, t: State) {
    && (g in t.onGfn <==> exists k: nat :: LastToRegister(s, ops, n, k, g))
    && (forall k: nat :: LastToRegister(s, ops, n, k, g) ==> g in t.onGfn && t.onGfn[g] == ops[k].event)
  }

  /** After any run from an empty registry, what stands in the table for a frame is the event of the
      last successful registration on it, not cleared since, and the frame is trapped exactly with
      that event's access. */
  lemma RunRegistered(s: State, ops: seq<Op>, g: nat)
    requires Consistent(s) && !s.shuttingDown && s.onGfn == map[]
    ensures var t := Run(s, ops);
            && Accounts(s, ops, |ops|, g, t)
            && (g in t.traps <==> g in t.onGfn && t.onGfn[g].access != ACCESS_N)
            && (g in t.traps ==> t.traps[g] == t.onGfn[g].access)
  {
    hide Accounts, Run;
    RunConsistent(s, ops);
    RunAccounts(s, ops, |ops|, g);
    assert ops[..|ops|] == ops;
  }

  lemma {:induction false} RunAccounts(s: State, ops: seq<Op>, n: nat, g: nat)
    requires Consistent(s) && !s.shuttingDown && s.onGfn == map[] && n <= |ops|
    ensures Accounts(s, ops, n, g, Run(s, ops[..n]))
    decreases n
  {
    hide Consistent;
    if n > 0 {
      RunAccounts(s, ops, n - 1, g);
      RunConsistent(s, ops[..n - 1]);
      RunLast(s, ops, n - 1);
      hide Accounts, Run;
      LastStep(s, ops, n - 1, n, g, Run(s, ops[..n - 1]), Run(s, ops[..n]));
    } else {
      assert ops[..0] == [];
    }
  }

  lemma LastStep(s: State, ops: seq<Op>, n: nat, n': nat, g: nat, t: State, t': State)
    requires n' == n + 1 <= |ops| && t == Run(s, ops[..n]) && !t.shuttingDown && t' == Apply(t, ops[n])
    requires Accounts(s, ops, n, g, t)
    ensures Accounts(s, ops, n', g, t')
  {
    hide Run, Register, Clear;
    RegisterEffect(t, ops[n].event, ops[n].driverOk);
    ClearEffect(t, ops[n].event, ops[n].driverOk);
    if Registers(s, ops, n, g) {
      assert LastToRegister(s, ops, n', n, g);
      assert g in t'.onGfn && t'.onGfn[g] == ops[n].event;
    } else if !Clears(ops, n, g) {
      assert (g in t'.onGfn <==> g in t.onGfn) && (g in t.onGfn ==> t'.onGfn[g] == t.onGfn[g]);
      forall k: nat ensures LastToRegister(s, ops, n', k, g) <==> LastToRegister(s, ops, n, k, g) {
      }
    } else {
      assert g !in t'.onGfn;
      forall k: nat ensures !LastToRegister(s, ops, n', k, g) {
      }
    }
  }

  /** A queued event is for frame `g`, and the driver agrees to clear it. */
  ghost predicate Cleared(pending: map<Event, bool>, answers: Event -> bool, g: nat) {
    exists e :: e in pending && !e.generic && e.gfn == g && answers(e)
  }

  ghost predicate ClearedGeneric(pending: map<Event, bool>, access: nat) {
    exists e :: e in pending && e.generic && e.access == access
  }

  class Registry {
    var state: State
    var eventCallback: bool

    ghost predicate Valid()
      reads this
    {
      Consistent(state) && !state.shuttingDown
    }

    constructor ()
      ensures Valid() && state == State(map[], map[], map[], map[], false) && !eventCallback
    {
      state, eventCallback := State(map[], map[], map[], map[], false), false;
    }

    /** vmi_register_event on a memory event; `driverOk` is the driver's answer, if it is asked. */
    method RegisterEvent(e: Event, driverOk: bool) returns (ok: bool)
      requires Valid()
      modifies this`state
      ensures Valid() && (state, ok) == Register(old(state), e, driverOk)
      ensures ok && !e.generic ==>
                && e.gfn in state.onGfn && state.onGfn[e.gfn] == e
                && (e.gfn in state.traps <==> e.access != ACCESS_N)
                && (e.gfn in state.traps ==> state.traps[e.gfn] == e.access)
                && Elsewhere(old(state), state, e.gfn)
      ensures ok && e.generic ==> e.access in state.generic && state.generic[e.access] == e
    {
      RegisterConsistent(state, e, driverOk);
      RegisterEffect(state, e, driverOk);
      var r := Register(state, e, driverOk);
      state, ok := r.0, r.1;
    }

    /** vmi_clear_event: while a callback runs the request is only queued. The table is asked for
        the free routine stored with the event, so a request queued without one is not noticed and
        a second one is accepted. */
    method ClearEvent(e: Event, routine: bool, driverOk: bool) returns (ok: bool)
      requires Valid()
      modifies this`state
      ensures Valid()
      ensures eventCallback ==>
                var queued := old(state.pending);
                && (ok <==> !(e in queued && queued[e]))
                && state == if ok then old(state).(pending := queued[e := routine]) else old(state)
      ensures !eventCallback ==> (state, ok) == Clear(old(state), e, driverOk)
    {
      if eventCallback {
        ok := !(e in state.pending && state.pending[e]);
        if ok {
          state := state.(pending := state.pending[e := routine]);
        }
        return;
      }
      ClearConsistent(state, e, driverOk);
      var r := Clear(state, e, driverOk);
      state, ok := r.0, r.1;
    }

    /** The driver drains clear_events after the callbacks; `answers` are its answers. Afterwards
        nothing is pending, and exactly the frames and accesses of the events cleared have left
        the tables, everything else standing as before. */
    method ProcessClears(answers: Event -> bool)
      requires Valid() && !eventCallback
      modifies this`state
      ensures Valid() && state.pending == map[]
      ensures Standing(old(state), state, old(state.pending), answers)
    {
      hide Clear, Consistent, Standing;
      ghost var s, done := state, map[];
      NothingCleared(s, answers);
      while state.pending != map[]
        invariant Valid() && !eventCallback
        invariant state.pending.Keys <= s.pending.Keys && done.Keys == s.pending.Keys - state.pending.Keys
        invariant Standing(s, state, done, answers)
        decreases state.pending.Keys
      {
        var e :| e in state.pending;
        var routine := state.pending[e];
        ghost var t := state;
        state := state.(pending := state.pending - {e});
        StandingStep(s, t, state, done, answers, e, routine);
        var _ := ClearEvent(e, routine, answers(e));
        done := done[e := routine];
      }
      StandingEnd(s, state, done, answers);
    }
  }

  /** `t` is `s` without what the events in `done` cleared. */
  ghost predicate Standing(s: State, t: State, done: map<Event, bool>, answers: Event -> bool) {
    && (forall g :: g in t.onGfn <==> g in s.onGfn && !Cleared(done, answers, g))
    && (forall g :: g in t.onGfn ==> t.onGfn[g] == s.onGfn[g])
    && (forall a :: a in t.generic <==> a in s.generic && !ClearedGeneric(done, a))
    && (forall a :: a in t.generic ==> t.generic[a] == s.generic[a])
  }

  lemma NothingCleared(s: State, answers: Event -> bool)
    ensures Standing(s, s, map[], answers)
  {
  }

  lemma StandingStep(s: State, t: State, u: State, done: map<Event, bool>, answers: Event -> bool, e: Event,
                     routine: bool)
    requires Standing(s, t, done, answers) && Consistent(t) && !t.shuttingDown && u == t.(pending := t.pending - {e})
    ensures Consistent(u) && u.pending.Keys == t.pending.Keys - {e}
    ensures Clear(u, e, answers(e)).0.pending == u.pending
    ensures Standing(s, Clear(u, e, answers(e)).0, done[e := routine], answers)
  {
    hide Clear, Cleared, ClearedGeneric;
    ClearEffect(u, e, answers(e));
    OneMoreCleared(done, answers, e, routine);
  }

  lemma StandingEnd(s: State, t: State, done: map<Event, bool>, answers: Event -> bool)
    requires Standing(s, t, done, answers) && done.Keys == s.pending.Keys
    ensures Standing(s, t, s.pending, answers)
  {
    hide Cleared, ClearedGeneric;
    SameCleared(done, s.pending, answers);
  }

  lemma OneMoreCleared(done: map<Event, bool>, answers: Event -> bool, e: Event, routine: bool)
    ensures forall g :: Cleared(done[e := routine], answers, g) <==>
              Cleared(done, answers, g) || (!e.generic && e.gfn == g && answers(e))
    ensures forall a :: ClearedGeneric(done[e := routine], a) <==>
              ClearedGeneric(done, a) || (e.generic && e.access == a)
  {
    var done' := done[e := routine];
    forall g
      ensures Cleared(done', answers, g) <==> Cleared(done, answers, g) || (!e.generic && e.gfn == g && answers(e))
    {
      if Cleared(done, answers, g) {
        var x :| x in done && !x.generic && x.gfn == g && answers(x);
        assert x in done';
      }
      assert e in done';
    }
    forall a ensures ClearedGeneric(done', a) <==> ClearedGeneric(done, a) || (e.generic && e.access == a) {
      if ClearedGeneric(done, a) {
        var x :| x in done && x.generic && x.access == a;
        assert x in done';
      }
      assert e in done';
    }
  }

  lemma SameCleared(p: map<Event, bool>, q: map<Event, bool>, answers: Event -> bool)
    requires p.Keys == q.Keys
    ensures forall g :: Cleared(p, answers, g) <==> Cleared(q, answers, g)
    ensures forall a :: ClearedGeneric(p, a) <==> ClearedGeneric(q, a)
  {
    assert forall e :: e in p <==> e in p.Keys;
    assert forall e :: e in q <==> e in q.Keys;
  }
}
