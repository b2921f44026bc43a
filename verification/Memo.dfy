/** The memoizer as a machine over a flat map from argument lists to results.  A call is two
    events, `Enter` and `Leave`: between them the memoized function runs, and may itself call,
    forget or clear. */
module Memo {
  import opened SchemaGraph

  /** An argument up to the equality that `Map` keys use. */
  datatype Arg = Missing | Given(id: nat)
  type Args = seq<Arg>

  datatype Value = Value(id: nat, thenable: bool)

  datatype Arity = Zero | One | Many

  /** What a wrapper keys an entry by. */
  function KeyOf(arity: Arity, args: Args): (key: Args)
    ensures arity.One? ==> |key| == 1
  {
    match arity
    case Zero => []
    case One => [if args == [] then Missing else args[0]]
    case Many => args
  }

  datatype Progress = Running | Returned(value: Value) | Raised

  /** A call that missed the cache; `epoch` counts the clears before it. */
  datatype Ticket = Ticket(key: Args, epoch: nat, progress: Progress, rejected: bool)

  datatype Entry = Entry(value: Value, ticket: nat)

  datatype Machine = Machine(arity: Arity, cache: map<Args, Entry>, epoch: nat, tickets: seq<Ticket>)

  function Init(arity: Arity): Machine { Machine(arity, map[], 0, []) }

  datatype Event =
    | Enter(args: Args)
    | Leave(ticket: nat, value: Value)
    | Raise(ticket: nat)
    | Reject(ticket: nat)  // the rejection reaction of the value that a call stored
    | Forget(args: Args)
    | Clear
    | Bypass(args: Args)

  predicate Enabled(m: Machine, e: Event) {
    match e
    case Leave(t, _) => t < |m.tickets| && m.tickets[t].progress.Running?
    case Raise(t) => t < |m.tickets| && m.tickets[t].progress.Running?
    case Reject(t) =>
      && t < |m.tickets| && m.tickets[t].progress.Returned?
      && m.tickets[t].progress.value.thenable && !m.tickets[t].rejected
    case _ => true
  }

  /** The place a call writes to is still part of the cache.  With nested maps, `clear` empties
      the outermost one and so cuts off every place but that one. */
  predicate Live(m: Machine, t: Ticket) { !m.arity.Many? || t.key == [] || t.epoch == m.epoch }

  function Advance(m: Machine, t: nat, ticket: Ticket): Machine
    requires t < |m.tickets|
  {
    m.(tickets := m.tickets[t := ticket])
  }

  function Step(m: Machine, e: Event): Machine
    requires Enabled(m, e)
  {
    match e
    case Enter(args) =>
      if KeyOf(m.arity, args) in m.cache then m
      else m.(tickets := m.tickets + [Ticket(KeyOf(m.arity, args), m.epoch, Running, false)])
    case Leave(t, v) =>
      var ticket := m.tickets[t];
      var m' := Advance(m, t, ticket.(progress := Returned(v)));
      if Live(m, ticket) then m'.(cache := m.cache[ticket.key := Entry(v, t)]) else m'
    case Raise(t) => Advance(m, t, m.tickets[t].(progress := Raised))
    case Reject(t) =>
      var ticket := m.tickets[t];
      var m' := Advance(m, t, ticket.(rejected := true));
      if Live(m, ticket) then m'.(cache := m.cache - {ticket.key}) else m'
    case Forget(args) => m.(cache := m.cache - {KeyOf(m.arity, args)})
    case Clear => m.(cache := map[], epoch := m.epoch + 1)
    case Bypass(_) => m
  }

  predicate Runs(m: Machine, events: seq<Event>)
    decreases |events|
  {
    events == [] || (Enabled(m, events[0]) && Runs(Step(m, events[0]), events[1..]))
  }

  function Run(m: Machine, events: seq<Event>): Machine
    requires Runs(m, events)
    decreases |events|
  {
    if events == [] then m else Run(Step(m, events[0]), events[1..])
  }

  // ---------- What every run keeps ----------

  ghost predicate Justified(m: Machine, key: Args, e: Entry) {
    e.ticket < |m.tickets| &&
    var ticket := m.tickets[e.ticket];
    ticket.key == key && ticket.progress == Returned(e.value) && !ticket.rejected && Live(m, ticket)
  }

  /** Every entry is what the function returned for a call with exactly those arguments, and no
      rejection of that very result has been seen; a result that is no promise is never rejected. */
  ghost predicate Sound(m: Machine) {
    && (forall key | key in m.cache :: Justified(m, key, m.cache[key]))
    && (forall t | 0 <= t < |m.tickets| ::
          && m.tickets[t].epoch <= m.epoch
          && (m.tickets[t].rejected ==> m.tickets[t].progress.Returned? && m.tickets[t].progress.value.thenable))
  }

  lemma StepKeepsSound(m: Machine, e: Event)
    requires Sound(m) && Enabled(m, e)
    ensures Sound(Step(m, e))
  {
    var m' := Step(m, e);
    forall key | key in m'.cache ensures Justified(m', key, m'.cache[key]) {
      if key in m.cache { assert Justified(m, key, m.cache[key]); }
    }
  }

  lemma {:induction false} RunsKeepSound(m: Machine, events: seq<Event>)
    requires Sound(m) && Runs(m, events)
    ensures Sound(Run(m, events))
    decreases |events|
  {
    if events != [] {
      StepKeepsSound(m, events[0]);
      RunsKeepSound(Step(m, events[0]), events[1..]);
    }
  }

  /** In every run, from the first call on. */
  lemma {:induction false} MemoIsSound(arity: Arity, events: seq<Event>)
    requires Runs(Init(arity), events)
    ensures Sound(Run(Init(arity), events))
  {
    RunsKeepSound(Init(arity), events);
  }

  /** The event leaves the entry of `key` alone. */
  predicate Spares(m: Machine, e: Event, key: Args)
    requires Enabled(m, e)
  {
    match e
    case Leave(t, _) => m.tickets[t].key != key
    case Reject(t) => m.tickets[t].key != key
    case Forget(args) => KeyOf(m.arity, args) != key
    case Clear => false
    case _ => true
  }

  predicate SparesAll(m: Machine, events: seq<Event>, key: Args)
    requires Runs(m, events)
    decreases |events|
  {
    events == [] || (Spares(m, events[0], key) && SparesAll(Step(m, events[0]), events[1..], key))
  }

  /** While nothing invalidates an entry it stays, and its function is not run again. */
  lemma {:induction false} EntryPersists(m: Machine, events: seq<Event>, key: Args)
    requires Runs(m, events) && SparesAll(m, events, key) && key in m.cache
    ensures var m' := Run(m, events);
            && key in m'.cache && m'.cache[key] == m.cache[key]
            && |m.tickets| <= |m'.tickets|
            && forall t | |m.tickets| <= t < |m'.tickets| :: m'.tickets[t].key != key
    decreases |events|
  {
    if events != [] {
      var m1 := Step(m, events[0]);
      EntryPersists(m1, events[1..], key);
      var m' := Run(m1, events[1..]);
      TicketsKeepKeys(m1, events[1..]);
      forall t | |m.tickets| <= t < |m'.tickets| ensures m'.tickets[t].key != key {
        if t < |m1.tickets| { assert m1.tickets[t].key != key; }
      }
    }
  }

  lemma {:induction false} TicketsKeepKeys(m: Machine, events: seq<Event>)
    requires Runs(m, events)
    ensures var m' := Run(m, events);
            && |m.tickets| <= |m'.tickets|
            && forall t | 0 <= t < |m.tickets| :: m'.tickets[t].key == m.tickets[t].key
    decreases |events|
  {
    if events != [] {
      var m1 := Step(m, events[0]);
      TicketsKeepKeys(m1, events[1..]);
      forall t | 0 <= t < |m.tickets| ensures Run(m, events).tickets[t].key == m.tickets[t].key {
        assert m1.tickets[t].key == m.tickets[t].key;
      }
    }
  }

  /** Once a call whose place is live has returned, calls with the same key answer with its value
      and do not run the function, until something invalidates the entry. */
  lemma {:induction false} MemoRunsOnce(m: Machine, t: nat, v: Value, events: seq<Event>, args: Args)
    requires Enabled(m, Leave(t, v)) && Live(m, m.tickets[t]) && KeyOf(m.arity, args) == m.tickets[t].key
    requires Runs(Step(m, Leave(t, v)), events) && SparesAll(Step(m, Leave(t, v)), events, m.tickets[t].key)
    ensures var m1, key := Step(m, Leave(t, v)), m.tickets[t].key;
            var m' := Run(m1, events);
            && key in m'.cache && m'.cache[key].value == v
            && Step(m', Enter(args)) == m'
            && forall i | |m.tickets| <= i < |m'.tickets| :: m'.tickets[i].key != key
  {
    hide Run, Runs, SparesAll;
    var m1 := Step(m, Leave(t, v));
    EntryPersists(m1, events, m.tickets[t].key);
    RunKeepsArity(m1, events);
  }

  lemma {:induction false} RunKeepsArity(m: Machine, events: seq<Event>)
    requires Runs(m, events)
    ensures Run(m, events).arity == m.arity
    decreases |events|
  {
    if events != [] { RunKeepsArity(Step(m, events[0]), events[1..]); }
  }

  /** Every call that returned gave the value of `f`. */
  ghost predicate Computes(m: Machine, f: Args -> Value) {
    forall t | 0 <= t < |m.tickets| && m.tickets[t].progress.Returned? ::
      m.tickets[t].progress.value == f(m.tickets[t].key)
  }

  /** Memoizing a function of the key changes no answer. */
  lemma {:induction false} MemoIsTransparent(arity: Arity, events: seq<Event>, f: Args -> Value, args: Args)
    requires Runs(Init(arity), events) && Computes(Run(Init(arity), events), f)
    ensures var m, key := Run(Init(arity), events), KeyOf(arity, args);
            key in m.cache ==> m.cache[key].value == f(key)
  {
    MemoIsSound(arity, events);
  }

  /** Once the rejection of a stored result has been seen, no entry holds that result again. */
  lemma {:induction false} RejectedStaysOut(m: Machine, events: seq<Event>, t: nat)
    requires Sound(m) && Runs(m, events) && t < |m.tickets| && m.tickets[t].rejected
    ensures var m' := Run(m, events); forall key | key in m'.cache :: m'.cache[key].ticket != t
    decreases |events|
  {
    if events == [] {
      forall key | key in m.cache ensures m.cache[key].ticket != t {
        assert Justified(m, key, m.cache[key]);
      }
    } else {
      StepKeepsSound(m, events[0]);
      assert m.tickets[t].progress.Returned?;
      var m1 := Step(m, events[0]);
      assert m1.tickets[t].rejected;
      RejectedStaysOut(m1, events[1..], t);
      assert Run(m, events) == Run(m1, events[1..]);
    }
  }

  // ---------- What invalidates ----------

  /** Every entry at the end of a run was there before it, or was stored by a return in it. */
  lemma {:induction false} EntriesAreStored(m: Machine, events: seq<Event>, key: Args)
    requires Runs(m, events) && key in Run(m, events).cache
    ensures var e := Run(m, events).cache[key];
            (key in m.cache && m.cache[key] == e) || Leave(e.ticket, e.value) in events
    decreases |events|
  {
    if events != [] {
      var m1 := Step(m, events[0]);
      EntriesAreStored(m1, events[1..], key);
      var e := Run(m1, events[1..]).cache[key];
      if Leave(e.ticket, e.value) !in events[1..] && !(key in m.cache && m.cache[key] == e) {
        assert events[0] == Leave(e.ticket, e.value);
      }
    }
  }

  /** After a clear, whatever the arity, only returns that come after it fill the cache, and the next
      call runs the function. */
  lemma {:induction false} ClearForgetsAll(m: Machine, events: seq<Event>, args: Args)
    requires Runs(Step(m, Clear), events)
    ensures var m' := Run(Step(m, Clear), events);
            forall key | key in m'.cache :: Leave(m'.cache[key].ticket, m'.cache[key].value) in events
    ensures CallsAgain(m, Step(m, Clear), args)
  {
    forall key | key in Run(Step(m, Clear), events).cache
      ensures var e := Run(Step(m, Clear), events).cache[key]; Leave(e.ticket, e.value) in events
    {
      EntriesAreStored(Step(m, Clear), events, key);
    }
  }

  /** The calls of `m` are as they were, and one with these arguments is not answered from the cache:
      it runs the function. */
  ghost predicate CallsAgain(m: Machine, m': Machine, args: Args) {
    var m'' := Step(m', Enter(args));
    && m'.tickets == m.tickets && |m''.tickets| == |m.tickets| + 1 && m''.tickets[..|m.tickets|] == m.tickets
    && m''.tickets[|m.tickets|].key == KeyOf(m.arity, args) && m''.tickets[|m.tickets|].progress.Running?
  }

  /** The same after a forget, of its own key; the other entries stay. */
  lemma {:induction false} ForgetForgetsOne(m: Machine, events: seq<Event>, args: Args)
    requires Runs(Step(m, Forget(args)), events)
    ensures var m', key := Run(Step(m, Forget(args)), events), KeyOf(m.arity, args);
            key in m'.cache ==> Leave(m'.cache[key].ticket, m'.cache[key].value) in events
    ensures forall key | key in m.cache && key != KeyOf(m.arity, args) ::
              key in Step(m, Forget(args)).cache && Step(m, Forget(args)).cache[key] == m.cache[key]
    ensures CallsAgain(m, Step(m, Forget(args)), args)
  {
    if KeyOf(m.arity, args) in Run(Step(m, Forget(args)), events).cache {
      EntriesAreStored(Step(m, Forget(args)), events, KeyOf(m.arity, args));
    }
  }

  /** A call whose place a clear has cut off changes no entry when it returns or its result rejects. */
  lemma CutOffChangesNothing(m: Machine, t: nat, v: Value)
    requires m.arity.Many? && t < |m.tickets| && m.tickets[t].key != [] && m.tickets[t].epoch < m.epoch
    ensures Enabled(m, Leave(t, v)) ==> Step(m, Leave(t, v)).cache == m.cache
    ensures Enabled(m, Reject(t)) ==> Step(m, Reject(t)).cache == m.cache
  {
  }

  /** The first argument, which is missing in a call without any. */
  function First(args: Args): Arg { if args == [] then Missing else args[0] }

  /** Two calls share an entry always, if their first arguments agree, or if all do. */
  lemma KeysAgree(arity: Arity, args: Args, args': Args)
    ensures KeyOf(arity, args) == KeyOf(arity, args') <==>
            match arity
            case Zero => true
            case One => First(args) == First(args')
            case Many => args == args'
  {
    if arity.One? { assert KeyOf(arity, args)[0] == First(args) && KeyOf(arity, args')[0] == First(args'); }
  }

  // ---------- Two consequences that surprise ----------

  /** The rejection of one call's result evicts the result of another call if and only if the call's
      place is live and the entry under its key was stored by another call. */
  lemma EvictsAnother(m: Machine, t: nat)
    requires Sound(m) && Enabled(m, Reject(t))
    ensures var key, m' := m.tickets[t].key, Step(m, Reject(t));
            (exists k :: k in m.cache && k !in m'.cache && m.cache[k].ticket != t) <==>
            Live(m, m.tickets[t]) && key in m.cache && m.cache[key].ticket != t
  {
    var key, m' := m.tickets[t].key, Step(m, Reject(t));
    if Live(m, m.tickets[t]) && key in m.cache && m.cache[key].ticket != t {
      assert key !in m'.cache;
    }
  }

  /** That takes a forget, a clear, or another return or rejection for the key since the call
      returned. */
  lemma {:induction false} EvictsOwnUntilInvalidated(m: Machine, t: nat, v: Value, events: seq<Event>)
    requires Enabled(m, Leave(t, v)) && Live(m, m.tickets[t])
    requires Runs(Step(m, Leave(t, v)), events) && SparesAll(Step(m, Leave(t, v)), events, m.tickets[t].key)
    ensures var m' := Run(Step(m, Leave(t, v)), events);
            m.tickets[t].key in m'.cache && m'.cache[m.tickets[t].key] == Entry(v, t)
  {
    EntryPersists(Step(m, Leave(t, v)), events, m.tickets[t].key);
  }

  /** A call returns, and its result is forgotten. */
  lemma ReturnsAndForgets(arity: Arity, args: Args, v: Value)
    requires v.thenable
    ensures var key := KeyOf(arity, args);
            var m1 := Machine(arity, map[], 0, [Ticket(key, 0, Running, false)]);
            var m2 := Machine(arity, map[key := Entry(v, 0)], 0, [Ticket(key, 0, Returned(v), false)]);
            var m3 := Machine(arity, map[], 0, [Ticket(key, 0, Returned(v), false)]);
            && Step(Init(arity), Enter(args)) == m1 && Enabled(m1, Leave(0, v)) && Step(m1, Leave(0, v)) == m2
            && Step(m2, Forget(args)) == m3
  {
    hide KeyOf;
  }

  /** A rejection evicts whatever is cached under the key, also a newer result. */
  lemma StaleRejectionEvicts(arity: Arity, args: Args, v: Value, v': Value)
    requires v.thenable
    ensures var events := [Enter(args), Leave(0, v), Forget(args), Enter(args), Leave(1, v')];
            Runs(Init(arity), events) &&
            var m := Run(Init(arity), events);
            && m.cache == map[KeyOf(arity, args) := Entry(v', 1)]
            && Enabled(m, Reject(0)) && Step(m, Reject(0)).cache == map[]
  {
    var key := KeyOf(arity, args);
    var events := [Enter(args), Leave(0, v), Forget(args), Enter(args), Leave(1, v')];
    var running, stored := Ticket(key, 0, Running, false), Ticket(key, 0, Returned(v), false);
    var m1 := Machine(arity, map[], 0, [running]);
    var m2 := Machine(arity, map[key := Entry(v, 0)], 0, [stored]);
    var m3 := Machine(arity, map[], 0, [stored]);
    var m4 := Machine(arity, map[], 0, [stored, running]);
    var m5 := Machine(arity, map[key := Entry(v', 1)], 0, [stored, Ticket(key, 0, Returned(v'), false)]);
    ReturnsAndForgets(arity, args, v);
    assert Step(m3, Enter(args)) == m4;
    assert Step(m4, Leave(1, v')) == m5;
    assert Step(m5, Reject(0)).cache == map[];
    hide KeyOf, Step, Live;
    FiveSteps(Init(arity), m1, m2, m3, m4, m5, events);
  }

  lemma {:induction false} FiveSteps(m0: Machine, m1: Machine, m2: Machine, m3: Machine, m4: Machine, m5: Machine,
                                     events: seq<Event>)
    requires |events| == 5 && Enabled(m0, events[0]) && Step(m0, events[0]) == m1
    requires Enabled(m1, events[1]) && Step(m1, events[1]) == m2
    requires Enabled(m2, events[2]) && Step(m2, events[2]) == m3
    requires Enabled(m3, events[3]) && Step(m3, events[3]) == m4
    requires Enabled(m4, events[4]) && Step(m4, events[4]) == m5
    ensures Runs(m0, events) && Run(m0, events) == m5
  {
    hide Step, Enabled;
    Unroll(m4, events[4..]);
    Unroll(m3, events[3..]);
    Unroll(m2, events[2..]);
    Unroll(m1, events[1..]);
    Unroll(m0, events);
  }

  lemma {:induction false} Unroll(m: Machine, events: seq<Event>)
    requires events != [] && Enabled(m, events[0]) && Runs(Step(m, events[0]), events[1..])
    ensures Runs(m, events) && Run(m, events) == Run(Step(m, events[0]), events[1..])
  {
  }

  /** A clear while a call is running: nested maps lose its result, the flat caches keep it. */
  lemma ClearDuringCall(arity: Arity, args: Args, v: Value)
    ensures var events := [Enter(args), Clear, Leave(0, v)];
            && Runs(Init(arity), events)
            && (KeyOf(arity, args) in Run(Init(arity), events).cache <==> !arity.Many? || args == [])
  {
    var events := [Enter(args), Clear, Leave(0, v)];
    var m1 := Step(Init(arity), events[0]);
    var m2 := Step(m1, events[1]);
    Unroll(m2, events[2..]);
    Unroll(m1, events[1..]);
  }
}
