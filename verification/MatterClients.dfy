/** The client counter of the Matter server, as interleaved steps of the accept loop and the client threads. */
module MatterClients {
  const MAX_CLIENTS := 16

  /** Where a client thread is; the counter is loaded and stored in separate steps under the lock. */
  datatype Client = Serving | Waiting | Locked | Loaded(v: int) | Stored | Gone

  /** Where the accept loop is; the Undo points follow a failed malloc or pthread_create. */
  datatype Accept =
    | Idle | AtLock | Checking | Incrementing(v: int) | Incremented | Admitted
    | UndoAtLock | UndoLocked | UndoLoaded(v: int) | UndoStored

  datatype Holder = Nobody | TheLoop | TheClient(i: nat)

  datatype State = State(active: int, holder: Holder, loop: Accept, clients: seq<Client>)

  /** Who moves; the loop's step says how malloc and pthread_create turn out. */
  datatype Action = Loop(mallocFails: bool, createFails: bool) | Thread(i: nat)

  const START := State(0, Nobody, Idle, [])

  // ----- Steps -----

  function LoopStep(s: State, mallocFails: bool, createFails: bool): State {
    match s.loop
    case Idle => s.(loop := AtLock)
    case AtLock => if s.holder == Nobody then s.(holder := TheLoop, loop := Checking) else s
    case Checking =>
      if s.active >= MAX_CLIENTS then s.(holder := Nobody, loop := Idle) else s.(loop := Incrementing(s.active))
    case Incrementing(v) => s.(active := v + 1, loop := Incremented)
    case Incremented => s.(holder := Nobody, loop := Admitted)
    case Admitted =>
      if mallocFails || createFails then s.(loop := UndoAtLock) else s.(loop := Idle, clients := s.clients + [Serving])
    case UndoAtLock => if s.holder == Nobody then s.(holder := TheLoop, loop := UndoLocked) else s
    case UndoLocked => s.(loop := UndoLoaded(s.active))
    case UndoLoaded(v) => s.(active := v - 1, loop := UndoStored)
    case UndoStored => s.(holder := Nobody, loop := Idle)
  }

  function ClientStep(s: State, i: nat): State
    requires i < |s.clients|
  {
    match s.clients[i]
    case Serving => s.(clients := s.clients[i := Waiting])
    case Waiting => if s.holder == Nobody then s.(holder := TheClient(i), clients := s.clients[i := Locked]) else s
    case Locked => s.(clients := s.clients[i := Loaded(s.active)])
    case Loaded(v) => s.(active := v - 1, clients := s.clients[i := Stored])
    case Stored => s.(holder := Nobody, clients := s.clients[i := Gone])
    case Gone => s
  }

  function Step(s: State, a: Action): State {
    match a
    case Loop(mallocFails, createFails) => LoopStep(s, mallocFails, createFails)
    case Thread(i) => if i < |s.clients| then ClientStep(s, i) else s
  }

  function Run(s: State, actions: seq<Action>): State
    decreases |actions|
  {
    if actions == [] then s else Run(Step(s, actions[0]), actions[1..])
  }

  // ----- Admitted and not yet released -----

  function Owes(c: Client): nat {
    if c == Stored || c == Gone then 0 else 1
  }

  function LoopOwes(l: Accept): nat {
    if l.Incremented? || l.Admitted? || l.UndoAtLock? || l.UndoLocked? || l.UndoLoaded? then 1 else 0
  }

  function ClientsOwe(clients: seq<Client>): nat {
    if clients == [] then 0 else Owes(clients[0]) + ClientsOwe(clients[1..])
  }

  function Outstanding(s: State): nat {
    LoopOwes(s.loop) + ClientsOwe(s.clients)
  }

  // ----- The invariant -----

  predicate LoopInside(l: Accept) {
    !(l.Idle? || l.AtLock? || l.Admitted? || l.UndoAtLock?)
  }

  predicate ClientInside(c: Client) {
    c.Locked? || c.Loaded? || c.Stored?
  }

  ghost predicate Invariant(s: State) {
    && s.active == Outstanding(s) <= MAX_CLIENTS
    && (LoopInside(s.loop) <==> s.holder == TheLoop)
    && (forall i :: 0 <= i < |s.clients| ==> (ClientInside(s.clients[i]) <==> s.holder == TheClient(i)))
    && (s.holder.TheClient? ==> s.holder.i < |s.clients|)
    && (s.loop.Incrementing? ==> s.loop.v == s.active < MAX_CLIENTS)
    && (s.loop.UndoLoaded? ==> s.loop.v == s.active)
    && (forall i :: 0 <= i < |s.clients| && s.clients[i].Loaded? ==> s.clients[i].v == s.active)
  }

  lemma {:induction false} OweUpdate(clients: seq<Client>, i: nat, c: Client)
    requires i < |clients|
    ensures ClientsOwe(clients[i := c]) == ClientsOwe(clients) - Owes(clients[i]) + Owes(c)
  {
    if i == 0 {
      assert clients[i := c][1..] == clients[1..];
    } else {
      assert clients[i := c][1..] == clients[1..][i - 1 := c];
      OweUpdate(clients[1..], i - 1, c);
    }
  }

  lemma {:induction false} OweSpawn(clients: seq<Client>, c: Client)
    ensures ClientsOwe(clients + [c]) == ClientsOwe(clients) + Owes(c)
  {
    if clients == [] {
      assert (clients + [c])[1..] == [];
    } else {
      assert (clients + [c])[1..] == clients[1..] + [c];
      OweSpawn(clients[1..], c);
    }
  }

  lemma LoopKeeps(s: State, mallocFails: bool, createFails: bool)
    requires Invariant(s)
    ensures Invariant(LoopStep(s, mallocFails, createFails))
  {
    hide ClientsOwe;
    OweSpawn(s.clients, Serving);
  }

  lemma ClientKeeps(s: State, i: nat)
    requires Invariant(s) && i < |s.clients|
    ensures Invariant(ClientStep(s, i))
  {
    hide ClientsOwe;
    var t := ClientStep(s, i);
    OweUpdate(s.clients, i, t.clients[i]);
  }

  /**
   * In every interleaving, whatever fails, the counter is the number of connections admitted and not yet
   * released, and never exceeds the limit; the lock has at most one holder.
   */
  lemma {:induction false} RunKeeps(s: State, actions: seq<Action>)
    requires Invariant(s)
    ensures Invariant(Run(s, actions))
    decreases |actions|
  {
    hide Invariant, Step;
    if actions != [] {
      StepKeeps(s, actions[0]);
      RunKeeps(Step(s, actions[0]), actions[1..]);
    }
  }

  lemma StepKeeps(s: State, a: Action)
    requires Invariant(s)
    ensures Invariant(Step(s, a))
  {
    hide Invariant, LoopStep, ClientStep;
    match a
    case Loop(mallocFails, createFails) => LoopKeeps(s, mallocFails, createFails);
    case Thread(i) =>
      if i < |s.clients| {
        ClientKeeps(s, i);
      }
  }

  /** From the start: never negative, never above 16, exact, and nothing left over once everyone is gone. */
  lemma CounterExact(actions: seq<Action>)
    ensures var s := Run(START, actions);
            && 0 <= s.active <= 16 && s.active == Outstanding(s)
            && (s.loop == Idle && (forall i :: 0 <= i < |s.clients| ==> s.clients[i] == Gone) ==> s.active == 0)
  {
    hide Run, ClientsOwe;
    assert ClientsOwe([]) == 0 by {
      NobodyOwes([]);
    }
    RunKeeps(START, actions);
    var s := Run(START, actions);
    if forall i :: 0 <= i < |s.clients| ==> s.clients[i] == Gone {
      NobodyOwes(s.clients);
    }
  }

  lemma {:induction false} NobodyOwes(clients: seq<Client>)
    requires forall i :: 0 <= i < |clients| ==> clients[i] == Gone
    ensures ClientsOwe(clients) == 0
  {
    if clients != [] {
      NobodyOwes(clients[1..]);
    }
  }

  /** A connection is refused only at the limit, and admitted only below it. */
  lemma AdmittedBelowLimit(s: State, mallocFails: bool, createFails: bool)
    requires Invariant(s) && s.loop == Checking
    ensures var t := LoopStep(s, mallocFails, createFails);
            if Outstanding(s) == 16 then t == s.(holder := Nobody, loop := Idle)
            else Outstanding(LoopStep(t, mallocFails, createFails)) == Outstanding(s) + 1
  {
    hide ClientsOwe;
  }

  // ----- Progress -----

  /** A client at the lock, if it is free, needs four steps to be gone, and then counts no more. */
  lemma ClientLeaves(s: State, i: nat)
    requires Invariant(s) && i < |s.clients| && s.clients[i] == Waiting && s.holder == Nobody
    ensures var t := Thread(i);
            Run(s, [t, t, t, t]) == s.(active := s.active - 1, clients := s.clients[i := Gone])
  {
    var t := Thread(i);
    RunFour(s, t);
  }

  lemma RunFour(s: State, a: Action)
    ensures Run(s, [a, a, a, a]) == Step(Step(Step(Step(s, a), a), a), a)
  {
    hide Step;
    assert [a, a, a, a][1..] == [a, a, a] && [a, a, a][1..] == [a, a] && [a, a][1..] == [a] && [a][1..] == [];
    var s1, s2, s3 := Step(s, a), Step(Step(s, a), a), Step(Step(Step(s, a), a), a);
    assert Run(s, [a, a, a, a]) == Run(s1, [a, a, a]) == Run(s2, [a, a]) == Run(s3, [a]) == Run(Step(s3, a), []);
  }

  /** An accepted connection with the lock free: below the limit it is counted and gets its thread in five steps. */
  lemma LoopAdmits(s: State)
    requires Invariant(s) && s.loop == AtLock && s.holder == Nobody && s.active < 16
    ensures var a := Loop(false, false);
            Step(Run(s, [a, a, a, a]), a) == s.(active := s.active + 1, loop := Idle, clients := s.clients + [Serving])
  {
    RunFour(s, Loop(false, false));
  }

  /** When malloc or pthread_create fails, the count is taken back in four more steps and nothing else has changed. */
  lemma LoopUndoes(s: State, a: Action)
    requires Invariant(s) && s.loop == AtLock && s.holder == Nobody && s.active < 16
    requires a.Loop? && (a.mallocFails || a.createFails)
    ensures var t := Step(Run(s, [a, a, a, a]), a);
            t.loop == UndoAtLock && t.holder == Nobody && Run(t, [a, a, a, a]) == s.(loop := Idle)
  {
    RunFour(s, a);
    UndoRuns(Step(Run(s, [a, a, a, a]), a), a);
    hide Run;
  }

  lemma UndoRuns(s: State, a: Action)
    requires a.Loop? && s.loop == UndoAtLock && s.holder == Nobody
    ensures Run(s, [a, a, a, a]) == s.(active := s.active - 1, loop := Idle)
  {
    RunFour(s, a);
  }

  /** Nobody waits for ever for a lock that is not given back: in every reachable state someone can move. */
  lemma SomeoneMoves(s: State)
    requires Invariant(s)
    ensures exists a :: Step(s, a) != s
  {
    hide ClientsOwe;
    if s.holder.TheClient? {
      var i := s.holder.i;
      assert Step(s, Thread(i)).clients[i] != s.clients[i];
    } else {
      assert Step(s, Loop(true, true)).loop != s.loop;
    }
  }
}
