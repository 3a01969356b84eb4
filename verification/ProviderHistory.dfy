/** Whole histories of a process: any number of registries and mapping owners, drawing on the two
    process-wide counters, with registrations, retirements, new mappings, moves and teardowns in any
    order. */
module ProviderHistory {
  import opened Machine
  import opened ProviderRegistry

  /** A token together with the registry that issued it. */
  datatype Issue = Issue(registry: nat, token: Token)

  /** The registries in order of creation, the epoch that each mapping owner holds, the two counters,
      and everything handed out so far: epochs, tokens, retired tokens. */
  datatype World = World(
    registries: seq<Registry>, owners: seq<u64>, nextId: u64, nextEpoch: u64,
    epochs: seq<u64>, issued: seq<Issue>, retired: set<Issue>)

  const START: World := World([], [], 1, 1, [], [], {})

  datatype Event =
    | Create
    | Register(registry: nat, owner: nat, live: bool, key: string, address: u64, executable: bool)
    | Retire(registry: nat, token: Token)
    | Prepare
    | MoveInto(from: nat, to: nat)
    | MoveOut(from: nat)
    | Reset(owner: nat)

  /** What an access through an owner reports: its epoch, or zero while there is no live plan. */
  function Visible(w: World, owner: nat, live: bool): (epoch: u64)
    requires owner < |w.owners|
  {
    if live then w.owners[owner] else 0
  }

  /** One event; an event that names a registry or an owner that does not exist does nothing. */
  function Step(w: World, e: Event): (r: World) {
    match e
    case Create =>
      w.(registries := w.registries + [Registry(w.nextId, 1, [])], nextId := (w.nextId + 1) % TWO64)
    case Register(k, o, live, key, address, executable) =>
      if k >= |w.registries| || o >= |w.owners| then w
      else
        var (result, reg) := ProviderRegistry.Register(w.registries[k], key, address, Visible(w, o, live), executable);
        w.(registries := w.registries[k := reg],
           issued := if result.Ok? then w.issued + [Issue(k, result.value)] else w.issued)
    case Retire(k, token) =>
      if k >= |w.registries| then w
      else
        var (done, reg) := ProviderRegistry.Retire(w.registries[k], token);
        w.(registries := w.registries[k := reg], retired := if done then w.retired + {Issue(k, token)} else w.retired)
    case Prepare =>
      if w.nextEpoch == 0 || w.nextEpoch == U64_MAX then w
      else w.(owners := w.owners + [w.nextEpoch], epochs := w.epochs + [w.nextEpoch], nextEpoch := w.nextEpoch + 1)
    case MoveInto(from, to) =>
      if from >= |w.owners| || to >= |w.owners| || from == to then w
      else w.(owners := w.owners[to := w.owners[from]][from := 0])
    case MoveOut(from) =>
      if from >= |w.owners| then w else w.(owners := w.owners[from := 0] + [w.owners[from]])
    case Reset(o) => if o >= |w.owners| then w else w.(owners := w.owners[o := 0])
  }

  function Run(w: World, events: seq<Event>): (r: World)
    decreases |events|
  {
    if events == [] then w else Run(Step(w, events[0]), events[1..])
  }

  // ----- what every history keeps -----

  /** Registry `k` has the identity that the wrapping counter gave it. */
  ghost predicate IdsCounted(w: World) {
    && w.nextId == RegistryId(|w.registries|)
    && forall k :: 0 <= k < |w.registries| ==> w.registries[k].id == RegistryId(k)
  }

  /** Epochs were handed out as 1, 2, 3 and so on, and no two owners hold the same one. */
  ghost predicate EpochsApart(w: World) {
    && w.nextEpoch == |w.epochs| + 1
    && (forall i :: 0 <= i < |w.epochs| ==> w.epochs[i] == i + 1)
    && (forall o :: 0 <= o < |w.owners| ==> w.owners[o] < w.nextEpoch)
    && (forall o, p :: 0 <= o < p < |w.owners| && w.owners[o] != 0 ==> w.owners[o] != w.owners[p])
  }

  /** The active tokens of a registry are those it issued and has not retired. */
  ghost predicate Tracked(reg: Registry, k: nat, issued: seq<Issue>, retired: set<Issue>) {
    && Sound(reg)
    && (forall i :: 0 <= i < |issued| && issued[i].registry == k ==>
          && issued[i].token.registryId == reg.id != 0 && 0 < issued[i].token.generation < reg.next)
    && (forall t :: t in reg.active <==> Issue(k, t) in issued && Issue(k, t) !in retired)
  }

  ghost predicate TokensTracked(w: World) {
    && (forall k :: 0 <= k < |w.registries| ==> Tracked(w.registries[k], k, w.issued, w.retired))
    && (forall i :: 0 <= i < |w.issued| ==>
          w.issued[i].registry < |w.registries| && 0 < w.issued[i].token.epoch < w.nextEpoch)
    && (forall x :: x in w.retired ==> x in w.issued)
  }

  /** Later tokens of the same registry have larger generations. */
  ghost predicate GenerationsGrow(issued: seq<Issue>) {
    forall i, j :: 0 <= i < j < |issued| && issued[i].registry == issued[j].registry ==>
      issued[i].token.generation < issued[j].token.generation
  }

  ghost predicate Consistent(w: World) {
    IdsCounted(w) && EpochsApart(w) && TokensTracked(w) && GenerationsGrow(w.issued)
  }

  lemma CreateConsistent(w: World)
    requires Consistent(w)
    ensures Consistent(Step(w, Create))
  {
    hide Sound, EpochsApart, GenerationsGrow;
    var w' := Step(w, Create);
    var k := |w.registries|;
    assert (w.nextId + 1) % TWO64 == RegistryId(k + 1);
    assert Tracked(w'.registries[k], k, w.issued, w.retired) by {
      FreshTracked(RegistryId(k), k, w.issued, w.retired);
    }
    assert EpochsApart(w') by {
      SameEpochs(w, w');
    }
  }

  lemma FreshTracked(id: u64, k: nat, issued: seq<Issue>, retired: set<Issue>)
    requires forall i :: 0 <= i < |issued| ==> issued[i].registry < k
    ensures Tracked(Registry(id, 1, []), k, issued, retired)
  {
  }

  lemma SameEpochs(w: World, w': World)
    requires EpochsApart(w) && w'.owners == w.owners && w'.epochs == w.epochs && w'.nextEpoch == w.nextEpoch
    ensures EpochsApart(w')
  {
  }

  lemma RegisterConsistent(w: World, k: nat, o: nat, live: bool, key: string, address: u64, executable: bool)
    requires Consistent(w)
    ensures Consistent(Step(w, Register(k, o, live, key, address, executable)))
  {
    if k < |w.registries| && o < |w.owners| {
      var reg, epoch := w.registries[k], Visible(w, o, live);
      var (result, after) := ProviderRegistry.Register(reg, key, address, epoch, executable);
      if result.Err? {
        assert w.registries[k := after] == w.registries;
      } else {
        hide Sound, ProviderRegistry.Register;
        RegisterTracked(w, k, key, address, epoch, executable);
        OthersTracked(w, k, result.value);
        SameEpochs(w, Step(w, Register(k, o, live, key, address, executable)));
      }
    }
  }

  /** The registering registry stays tracked. */
  lemma RegisterTracked(w: World, k: nat, key: string, address: u64, epoch: u64, executable: bool)
    requires Consistent(w) && k < |w.registries|
    requires ProviderRegistry.Register(w.registries[k], key, address, epoch, executable).0.Ok?
    ensures var (result, after) := ProviderRegistry.Register(w.registries[k], key, address, epoch, executable);
            var issued := w.issued + [Issue(k, result.value)];
            && Tracked(after, k, issued, w.retired) && GenerationsGrow(issued) && after.id == w.registries[k].id
            && result.value.epoch == epoch != 0
  {
    hide Sound;
    var reg := w.registries[k];
    var (result, after) := ProviderRegistry.Register(reg, key, address, epoch, executable);
    RegisterSound(reg, key, address, epoch, executable);
    assert Tracked(reg, k, w.issued, w.retired);
    var token, issue := result.value, Issue(k, result.value);
    assert issue !in w.issued;
    assert issue !in w.retired;
    forall t
      ensures t in after.active <==> Issue(k, t) in w.issued + [issue] && Issue(k, t) !in w.retired
    {
      assert t in after.active <==> t in reg.active || t == token;
      assert Issue(k, t) in w.issued + [issue] <==> Issue(k, t) in w.issued || t == token;
    }
  }

  /** The other registries do not notice. */
  lemma OthersTracked(w: World, k: nat, token: Token)
    requires TokensTracked(w)
    ensures forall j :: 0 <= j < |w.registries| && j != k ==>
              Tracked(w.registries[j], j, w.issued + [Issue(k, token)], w.retired)
  {
    hide Sound;
    forall j | 0 <= j < |w.registries| && j != k
      ensures Tracked(w.registries[j], j, w.issued + [Issue(k, token)], w.retired)
    {
      assert Tracked(w.registries[j], j, w.issued, w.retired);
      forall t
        ensures Issue(j, t) in w.issued + [Issue(k, token)] <==> Issue(j, t) in w.issued
      {
      }
    }
  }

  lemma RetireConsistent(w: World, k: nat, token: Token)
    requires Consistent(w)
    ensures Consistent(Step(w, Retire(k, token)))
  {
    hide Sound, RemoveFirst;
    if k < |w.registries| {
      var reg := w.registries[k];
      assert Tracked(reg, k, w.issued, w.retired);
      RetireSound(reg, token);
      if token !in reg.active {
        assert w.registries[k := reg] == w.registries;
      } else {
        var w' := Step(w, Retire(k, token));
        SameEpochs(w, w');
        forall j | 0 <= j < |w'.registries|
          ensures Tracked(w'.registries[j], j, w'.issued, w'.retired)
        {
          assert Tracked(w.registries[j], j, w.issued, w.retired);
        }
      }
    }
  }

  /** The events of mapping owners keep epochs apart and leave registries alone. */
  lemma OwnersConsistent(w: World, e: Event)
    requires Consistent(w) && (e.Prepare? || e.MoveInto? || e.MoveOut? || e.Reset?)
    ensures Consistent(Step(w, e))
  {
    hide Tracked, GenerationsGrow;
  }

  lemma StepConsistent(w: World, e: Event)
    requires Consistent(w)
    ensures Consistent(Step(w, e))
  {
    hide Consistent, Step;
    match e
    case Create => CreateConsistent(w);
    case Register(k, o, live, key, address, executable) => RegisterConsistent(w, k, o, live, key, address, executable);
    case Retire(k, token) => RetireConsistent(w, k, token);
    case _ => OwnersConsistent(w, e);
  }

  /** Every history of the process stays consistent: identities are counted, epochs are apart, active
      tokens are those issued and not retired, keys and addresses are unique, generations grow. */
  lemma {:induction false} RunConsistent(w: World, events: seq<Event>)
    requires Consistent(w)
    ensures Consistent(Run(w, events))
    decreases |events|
  {
    hide Consistent, Step;
    if events != [] {
      StepConsistent(w, events[0]);
      RunConsistent(Step(w, events[0]), events[1..]);
    }
  }

  lemma StartConsistent()
    ensures Consistent(START)
  {
  }

  // ----- epochs -----

  /** Epochs handed out at different times differ, and so do those of any two owners. */
  lemma EpochsAreNeverReused(events: seq<Event>)
    ensures var w := Run(START, events);
            && (forall i, j :: 0 <= i < j < |w.epochs| ==> 0 < w.epochs[i] < w.epochs[j])
            && (forall o, p :: 0 <= o < p < |w.owners| && w.owners[o] != 0 ==> w.owners[o] != w.owners[p])
            && (forall o :: 0 <= o < |w.owners| && w.owners[o] != 0 ==> w.owners[o] in w.epochs)
  {
    hide Run, IdsCounted, TokensTracked, GenerationsGrow;
    StartConsistent();
    RunConsistent(START, events);
    var w := Run(START, events);
    forall o | 0 <= o < |w.owners| && w.owners[o] != 0
      ensures w.owners[o] in w.epochs
    {
      assert w.epochs[w.owners[o] - 1] == w.owners[o];
    }
  }

  /** Once the counter has reached its last value no epoch is ever handed out again. */
  lemma {:induction false} ExhaustionIsPermanent(w: World, events: seq<Event>)
    requires w.nextEpoch == U64_MAX
    ensures Run(w, events).nextEpoch == U64_MAX && Run(w, events).epochs == w.epochs
    ensures Step(Run(w, events), Prepare) == Run(w, events)
    decreases |events|
  {
    if events != [] {
      ExhaustionIsPermanent(Step(w, events[0]), events[1..]);
    }
  }

  /** Exhaustion takes exactly 2^64 - 2 mappings; before that every request for an epoch succeeds. */
  lemma PrepareFailsExactlyWhenExhausted(w: World)
    requires Consistent(w)
    ensures Step(w, Prepare) == w <==> |w.epochs| == U64_MAX - 1
  {
    hide IdsCounted, TokensTracked, GenerationsGrow;
    assert Step(w, Prepare) != w ==> |Step(w, Prepare).epochs| == |w.epochs| + 1;
  }

  ghost predicate Unheld(w: World, epoch: u64) {
    forall o :: 0 <= o < |w.owners| ==> w.owners[o] != epoch
  }

  /** An epoch that was handed out and is held by no owner is never held again. */
  lemma {:induction false} UnheldStaysUnheld(w: World, events: seq<Event>, epoch: u64)
    requires Consistent(w) && 0 < epoch < w.nextEpoch && Unheld(w, epoch)
    ensures Unheld(Run(w, events), epoch)
    decreases |events|
  {
    hide IdsCounted, TokensTracked, GenerationsGrow, EpochsApart;
    if events != [] {
      StepConsistent(w, events[0]);
      UnheldStep(w, events[0], epoch);
      UnheldStaysUnheld(Step(w, events[0]), events[1..], epoch);
    }
  }

  lemma UnheldStep(w: World, e: Event, epoch: u64)
    requires 0 < epoch < w.nextEpoch && Unheld(w, epoch)
    ensures epoch < Step(w, e).nextEpoch && Unheld(Step(w, e), epoch)
  {
  }

  // ----- tokens -----

  /** Some access through some owner would accept the token in registry `k`. */
  ghost predicate Usable(w: World, k: nat, t: Token) {
    k < |w.registries| && exists o, live, address :: CurrentFor(w, k, t, o, live, address)
  }

  ghost predicate CurrentFor(w: World, k: nat, t: Token, o: nat, live: bool, address: u64)
    requires k < |w.registries|
  {
    o < |w.owners| && IsCurrent(w.registries[k], t, address, Visible(w, o, live))
  }

  /** A token is accepted through at most one owner: the one that holds its epoch. */
  lemma CurrentForOneOwner(w: World, k: nat, j: nat, t: Token, o: nat, live: bool, a: u64, p: nat, live': bool, b: u64)
    requires Consistent(w) && k < |w.registries| && j < |w.registries|
    requires CurrentFor(w, k, t, o, live, a) && CurrentFor(w, j, t, p, live', b)
    ensures o == p && w.owners[o] == t.epoch
  {
    hide IdsCounted, TokensTracked, GenerationsGrow;
  }

  lemma GenerationsAreNeverReused(events: seq<Event>, i: nat, j: nat)
    requires i < j < |Run(START, events).issued|
    requires Run(START, events).issued[i].registry == Run(START, events).issued[j].registry
    ensures Run(START, events).issued[i].token.generation < Run(START, events).issued[j].token.generation
  {
    hide Run, IdsCounted, TokensTracked, EpochsApart;
    StartConsistent();
    RunConsistent(START, events);
  }

  /** Registries stay, and what was issued or retired stays so. */
  lemma {:induction false} HistoryGrows(w: World, events: seq<Event>)
    ensures |w.registries| <= |Run(w, events).registries|
    ensures w.retired <= Run(w, events).retired && w.issued <= Run(w, events).issued
    decreases |events|
  {
    if events != [] {
      StepGrows(w, events[0]);
      HistoryGrows(Step(w, events[0]), events[1..]);
    }
  }

  lemma StepGrows(w: World, e: Event)
    ensures |w.registries| <= |Step(w, e).registries|
    ensures w.retired <= Step(w, e).retired && w.issued <= Step(w, e).issued
  {
    hide ProviderRegistry.Register, ProviderRegistry.Retire;
  }

  /** A retired token is never current again in its registry, at any address and for any epoch,
      whatever is registered later, even for the same key and address. */
  lemma RetiredStaysRetired(w: World, events: seq<Event>, k: nat, t: Token)
    requires Consistent(w) && Issue(k, t) in w.retired
    ensures k < |Run(w, events).registries|
    ensures forall address, epoch :: !IsCurrent(Run(w, events).registries[k], t, address, epoch)
  {
    hide Run, IdsCounted, EpochsApart, GenerationsGrow, Sound;
    RunConsistent(w, events);
    HistoryGrows(w, events);
    var after := Run(w, events);
    assert Issue(k, t) in after.issued;
    assert Tracked(after.registries[k], k, after.issued, after.retired);
  }

  /** Retiring an active token succeeds, and from then on the token is dead in its registry. */
  lemma RetirementIsFinal(w: World, k: nat, t: Token, events: seq<Event>)
    requires Consistent(w) && k < |w.registries| && t in w.registries[k].active
    ensures var after := Run(Step(w, Retire(k, t)), events);
            && k < |after.registries|
            && forall address, epoch :: !IsCurrent(after.registries[k], t, address, epoch)
  {
    hide Run, Consistent, IsCurrent;
    StepConsistent(w, Retire(k, t));
    RetiredStaysRetired(Step(w, Retire(k, t)), events, k, t);
  }

  /** A token whose epoch no owner holds any more is dead everywhere: in every registry and for every
      owner, those created later included. */
  lemma StaleEpochStaysStale(w: World, events: seq<Event>, t: Token, k: nat)
    requires Consistent(w) && t.epoch < w.nextEpoch && (t.epoch == 0 || Unheld(w, t.epoch))
    ensures !Usable(Run(w, events), k, t)
  {
    hide Run, Consistent;
    if t.epoch != 0 {
      UnheldStaysUnheld(w, events, t.epoch);
    }
  }

  /** Tearing a mapping down, or moving another one over it, kills every token bound to it. */
  lemma TeardownKillsTokens(w: World, o: nat, from: nat, events: seq<Event>, t: Token, k: nat)
    requires Consistent(w) && o < |w.owners| && from < |w.owners| && from != o && t.epoch == w.owners[o]
    ensures !Usable(Run(Step(w, Reset(o)), events), k, t)
    ensures !Usable(Run(Step(w, MoveInto(from, o)), events), k, t)
  {
    hide Run, Usable, IdsCounted, TokensTracked, GenerationsGrow;
    StepConsistent(w, Reset(o));
    StepConsistent(w, MoveInto(from, o));
    StaleEpochStaysStale(Step(w, Reset(o)), events, t, k);
    StaleEpochStaysStale(Step(w, MoveInto(from, o)), events, t, k);
  }

  /** Moving a mapping keeps its tokens alive: they follow the epoch to the new owner. */
  lemma TokensFollowTheirMapping(w: World, from: nat, to: nat, k: nat, t: Token, address: u64)
    requires from < |w.owners| && to < |w.owners| && from != to && k < |w.registries|
    requires CurrentFor(w, k, t, from, true, address)
    ensures CurrentFor(Step(w, MoveInto(from, to)), k, t, to, true, address)
  {
  }

  // ----- tokens of other registries -----

  /** The identity counter wraps, so identities repeat exactly every 2^64 registries. */
  lemma IdsRepeat(i: nat, j: nat)
    ensures RegistryId(i) == RegistryId(j) <==> (i - j) % TWO64 == 0
  {
    assert (i - j) % TWO64 == ((i + 1) % TWO64 - (j + 1) % TWO64) % TWO64;
  }

  /** A token can be current in a registry that did not issue it only if a multiple of 2^64 registries
      lies between the two. */
  lemma ForeignTokensAreNeverCurrent(events: seq<Event>, i: nat, j: nat, t: Token)
    requires Issue(i, t) in Run(START, events).issued && Usable(Run(START, events), j, t)
    ensures (i - j) % TWO64 == 0 && RegistryId(i) != 0
  {
    hide Run, EpochsApart, GenerationsGrow, Sound;
    StartConsistent();
    RunConsistent(START, events);
    var w := Run(START, events);
    assert Tracked(w.registries[i], i, w.issued, w.retired);
    assert t.registryId == RegistryId(i) == RegistryId(j);
    IdsRepeat(i, j);
  }

  /** So with at most 2^64 registries in the process, tokens are valid in their issuing registry only. */
  lemma TokensBelongToTheirRegistry(events: seq<Event>, i: nat, j: nat, t: Token)
    requires |Run(START, events).registries| <= TWO64
    requires Issue(i, t) in Run(START, events).issued && Usable(Run(START, events), j, t)
    ensures i == j
  {
    hide Run, EpochsApart, GenerationsGrow, Tracked;
    StartConsistent();
    RunConsistent(START, events);
    ForeignTokensAreNeverCurrent(events, i, j, t);
    assert i < TWO64 && j < TWO64;
  }

  /** Some history leads to a token of registry `i` that is current in registry `j`. */
  ghost predicate CanCross(i: nat, j: nat) {
    exists events, t :: Issue(i, t) in Run(START, events).issued && Usable(Run(START, events), j, t)
  }

  function Creates(n: nat): (events: seq<Event>) {
    if n == 0 then [] else Creates(n - 1) + [Create]
  }

  /** A process that has created `n` registries and done nothing else. */
  ghost predicate Created(w: World, n: nat) {
    && |w.registries| == n && (forall k :: 0 <= k < n ==> w.registries[k] == NewRegistry(k))
    && w == START.(registries := w.registries, nextId := RegistryId(n))
  }

  lemma {:induction false} RunAppend(w: World, a: seq<Event>, b: seq<Event>)
    ensures Run(w, a + b) == Run(Run(w, a), b)
    decreases |a|
  {
    hide Step;
    if a == [] {
      assert a + b == b;
    } else {
      assert (a + b)[1..] == a[1..] + b;
      RunAppend(Step(w, a[0]), a[1..], b);
    }
  }

  lemma {:induction false} CreatesRun(n: nat)
    ensures Created(Run(START, Creates(n)), n)
  {
    hide Step;
    if n > 0 {
      CreatesRun(n - 1);
      RunAppend(START, Creates(n - 1), [Create]);
      RunOne(Run(START, Creates(n - 1)), Create);
      CreateOne(Run(START, Creates(n - 1)), n - 1);
    }
  }

  lemma CreateOne(w: World, n: nat)
    requires Created(w, n)
    ensures Created(Step(w, Create), n + 1)
  {
    var id := RegistryId(n);
    assert (id + 1) % TWO64 == RegistryId(n + 1);
  }

  lemma RunOne(w: World, e: Event)
    ensures Run(w, [e]) == Step(w, e)
  {
    hide Step;
    assert [e][1..] == [];
  }

  const CROSSING: Token := Token(1, 1, 1, "m", 1)

  /** Registering the same key and address first in `i` and then in `j`, under the same mapping. */
  function Crossing(i: nat, j: nat): (events: seq<Event>) {
    Creates((if i < j then j else i) + 1)
    + [Prepare, Register(i, 0, true, "m", 1, true), Register(j, 0, true, "m", 1, true)]
  }

  /** The two registrations give equal tokens whenever the identities are equal. */
  lemma CrossingCrosses(i: nat, j: nat)
    requires i != j && RegistryId(i) == RegistryId(j) != 0
    ensures CanCross(i, j)
  {
    var n := (if i < j then j else i) + 1;
    var tail := [Prepare, Register(i, 0, true, "m", 1, true), Register(j, 0, true, "m", 1, true)];
    CreatesRun(n);
    RunAppend(START, Creates(n), tail);
    var w := Run(START, Creates(n));
    CrossingTail(w, n, i, j);
    var t := CROSSING.(registryId := RegistryId(i));
    assert Issue(i, t) in Run(START, Crossing(i, j)).issued && Usable(Run(START, Crossing(i, j)), j, t);
  }

  lemma CrossingTail(w: World, n: nat, i: nat, j: nat)
    requires Created(w, n) && i < n && j < n && i != j && RegistryId(i) == RegistryId(j) != 0
    ensures var tail := [Prepare, Register(i, 0, true, "m", 1, true), Register(j, 0, true, "m", 1, true)];
            var t := CROSSING.(registryId := RegistryId(i));
            Issue(i, t) in Run(w, tail).issued && Usable(Run(w, tail), j, t)
  {
    hide RegistryId, Usable;
    var t := CROSSING.(registryId := RegistryId(i));
    var first, second := Register(i, 0, true, "m", 1, true), Register(j, 0, true, "m", 1, true);
    var w1 := Step(w, Prepare);
    var w2 := Step(w1, first);
    var w3 := Step(w2, second);
    assert [Prepare, first, second][1..] == [first, second] && [first, second][1..] == [second];
    RunOne(w2, second);
    assert Run(w, [Prepare, first, second]) == w3;
    assert w1.owners == [1];
    assert w2.issued == [Issue(i, t)] && w2.registries[j] == NewRegistry(j);
    assert w3.issued == [Issue(i, t), Issue(j, t)];
    assert CurrentFor(w3, j, t, 0, true, 1);
    CrossingUsable(w3, j, t);
  }

  lemma CrossingUsable(w: World, j: nat, t: Token)
    requires j < |w.registries| && CurrentFor(w, j, t, 0, true, 1)
    ensures Usable(w, j, t)
  {
  }

  /** Exactly when tokens cross: some history makes a token of registry `i` current in another
      registry `j` if and only if their positions differ by a multiple of 2^64 and registry `i` did not
      get the dead identity zero. */
  lemma TokensCrossExactly(i: nat, j: nat)
    requires i != j
    ensures CanCross(i, j) <==> (i - j) % TWO64 == 0 && RegistryId(i) != 0
  {
    hide RegistryId, Run, Usable;
    if CanCross(i, j) {
      var events, t :| Issue(i, t) in Run(START, events).issued && Usable(Run(START, events), j, t);
      ForeignTokensAreNeverCurrent(events, i, j, t);
    }
    IdsRepeat(i, j);
    if (i - j) % TWO64 == 0 && RegistryId(i) != 0 {
      CrossingCrosses(i, j);
    }
  }

  /** The failing input: the first registry and the one created 2^64 registries later. */
  lemma WrappedIdentityCrosses()
    ensures CanCross(TWO64, 0) && CanCross(0, TWO64)
  {
    hide CanCross;
    TokensCrossExactly(TWO64, 0);
    TokensCrossExactly(0, TWO64);
  }
}
