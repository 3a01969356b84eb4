/** The provider registry, its generation tokens, and the batches bound to them. */
module ProviderRegistry {
  import opened Machine
  import opened MemoryPlan
  import opened GuestMemory
  import opened Patches
  import opened ImportBatch

  const MAX_ACTIVE: nat := 64
  const MAX_KEY: nat := 128

  datatype Token = Token(registryId: u64, generation: u64, epoch: u64, key: string, address: u64)

  datatype RegistryError =
    | InvalidModuleKey | InvalidProviderAddress | DuplicateActiveModule | DuplicateActiveAddress
    | TooManyActiveProviders | GenerationExhausted

  // ----- the registry as a value -----

  datatype Registry = Registry(id: u64, next: u64, active: seq<Token>)

  /** The identity of the `k`-th registry of the process, counted from zero. */
  function RegistryId(k: nat): (id: u64) {
    (k + 1) % TWO64
  }

  function NewRegistry(k: nat): (reg: Registry) {
    Registry(RegistryId(k), 1, [])
  }

  predicate KeyOk(key: string) {
    0 < |key| <= MAX_KEY && '\0' !in key
  }

  /** The first active provider that shares the key or the address decides the error. */
  function FirstClash(active: seq<Token>, key: string, address: u64): (r: Option<RegistryError>)
    ensures r.None? <==> forall i :: 0 <= i < |active| ==> active[i].key != key && active[i].address != address
  {
    if active == [] then None
    else if active[0].key == key then Some(DuplicateActiveModule)
    else if active[0].address == address then Some(DuplicateActiveAddress)
    else FirstClash(active[1..], key, address)
  }

  /** Registration, given the current mapping epoch and whether the address is executable now. */
  function Register(reg: Registry, key: string, address: u64, epoch: u64, executable: bool)
    : (r: (Result<Token, RegistryError>, Registry))
  {
    if !KeyOk(key) then (Err(InvalidModuleKey), reg)
    else if address == 0 || epoch == 0 || !executable then (Err(InvalidProviderAddress), reg)
    else
      var clash := FirstClash(reg.active, key, address);
      if clash.Some? then (Err(clash.value), reg)
      else if |reg.active| >= MAX_ACTIVE then (Err(TooManyActiveProviders), reg)
      else if reg.id == 0 || reg.next == U64_MAX then (Err(GenerationExhausted), reg)
      else
        var token := Token(reg.id, reg.next, epoch, key, address);
        (Ok(token), Registry(reg.id, reg.next + 1, reg.active + [token]))
  }

  /** When registration succeeds, and what it gives: a token with the next generation, bound to the
      epoch, appended to the active ones. */
  lemma RegistrationSucceeds(reg: Registry, key: string, address: u64, epoch: u64, executable: bool)
    ensures var (r, after) := Register(reg, key, address, epoch, executable);
            && (r.Ok? <==>
                  && 1 <= |key| <= 128 && (forall i :: 0 <= i < |key| ==> key[i] != '\0')
                  && address != 0 && epoch != 0 && executable
                  && (forall i :: 0 <= i < |reg.active| ==>
                        reg.active[i].key != key && reg.active[i].address != address)
                  && |reg.active| < 64 && reg.id != 0 && reg.next < U64_MAX)
            && (r.Ok? ==>
                  && r.value.registryId == reg.id && r.value.generation == reg.next && r.value.epoch == epoch
                  && r.value.key == key && r.value.address == address
                  && after.id == reg.id && after.next == reg.next + 1 && after.active == reg.active + [r.value])
            && (r.Err? ==> after == reg)
  {
  }

  /** Which refusal is reported: they are looked at in this order, and among active providers the first
      that shares the key or the address decides. */
  lemma RegistrationRefusals(reg: Registry, key: string, address: u64, epoch: u64, executable: bool, k: nat)
    ensures var r := Register(reg, key, address, epoch, executable).0;
            var keyOk := 1 <= |key| <= 128 && forall i :: 0 <= i < |key| ==> key[i] != '\0';
            var addressOk := address != 0 && epoch != 0 && executable;
            && (r == Err(InvalidModuleKey) <==> !keyOk)
            && (r == Err(InvalidProviderAddress) <==> keyOk && !addressOk)
            && (keyOk && addressOk && FirstSharing(reg.active, key, address, k) ==>
                  r == Err(if reg.active[k].key == key then DuplicateActiveModule else DuplicateActiveAddress))
            && (r == Err(TooManyActiveProviders) <==>
                  keyOk && addressOk && NoneSharing(reg.active, key, address) && |reg.active| >= 64)
            && (r == Err(GenerationExhausted) <==>
                  && keyOk && addressOk && NoneSharing(reg.active, key, address) && |reg.active| < 64
                  && (reg.id == 0 || reg.next == U64_MAX))
  {
    if FirstSharing(reg.active, key, address, k) {
      FirstClashIs(reg.active, key, address, k);
    }
    ClashCodes(reg.active, key, address);
  }

  predicate NoneSharing(active: seq<Token>, key: string, address: u64) {
    forall i :: 0 <= i < |active| ==> active[i].key != key && active[i].address != address
  }

  predicate FirstSharing(active: seq<Token>, key: string, address: u64, k: nat) {
    && k < |active| && (active[k].key == key || active[k].address == address)
    && forall i :: 0 <= i < k ==> active[i].key != key && active[i].address != address
  }

  lemma {:induction false} FirstClashIs(active: seq<Token>, key: string, address: u64, k: nat)
    requires FirstSharing(active, key, address, k)
    ensures FirstClash(active, key, address)
         == Some(if active[k].key == key then DuplicateActiveModule else DuplicateActiveAddress)
    decreases k
  {
    if k > 0 {
      FirstClashIs(active[1..], key, address, k - 1);
    }
  }

  lemma {:induction false} ClashCodes(active: seq<Token>, key: string, address: u64)
    ensures FirstClash(active, key, address).Some? ==>
              FirstClash(active, key, address).value in {DuplicateActiveModule, DuplicateActiveAddress}
  {
    if active != [] {
      ClashCodes(active[1..], key, address);
    }
  }

  function RemoveFirst(active: seq<Token>, t: Token): (r: seq<Token>) {
    if active == [] then []
    else if active[0] == t then active[1..]
    else [active[0]] + RemoveFirst(active[1..], t)
  }

  function Retire(reg: Registry, t: Token): (r: (bool, Registry)) {
    if t in reg.active then (true, reg.(active := RemoveFirst(reg.active, t))) else (false, reg)
  }

  predicate IsCurrent(reg: Registry, t: Token, address: u64, epoch: u64) {
    && t.registryId == reg.id && t.registryId != 0 && t.generation != 0
    && t.epoch != 0 && t.epoch == epoch && t.address == address
    && t in reg.active
  }

  /** Active tokens are this registry's own, in order of issue, with distinct keys and addresses. */
  ghost predicate Sound(reg: Registry) {
    && reg.next >= 1 && |reg.active| <= MAX_ACTIVE
    && (forall i :: 0 <= i < |reg.active| ==>
          && reg.active[i].registryId == reg.id && 0 < reg.active[i].generation < reg.next
          && KeyOk(reg.active[i].key) && reg.active[i].address != 0 && reg.active[i].epoch != 0)
    && (forall i, j :: 0 <= i < j < |reg.active| ==>
          && reg.active[i].generation < reg.active[j].generation
          && reg.active[i].key != reg.active[j].key
          && reg.active[i].address != reg.active[j].address)
  }

  lemma RegisterSound(reg: Registry, key: string, address: u64, epoch: u64, executable: bool)
    requires Sound(reg)
    ensures Sound(Register(reg, key, address, epoch, executable).1)
  {
  }

  lemma {:induction false} RemoveFirstIs(active: seq<Token>, t: Token, k: nat)
    requires k < |active| && active[k] == t && forall j :: 0 <= j < k ==> active[j] != t
    ensures RemoveFirst(active, t) == active[..k] + active[k + 1..]
    decreases k
  {
    if k > 0 {
      RemoveFirstIs(active[1..], t, k - 1);
      assert active[..k] == [active[0]] + active[1..][..k - 1];
      assert active[k + 1..] == active[1..][k..];
    } else {
      assert active[..0] + active[1..] == active[1..];
    }
  }

  lemma {:induction false} RemoveFirstAt(active: seq<Token>, t: Token) returns (k: nat)
    requires t in active
    ensures k < |active| && active[k] == t && RemoveFirst(active, t) == active[..k] + active[k + 1..]
  {
    if active[0] == t {
      k := 0;
      assert active == [active[0]] + active[1..];
    } else {
      var k' := RemoveFirstAt(active[1..], t);
      k := k' + 1;
      assert active[..k] == [active[0]] + active[1..][..k'];
      assert active[k + 1..] == active[1..][k' + 1..];
    }
  }

  lemma RetireSound(reg: Registry, t: Token)
    requires Sound(reg)
    ensures Sound(Retire(reg, t).1)
    ensures forall x :: x in Retire(reg, t).1.active <==> x in reg.active && x != t
  {
    if t in reg.active {
      var k := RemoveFirstAt(reg.active, t);
      var rest := reg.active[..k] + reg.active[k + 1..];
      RestSound(reg, k, rest);
      forall x
        ensures x in rest <==> x in reg.active && x != t
      {
        RestMembers(reg, k, rest, x);
      }
    }
  }

  /** What is left after removing one token. */
  ghost predicate IsRest(reg: Registry, k: nat, rest: seq<Token>) {
    && k < |reg.active| && |rest| == |reg.active| - 1
    && (forall i :: 0 <= i < k ==> rest[i] == reg.active[i])
    && (forall i :: k <= i < |rest| ==> rest[i] == reg.active[i + 1])
  }

  lemma RestSound(reg: Registry, k: nat, rest: seq<Token>)
    requires Sound(reg) && IsRest(reg, k, rest)
    ensures Sound(reg.(active := rest))
  {
    hide KeyOk;
  }

  lemma RestMembers(reg: Registry, k: nat, rest: seq<Token>, x: Token)
    requires Sound(reg) && IsRest(reg, k, rest)
    ensures x in rest <==> x in reg.active && x != reg.active[k]
  {
    hide KeyOk;
    if x in rest {
      var i :| 0 <= i < |rest| && rest[i] == x;
      if i < k {
        assert reg.active[i].generation < reg.active[k].generation;
      } else {
        assert reg.active[k].generation < reg.active[i + 1].generation;
      }
    }
    if x in reg.active && x != reg.active[k] {
      var i :| 0 <= i < |reg.active| && reg.active[i] == x;
      assert i < k ==> rest[i] == x;
      assert i > k ==> rest[i - 1] == x;
    }
  }

  // ----- the class -----

  /** Process-wide counters for registry identities and mapping epochs. */
  class Counters {
    var nextRegistryId: u64
    var nextEpoch: u64
    /** How many registries have been created, and the epochs handed out so far, in order. */
    ghost var registries: nat
    ghost var epochs: seq<u64>

    ghost predicate Valid()
      reads this
    {
      && nextRegistryId == (registries + 1) % TWO64
      && nextEpoch == |epochs| + 1 < TWO64
      && forall i :: 0 <= i < |epochs| ==> epochs[i] == i + 1
    }

    /** Every usable epoch, 1 to 2^64 - 2, has been handed out. */
    ghost predicate Exhausted()
      reads this
    {
      |epochs| == U64_MAX - 1
    }

    constructor ()
      ensures Valid() && registries == 0 && epochs == []
    {
      nextRegistryId, nextEpoch := 1, 1;
      registries, epochs := 0, [];
    }

    /** `next_prepared_mapping_epoch`: a non-zero epoch that nobody has had before, or zero exactly when
        all are used up, and then nothing changes, so every later call gives zero too. */
    method NextEpoch() returns (e: u64)
      requires Valid()
      modifies this`nextEpoch, this`epochs
      ensures Valid()
      ensures e == 0 <==> old(Exhausted())
      ensures e == 0 ==> unchanged(this) && Exhausted()
      ensures e != 0 ==> e !in old(epochs) && epochs == old(epochs) + [e]
    {
      if nextEpoch == 0 || nextEpoch == U64_MAX {
        return 0;
      }
      e := nextEpoch;
      nextEpoch := nextEpoch + 1;
      epochs := epochs + [e];
    }
  }

  /** The end of `prepare_linux_guest_memory` and of its Windows twin: the finished mapping is bound to
      a fresh epoch, or dropped when there is none left. */
  method PrepareMemory(counters: Counters, image: Image, plan: Plan, bytes: Bytes) returns (r: Option<GuestMemory>)
    requires counters.Valid()
    modifies counters`nextEpoch, counters`epochs
    ensures counters.Valid()
    ensures r.None? <==> old(counters.Exhausted())
    ensures r.None? ==> unchanged(counters)
    ensures r.Some? ==>
              && fresh(r.value) && r.value.epoch != 0 && r.value.epoch !in old(counters.epochs)
              && counters.epochs == old(counters.epochs) + [r.value.epoch]
              && r.value.CurrentView() == View(image, plan, true) && r.value.bytes == bytes
  {
    var epoch := counters.NextEpoch();
    if epoch == 0 {
      return None;
    }
    var memory := new GuestMemory(image, plan, true, epoch, bytes);
    return Some(memory);
  }

  class OwnedProviderRegistry {
    const registryId: u64
    var nextGeneration: u64
    var active: seq<Token>

    function State(): (reg: Registry)
      reads this
    {
      Registry(registryId, nextGeneration, active)
    }

    /** A new registry takes the next process-wide identity, one more than the number of registries
        before it; the counter wraps. */
    constructor (counters: Counters)
      requires counters.Valid()
      modifies counters`nextRegistryId, counters`registries
      ensures counters.Valid() && counters.registries == old(counters.registries) + 1
      ensures State() == NewRegistry(old(counters.registries)) && Sound(State())
    {
      registryId := counters.nextRegistryId;
      nextGeneration := 1;
      active := [];
      new;
      counters.nextRegistryId := (counters.nextRegistryId + 1) % TWO64;
      counters.registries := counters.registries + 1;
    }

    /** `register_provider`. */
    method RegisterProvider(key: string, address: u64, memory: GuestMemory)
      returns (r: Result<Token, RegistryError>)
      requires Sound(State())
      modifies this
      ensures (r, State())
           == Register(old(State()), key, address, memory.CurrentEpoch(),
                       ExactExecutableAt(memory.CurrentView(), address))
      ensures Sound(State())
    {
      hide Sound, ExactExecutableAt;
      RegisterSound(State(), key, address, memory.CurrentEpoch(), ExactExecutableAt(memory.CurrentView(), address));
      if !KeyOk(key) {
        return Err(InvalidModuleKey);
      }
      if address == 0 || memory.CurrentEpoch() == 0 {
        return Err(InvalidProviderAddress);
      }
      var executable := memory.IsExactExecutable(address);
      if !executable {
        return Err(InvalidProviderAddress);
      }
      var i := 0;
      while i < |active|
        invariant 0 <= i <= |active| && State() == old(State())
        invariant FirstClash(active, key, address) == FirstClash(active[i..], key, address)
      {
        if active[i].key == key {
          return Err(DuplicateActiveModule);
        }
        if active[i].address == address {
          return Err(DuplicateActiveAddress);
        }
        assert active[i..][1..] == active[i + 1..];
        i := i + 1;
      }
      if |active| >= MAX_ACTIVE {
        return Err(TooManyActiveProviders);
      }
      if registryId == 0 || nextGeneration == U64_MAX {
        return Err(GenerationExhausted);
      }
      var token := Token(registryId, nextGeneration, memory.CurrentEpoch(), key, address);
      active := active + [token];
      nextGeneration := nextGeneration + 1;
      return Ok(token);
    }

    /** `retire`. */
    method RetireProvider(t: Token) returns (r: bool)
      requires Sound(State())
      modifies this`active
      ensures (r, State()) == Retire(old(State()), t)
      ensures Sound(State())
    {
      hide Sound, RemoveFirst;
      RetireSound(State(), t);
      var i := 0;
      while i < |active| && active[i] != t
        invariant 0 <= i <= |active| && active == old(active)
        invariant forall k :: 0 <= k < i ==> active[k] != t
      {
        i := i + 1;
      }
      if i == |active| {
        return false;
      }
      RemoveFirstIs(active, t, i);
      active := active[..i] + active[i + 1..];
      return true;
    }

    /** `is_current`. */
    method CheckCurrent(t: Token, address: u64, memory: GuestMemory) returns (r: bool)
      ensures r <==> IsCurrent(State(), t, address, memory.CurrentEpoch())
    {
      if || t.registryId != registryId || t.registryId == 0 || t.generation == 0 || t.epoch == 0
         || t.epoch != memory.CurrentEpoch() || t.address != address
      {
        return false;
      }
      return t in active;
    }
  }

  // ----- generation-bound batches -----

  lemma RefusedLiveAppliesNothing(v: View, ps: seq<Patch>, e: LiveError)
    requires LiveRefused(v, ps, e)
    ensures e.applied == 0
  {
  }

  datatype BoundErrorCode = BindingCountMismatch | StaleOrForeignGeneration | LivePatchFailure
  datatype BoundError = BoundError(code: BoundErrorCode, index: nat, applied: nat, live: Option<LiveError>)

  ghost predicate AllCurrent(reg: Registry, ps: seq<Patch>, tokens: seq<Token>, epoch: u64) {
    |ps| == |tokens| && forall i :: 0 <= i < |ps| ==> IsCurrent(reg, tokens[i], ps[i].source, epoch)
  }

  /** Too few or too many tokens, the first token that is not current, or what the live batch refused. */
  ghost predicate BoundRefused(
    reg: Registry, v: View, epoch: u64, ps: seq<Patch>, tokens: seq<Token>, e: BoundError)
  {
    && e.applied == 0
    && match e.code
       case BindingCountMismatch => |ps| != |tokens| && e.index == |ps| && e.live == None
       case StaleOrForeignGeneration =>
         && |ps| == |tokens| && e.index < |ps| && e.live == None
         && !IsCurrent(reg, tokens[e.index], ps[e.index].source, epoch)
         && forall k :: 0 <= k < e.index ==> IsCurrent(reg, tokens[k], ps[k].source, epoch)
       case LivePatchFailure =>
         && AllCurrent(reg, ps, tokens, epoch)
         && e.live.Some? && e.index == e.live.value.index && LiveRefused(v, ps, e.live.value)
  }

  /** `apply_generation_bound_owned_jump_slot_batch`: either guest memory is untouched, or every
      disjoint target now holds its live, currently registered provider's address and nothing else
      changed. */
  method ApplyBoundBatch(ps: seq<Patch>, tokens: seq<Token>, registry: OwnedProviderRegistry, memory: GuestMemory)
    returns (r: Result<seq<Applied>, BoundError>)
    modifies memory`bytes
    ensures r.Ok? <==> AllCurrent(registry.State(), ps, tokens, memory.CurrentEpoch())
                       && Acceptable(memory.CurrentView(), ps)
                       && forall i :: 0 <= i < |ps| ==> LiveSlot(memory.CurrentView(), ps[i])
    ensures r.Err? ==>
              && memory.bytes == old(memory.bytes)
              && BoundRefused(registry.State(), memory.CurrentView(), memory.CurrentEpoch(), ps, tokens, r.error)
    ensures r.Ok? ==> memory.bytes == ApplyAll(old(memory.bytes), AsWrites(ps)) && PairwiseDisjoint(AsWrites(ps))
    ensures r.Ok? ==> forall i :: 0 <= i < |ps| ==>
              FromLittleEndian(ReadBytes(memory.bytes, ps[i].target, WIDTH)) == ps[i].source
    ensures r.Ok? ==> forall a :: Untouched(AsWrites(ps), a) ==> ByteOf(memory.bytes, a) == ByteOf(old(memory.bytes), a)
  {
    hide LiveSlot, AllWritable, AsWrites, ReadBytes, Untouched, IsCurrent, LiveRefused;
    if |ps| != |tokens| {
      return Err(BoundError(BindingCountMismatch, |ps|, 0, None));
    }
    var i := 0;
    while i < |ps|
      invariant 0 <= i <= |ps| && memory.bytes == old(memory.bytes)
      invariant forall k :: 0 <= k < i ==> IsCurrent(registry.State(), tokens[k], ps[k].source, memory.CurrentEpoch())
    {
      var current := registry.CheckCurrent(tokens[i], ps[i].source, memory);
      if !current {
        return Err(BoundError(StaleOrForeignGeneration, i, 0, None));
      }
      i := i + 1;
    }
    var applied := ApplyLiveBatch(ps, memory);
    if applied.Err? {
      RefusedLiveAppliesNothing(memory.CurrentView(), ps, applied.error);
      return Err(BoundError(LivePatchFailure, applied.error.index, applied.error.applied, Some(applied.error)));
    }
    LiveBatchMemory(memory.CurrentView(), ps, old(memory.bytes));
    return Ok(applied.value);
  }
}
