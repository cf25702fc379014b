/** The pool of command structures (agent_command_pool.c): a static array of
    Command_t guarded by one binary semaphore each. A semaphore is modelled by
    one boolean: true when it is given (the slot is free), false when taken. */
module AgentCommandPool {
  import opened MqttTypes

  datatype InitStatus = SemaphoresNotInitialized | SemaphoresInitPending | SemaphoresInitialized

  /** Index of the first free slot, or |available| when every slot is taken. */
  function FirstAvailable(available: seq<bool>): (k: nat)
    ensures k <= |available|
    ensures forall i :: 0 <= i < k ==> !available[i]
    ensures k < |available| ==> available[k]
  {
    if available == [] then 0
    else if available[0] then 0
    else 1 + FirstAvailable(available[1..])
  }

  /** `ref` points into a pool of `size` slots: the index computed from the
      pointer is below the pool size. */
  predicate InPool(ref: CommandRef, size: nat) {
    ref.PoolSlot? && ref.index < size
  }

  /** Agent_ReleaseCommand on the semaphore states: gives the slot's semaphore,
      which fails when the pointer is not into the pool or the binary semaphore
      is already given. */
  function Release(available: seq<bool>, ref: CommandRef): (bool, seq<bool>)
  {
    if InPool(ref, |available|) && !available[ref.index] then (true, available[ref.index := true])
    else (false, available)
  }

  /** Release succeeds exactly for a taken slot of the pool, makes exactly that
      slot free and changes nothing else; otherwise it changes nothing. */
  lemma ReleaseFreesOnlyThatSlot(available: seq<bool>, ref: CommandRef)
    ensures var (ok, after) := Release(available, ref);
            && ok == (InPool(ref, |available|) && !available[ref.index])
            && |after| == |available|
            && (ok ==> after[ref.index] && forall i :: 0 <= i < |available| && i != ref.index ==> after[i] == available[i])
            && (!ok ==> after == available)
  {
  }

  /** Taking the first free slot and releasing it gives back the pool it was
      taken from. */
  lemma TakeThenReleaseRestores(available: seq<bool>)
    requires FirstAvailable(available) < |available|
    ensures var k := FirstAvailable(available);
            Release(available[k := false], PoolSlot(k)) == (true, available)
  {
    var k := FirstAvailable(available);
    assert available[k := false][k := true] == available;
  }

  /** Releasing a slot that is already free fails and changes nothing, as giving
      a binary semaphore that is already given does. */
  lemma ReleaseOfFreeSlotFails(available: seq<bool>, i: nat)
    requires i < |available| && available[i]
    ensures Release(available, PoolSlot(i)) == (false, available)
  {
  }

  class CommandPool {
    /** commandStructurePool */
    const commands: array<Command>
    /** commandSems, one binary semaphore per command structure */
    const available: array<bool>
    var initStatus: InitStatus

    ghost predicate Valid()
      reads this
    {
      commands.Length == available.Length
    }

    /** The zero-initialised statics: no semaphore exists yet. */
    constructor (size: nat)
      ensures Valid() && fresh(commands) && fresh(available)
      ensures commands.Length == size
      ensures initStatus == SemaphoresNotInitialized
      ensures forall i :: 0 <= i < size ==> !available[i] && commands[i] == ZeroCommand
    {
      commands := new Command[size](_ => ZeroCommand);
      available := new bool[size](_ => false);
      initStatus := SemaphoresNotInitialized;
    }

    /** initializePool: only the caller that finds the pool not initialised
        becomes the owner; it zeroes the command structures, creates and gives
        every semaphore and marks the pool initialised. */
    method InitializePool()
      requires Valid()
      modifies this, commands, available
      ensures Valid()
      ensures old(initStatus) == SemaphoresNotInitialized ==>
                && initStatus == SemaphoresInitialized
                && (forall i :: 0 <= i < available.Length ==> available[i])
                && (forall i :: 0 <= i < commands.Length ==> commands[i] == ZeroCommand)
      ensures old(initStatus) != SemaphoresNotInitialized ==>
                initStatus == old(initStatus) && available[..] == old(available[..]) && commands[..] == old(commands[..])
    {
      var owner := false;
      if initStatus == SemaphoresNotInitialized {
        owner := true;
        initStatus := SemaphoresInitPending;
      }
      if owner {
        for i := 0 to commands.Length
          invariant forall j :: 0 <= j < i ==> commands[j] == ZeroCommand
        {
          commands[i] := ZeroCommand;
        }
        for i := 0 to available.Length
          invariant forall j :: 0 <= j < i ==> available[j]
          invariant forall j :: 0 <= j < commands.Length ==> commands[j] == ZeroCommand
        {
          available[i] := true;
        }
        initStatus := SemaphoresInitialized;
      }
    }

    /** getCommand: takes the semaphore of the lowest-index free slot and returns
        that slot, or NULL (changing nothing) when every slot is taken. */
    method GetCommand() returns (r: CommandRef)
      requires Valid() && initStatus == SemaphoresInitialized
      modifies available
      ensures var k := FirstAvailable(old(available[..]));
              && r == (if k < available.Length then PoolSlot(k) else NullCommand)
              && available[..] == if k < available.Length then old(available[..])[k := false] else old(available[..])
    {
      var i := 0;
      while i < available.Length
        invariant 0 <= i <= available.Length
        invariant forall j :: 0 <= j < i ==> !available[j]
        invariant available[..] == old(available[..])
      {
        if available[i] {
          available[i] := false;
          break;
        }
        i := i + 1;
      }
      ghost var s := old(available[..]);
      FirstAvailableIsLowest(s, i);
      r := if i < available.Length then PoolSlot(i) else NullCommand;
    }

    /** Agent_GetCommand: initialises the pool on first use, then tries to take a
        slot, waiting one tick and retrying while none is free and fewer than
        blockTimeMs ticks have been waited. With no other task releasing a slot
        in between, every retry after a failed try fails as well. */
    method AgentGetCommand(blockTimeMs: nat) returns (r: CommandRef, ghost attempts: nat)
      requires Valid()
      modifies this, commands, available
      ensures Valid()
      ensures initStatus == if old(initStatus) == SemaphoresNotInitialized then SemaphoresInitialized else old(initStatus)
      ensures old(initStatus) == SemaphoresInitPending ==>
                r == NullCommand && attempts == 0 && available[..] == old(available[..]) && commands[..] == old(commands[..])
      ensures initStatus == SemaphoresInitialized ==>
                var s := if old(initStatus) == SemaphoresNotInitialized then AllFree(available.Length) else old(available[..]);
                var k := FirstAvailable(s);
                && attempts == (if k < available.Length then 1 else if blockTimeMs < 1 then 1 else blockTimeMs)
                && r == (if k < available.Length then PoolSlot(k) else NullCommand)
                && available[..] == (if k < available.Length then s[k := false] else s)
                && (old(initStatus) == SemaphoresInitialized ==> commands[..] == old(commands[..]))
                && (old(initStatus) == SemaphoresNotInitialized ==> forall i :: 0 <= i < commands.Length ==> commands[i] == ZeroCommand)
    {
      var cumulativeDelayMs := 0;
      r := NullCommand;
      attempts := 0;
      if initStatus == SemaphoresNotInitialized {
        InitializePool();
        assert available[..] == AllFree(available.Length);
      }
      if initStatus == SemaphoresInitialized {
        ghost var s := available[..];
        while true
          invariant Valid() && initStatus == SemaphoresInitialized
          invariant attempts == cumulativeDelayMs
          invariant attempts == 0 || attempts < blockTimeMs
          invariant attempts > 0 ==> FirstAvailable(s) == available.Length
          invariant available[..] == s && r == NullCommand
          invariant commands[..] == old(commands[..]) || old(initStatus) == SemaphoresNotInitialized
          invariant old(initStatus) == SemaphoresNotInitialized ==> forall i :: 0 <= i < commands.Length ==> commands[i] == ZeroCommand
          decreases blockTimeMs - cumulativeDelayMs
        {
          r := GetCommand();
          attempts := attempts + 1;
          if r == NullCommand {
            // vTaskDelay( pdMS_TO_TICKS( 1 ) )
            cumulativeDelayMs := cumulativeDelayMs + 1;
          }
          if !(r == NullCommand && cumulativeDelayMs < blockTimeMs) {
            break;
          }
        }
      }
    }

    /** Agent_ReleaseCommand: gives the semaphore of the slot `ref` points to;
        false, with nothing changed, when `ref` is not into the pool or the slot
        is already free. */
    method ReleaseCommand(ref: CommandRef) returns (structReturned: bool)
      requires Valid()
      requires InPool(ref, available.Length) ==> initStatus == SemaphoresInitialized
      modifies available
      ensures (structReturned, available[..]) == Release(old(available[..]), ref)
    {
      structReturned := false;
      if ref.PoolSlot? && ref.index < available.Length {
        if !available[ref.index] {
          available[ref.index] := true;
          structReturned := true;
        }
      }
    }
  }

  /** Every slot free, as the pool is after initialisation: getCommand's scan
      then takes slot 0 whenever the pool has any slot. */
  function AllFree(n: nat): (s: seq<bool>)
    ensures |s| == n
    ensures FirstAvailable(s) == 0
  {
    seq(n, _ => true)
  }

  /** The scan of getCommand stops at FirstAvailable. */
  lemma FirstAvailableIsLowest(s: seq<bool>, i: nat)
    requires i <= |s|
    requires forall j :: 0 <= j < i ==> !s[j]
    requires i < |s| ==> s[i]
    ensures FirstAvailable(s) == i
  {
  }
}
