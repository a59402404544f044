/** The SF-EX daemon (tools/sfex_daemon.c) as imperative code over the byte device.  Each block
    access, with the code around it, is proved to be the protocol step of the same name. */
module SfexDaemon {
  import opened SfexTypes
  import opened SfexCodec
  import opened SfexDevice
  import P = SfexProtocol

  class Daemon {
    const name: NodeName      // nodename
    const index: nat          // lock_index
    const device: Device
    var phase: P.Phase
    var ldata: LockData       // static ldata
    var ldataNew: LockData    // static ldata_new

    constructor (name: NodeName, index: nat, device: Device)
      requires ValidName(name) && device.mem.Length >= LOCK_RECORD_SIZE
      requires HasBlock(device.image, device.mem.Length, index)
      ensures this.name == name && this.index == index && this.device == device
      ensures Valid() && phase.Down?
    {
      this.name, this.index, this.device := name, index, device;
      phase, ldata, ldataNew := P.Down, INITIAL_LOCK, INITIAL_LOCK;
    }

    ghost predicate Usable()
      reads this, device
    {
      && ValidName(name)
      && device.mem.Length >= LOCK_RECORD_SIZE && HasBlock(device.image, device.mem.Length, index)
      && (!phase.Down? ==> -100 < ldata.count < 1000 && ValidName(ldata.owner))
    }

    /** From its reservation on, the daemon's record is a lock in its own name. */
    ghost predicate Valid()
      reads this, device
    {
      Usable() && (P.Live(phase) ==> OwnLock(ldata, name))
    }

    /** What a read of the lock block gives. */
    ghost function Block(): Result<LockData>
      requires Usable()
      reads this, device
    {
      DecodeLock(BlockAt(device.image, device.mem.Length, index))
    }

    /** The bytes on the device and the daemon's variables are those of protocol state `s`. */
    ghost predicate Represents(s: P.State)
      reads this, device
    {
      && Valid() && Block() == Ok(s.block)
      && name in s.nodes && s.nodes[name].phase == phase
      && (phase.Down? || ldata == s.nodes[name].ldata)
    }

    /** write_lockdata of ldata, then phase `p`; a failed write ends the daemon. */
    method Write(p: P.Phase)
      requires Usable() && -100 < ldata.count < 1000 && ValidName(ldata.owner)
      modifies this`phase, device`image, device.mem
      ensures Usable() && Block() == Ok(ldata) && phase == p
      ensures SameElsewhere(old(device.image), device.image, device.mem.Length, index)
    {
      var ok := device.WriteLockData(ldata, index);
      PutSameElsewhere(old(device.image), device.mem.Length, index, EncodeLock(ldata, device.mem.Length));
      phase := if ok then p else P.Down;
      PutGet(old(device.image), device.mem.Length, index, EncodeLock(ldata, device.mem.Length), index);
      LockRoundTrip(ldata, device.mem.Length);
    }

    /** read_lockdata into ldata; a failed read ends the daemon. */
    method Read() returns (ok: bool)
      requires Usable()
      modifies this`phase, this`ldata, device.mem
      ensures Usable()
      ensures ok <==> Block().Ok?
      ensures ok ==> Block() == Ok(ldata) && phase == old(phase) && -100 < ldata.count < 1000 && ValidName(ldata.owner)
      ensures !ok ==> phase.Down?
    {
      var r := device.ReadLockData(index);
      ok := r.Ok?;
      if ok {
        ldata := r.value;
        DecodedFits(BlockAt(device.image, device.mem.Length, index), ldata);
      } else {
        phase := P.Down;
      }
    }

    // ---------------------------------------------------------- acquire_lock

    /** A failed read ends the daemon. */
    method GuardRead(ghost c: P.Config, ghost s: P.State)
      requires Valid() && phase.Down?
      modifies this, device.mem
      ensures Valid()
      ensures Block().Ok? ==>
                ldata == Block().value
                && phase == if ldata.status == Lock && ldata.owner != name then P.WaitStale else P.Guarded
      ensures Block().Failure? ==> phase.Down?
      ensures old(Represents(s)) && P.Enabled(c, s, P.GuardRead(name)) ==> Represents(P.Apply(c, s, P.GuardRead(name)))
    {
      var ok := Read();
      if ok {
        phase := if ldata.status == Lock && name != ldata.owner then P.WaitStale else P.Guarded;
      }
    }

    /** The result of this read is not checked: an unreadable block leaves the comparison to an
        earlier record. */
    method Reread(ghost c: P.Config, ghost s: P.State)
      requires Valid() && phase.WaitStale?
      modifies this, device.mem
      ensures Valid() && ldata == old(ldata)
      ensures ldataNew == if Block().Ok? then Block().value else old(ldataNew)
      ensures phase == if ldata.count != ldataNew.count then P.Down else P.Guarded
      ensures old(Represents(s)) && P.Enabled(c, s, P.Reread(name)) ==> Represents(P.Apply(c, s, P.Reread(name)))
    {
      var r := device.ReadLockData(index);
      if r.Ok? {
        ldataNew := r.value;
      }
      phase := if ldata.count != ldataNew.count then P.Down else P.Guarded;
    }

    method Reserve(ghost c: P.Config, ghost s: P.State)
      requires Valid() && phase.Guarded?
      modifies this, device`image, device.mem
      ensures Valid() && phase.Reserved?
      ensures Block() == Ok(ldata) == Ok(LockData(Lock, NextCount(old(ldata).count), name))
      ensures SameElsewhere(old(device.image), device.image, device.mem.Length, index)
      ensures old(Represents(s)) && P.Enabled(c, s, P.Reserve(name)) ==> Represents(P.Apply(c, s, P.Reserve(name)))
    {
      ldata := LockData(Lock, NextCount(ldata.count), name);
      Write(P.Reserved);
    }

    /** An unreadable block is logged and leaves the comparison to an earlier record. */
    method Check(ghost c: P.Config, ghost s: P.State)
      requires Valid() && phase.Reserved?
      modifies this, device.mem
      ensures Valid() && ldata == old(ldata)
      ensures ldataNew == if Block().Ok? then Block().value else old(ldataNew)
      ensures phase == if name != ldataNew.owner then P.Down else P.Checked
      ensures old(Represents(s)) && P.Enabled(c, s, P.Check(name)) ==> Represents(P.Apply(c, s, P.Check(name)))
    {
      var r := device.ReadLockData(index);
      if r.Ok? {
        ldataNew := r.value;
      }
      phase := if ldata.owner != ldataNew.owner then P.Down else P.Checked;
    }

    method Extend(ghost c: P.Config, ghost s: P.State)
      requires Valid() && phase.Checked?
      modifies this, device`image, device.mem
      ensures Valid() && phase.Holding?
      ensures Block() == Ok(ldata) == Ok(LockData(Lock, NextCount(old(ldata).count), name))
      ensures SameElsewhere(old(device.image), device.image, device.mem.Length, index)
      ensures old(Represents(s)) && P.Enabled(c, s, P.Extend(name)) ==> Represents(P.Apply(c, s, P.Extend(name)))
    {
      ldata := ldata.(count := NextCount(ldata.count));
      Write(P.Holding);
    }

    // ----------------------------------------------------------- update_lock

    /** The daemon is fenced exactly if it reads a block that is not a lock in its own name; a failed read
        ends it. */
    method UpdateRead(ghost c: P.Config, ghost s: P.State)
      requires Valid() && phase.Holding?
      modifies this, device.mem
      ensures Valid()
      ensures phase.Fenced? <==>
                old(Block()).Ok? && (old(Block()).value.status != Lock || old(Block()).value.owner != name)
      ensures phase.Updating? <==> old(Block()).Ok? && OwnLock(old(Block()).value, name)
      ensures phase.Down? <==> old(Block()).Failure?
      ensures phase.Updating? ==> ldata == old(Block()).value
      ensures old(Represents(s)) && P.Enabled(c, s, P.UpdateRead(name)) ==>
                Represents(P.Apply(c, s, P.UpdateRead(name)))
    {
      var ok := Read();
      if ok {
        phase := if ldata.status != Lock || ldata.owner != name then P.Fenced else P.Updating;
      }
    }

    method UpdateWrite(ghost c: P.Config, ghost s: P.State)
      requires Valid() && phase.Updating?
      modifies this, device`image, device.mem
      ensures Valid() && phase.Holding?
      ensures Block() == Ok(ldata) == Ok(LockData(Lock, NextCount(old(ldata).count), name))
      ensures SameElsewhere(old(device.image), device.image, device.mem.Length, index)
      ensures old(Represents(s)) && P.Enabled(c, s, P.UpdateWrite(name)) ==>
                Represents(P.Apply(c, s, P.UpdateWrite(name)))
    {
      ldata := ldata.(count := NextCount(ldata.count));
      Write(P.Holding);
    }

    // ---------------------------------------------------------- release_lock

    /** In whatever phase SIGTERM arrives, the daemon goes on to release exactly its own lock, and ends
        otherwise. */
    method TermRead(ghost c: P.Config, ghost s: P.State)
      requires Valid() && !phase.Down?
      modifies this, device.mem
      ensures Valid()
      ensures phase == if old(Block()).Ok? && OwnLock(old(Block()).value, name) then P.Releasing else P.Down
      ensures phase.Releasing? ==> ldata == old(Block()).value
      ensures old(Represents(s)) && P.Enabled(c, s, P.TermRead(name)) ==> Represents(P.Apply(c, s, P.TermRead(name)))
    {
      var ok := Read();
      if ok {
        phase := if ldata.status != Lock || ldata.owner != name then P.Down else P.Releasing;
      }
    }

    method ReleaseWrite(ghost c: P.Config, ghost s: P.State)
      requires Valid() && phase.Releasing?
      modifies this, device`image, device.mem
      ensures Valid() && phase.Down?
      ensures Block() == Ok(LockData(Unlock, old(ldata).count, name))
      ensures SameElsewhere(old(device.image), device.image, device.mem.Length, index)
      ensures old(Represents(s)) && P.Enabled(c, s, P.ReleaseWrite(name)) ==>
                Represents(P.Apply(c, s, P.ReleaseWrite(name)))
    {
      ldata := ldata.(status := Unlock);
      Write(P.Down);
    }

    /** The process dies at any point. */
    method Crash(ghost c: P.Config, ghost s: P.State)
      requires Represents(s) && P.Enabled(c, s, P.Crash(name))
      modifies this
      ensures Represents(P.Apply(c, s, P.Crash(name)))
    {
      phase := P.Down;
    }

    /** The daemon's next access, whichever it is. */
    method Perform(step: P.Step, ghost c: P.Config, ghost s: P.State)
      requires Represents(s) && P.Enabled(c, s, step) && !step.Tick? && step.node == name
      modifies this, device`image, device.mem
      ensures Represents(P.Apply(c, s, step))
    {
      match step
      case GuardRead(_) => GuardRead(c, s);
      case Reread(_) => Reread(c, s);
      case Reserve(_) => Reserve(c, s);
      case Check(_) => Check(c, s);
      case Extend(_) => Extend(c, s);
      case UpdateRead(_) => UpdateRead(c, s);
      case UpdateWrite(_) => UpdateWrite(c, s);
      case TermRead(_) => TermRead(c, s);
      case ReleaseWrite(_) => ReleaseWrite(c, s);
      case Crash(_) => Crash(c, s);
    }

    // -------------------------------------------------- undisturbed sequences

    /** acquire_lock with nobody else on the device: from any block that can be read it ends with the
        lock taken and the counter stepped twice, and it touches no other block. */
    method AcquireLock(ghost c: P.Config, ghost s: P.State)
      requires Valid() && phase.Down? && Block().Ok?
      modifies this, device`image, device.mem
      ensures Valid() && phase.Holding?
      ensures Block() == Ok(LockData(Lock, NextCount(NextCount(old(Block()).value.count)), name))
      ensures SameElsewhere(old(device.image), device.image, device.mem.Length, index)
    {
      GuardRead(c, s);
      if phase.WaitStale? {
        Reread(c, s);
      }
      if phase.Guarded? {
        Reserve(c, s);
        ghost var reserved := device.image;
        Check(c, s);
        if phase.Checked? {
          Extend(c, s);
          SameElsewhereTrans(old(device.image), reserved, device.image, device.mem.Length, index);
        }
      }
    }

    /** release_lock, which is the read and then the write of the protocol: exactly the daemon's own lock is
        unlocked, with the owner's name and the count left on the block; any other block is left alone. */
    method ReleaseLock(ghost c: P.Config, ghost s: P.State) returns (released: bool)
      requires Valid() && !phase.Down? && Block().Ok?
      modifies this, device`image, device.mem
      ensures Valid() && phase.Down?
      ensures released <==> OwnLock(old(Block()).value, name)
      ensures released ==> Block() == Ok(old(Block()).value.(status := Unlock))
      ensures SameElsewhere(old(device.image), device.image, device.mem.Length, index)
      ensures !released ==> device.image == old(device.image)
      ensures old(Represents(s)) && P.Enabled(c, s, P.TermRead(name)) ==>
                var t := P.Apply(c, s, P.TermRead(name));
                && (released <==> P.Enabled(c, t, P.ReleaseWrite(name)))
                && Represents(if P.Enabled(c, t, P.ReleaseWrite(name)) then P.Apply(c, t, P.ReleaseWrite(name)) else t)
    {
      ghost var known := Represents(s) && P.Enabled(c, s, P.TermRead(name));
      TermRead(c, s);
      released := phase.Releasing?;
      if released {
        ReleaseWrite(c, if known then P.Apply(c, s, P.TermRead(name)) else s);
      }
    }
  }

  // ---------------------------------------------------- daemons on one device

  /** The daemons, one for each node name, share one lock block and together are in state `s`. */
  ghost predicate ClusterRepresents(ds: map<NodeName, Daemon>, device: Device, index: nat, s: P.State)
    reads ds.Values, device
  {
    && ds.Keys == s.nodes.Keys
    && forall n <- ds :: ds[n].name == n && ds[n].device == device && ds[n].index == index && ds[n].Represents(s)
  }

  /** One daemon performs its next access; the others see only the block change. */
  method ClusterStep(ds: map<NodeName, Daemon>, device: Device, index: nat, step: P.Step,
                     ghost c: P.Config, ghost s: P.State)
    requires ClusterRepresents(ds, device, index, s) && P.Enabled(c, s, step)
    modifies ds.Values, device`image, device.mem
    ensures ClusterRepresents(ds, device, index, P.Apply(c, s, step))
  {
    if !step.Tick? {
      var d := ds[step.node];
      d.Perform(step, c, s);
    }
    ghost var t := P.Apply(c, s, step);
    P.OthersUnchanged(c, s, step);
    forall n | n in ds ensures ds[n].Represents(t) {
    }
  }

  /** Any timely interleaving of the daemons' accesses to the bytes of the shared device, with
      crashes and restarts, ends with at most one daemon past its collision check
      and with none fenced. */
  method ClusterRun(ds: map<NodeName, Daemon>, device: Device, index: nat, steps: seq<P.Step>,
                    ghost c: P.Config, ghost s0: P.State)
    requires P.ValidConfig(c) && P.Init(c, s0) && P.Run(c, s0, steps)
    requires ClusterRepresents(ds, device, index, s0)
    modifies ds.Values, device`image, device.mem
    ensures ClusterRepresents(ds, device, index, P.After(c, s0, steps))
    ensures forall m, n | m in ds && n in ds && P.Critical(ds[m].phase) && P.Critical(ds[n].phase) :: m == n
    ensures forall n <- ds :: !ds[n].phase.Fenced?
  {
    ghost var s := s0;
    var k := 0;
    while k < |steps|
      invariant 0 <= k <= |steps|
      invariant P.Run(c, s, steps[k..]) && P.After(c, s, steps[k..]) == P.After(c, s0, steps)
      invariant ClusterRepresents(ds, device, index, s)
    {
      assert steps[k..][0] == steps[k] && steps[k..][1..] == steps[k + 1..];
      ClusterStep(ds, device, index, steps[k], c, s);
      s := P.Apply(c, s, steps[k]);
      k := k + 1;
    }
    P.Safety(c, s0, steps);
    forall n | n in ds ensures !ds[n].phase.Fenced? {
      P.HolderNeverFenced(c, s0, steps, n);
    }
  }
}
