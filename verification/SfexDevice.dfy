/** The shared device as a flat byte image, and the block accesses of tools/sfex_lib.c and
    tools/sfex_init.c through one sector-sized buffer. */
module SfexDevice {
  import opened Bytes
  import opened SfexTypes
  import opened SfexCodec

  // -------------------------------------------------------- blocks of an image

  /** Where block `index` starts: lseek to blocksize * index. */
  function Offset(size: nat, index: nat): nat {
    if index == 0 then 0 else Offset(size, index - 1) + size
  }

  lemma {:induction false} OffsetIsProduct(size: nat, index: nat)
    ensures Offset(size, index) == size * index
  {
    if index > 0 {
      OffsetIsProduct(size, index - 1);
    }
  }

  predicate HasBlock(image: seq<byte>, size: nat, index: nat) {
    Offset(size, index) + size <= |image|
  }

  function BlockAt(image: seq<byte>, size: nat, index: nat): (r: seq<byte>)
    requires HasBlock(image, size, index)
    ensures |r| == size
  {
    image[Offset(size, index)..Offset(size, index) + size]
  }

  function PutBlock(image: seq<byte>, size: nat, index: nat, block: seq<byte>): (r: seq<byte>)
    requires HasBlock(image, size, index) && |block| == size
    ensures |r| == |image|
  {
    image[..Offset(size, index)] + block + image[Offset(size, index) + size..]
  }

  /** The bytes behind the first `numlocks + 1` blocks. */
  function Tail(image: seq<byte>, size: nat, numlocks: nat): seq<byte>
    requires HasBlock(image, size, numlocks)
  {
    image[Offset(size, numlocks) + size..]
  }

  lemma {:induction false} BlocksDisjoint(size: nat, i: nat, j: nat)
    requires i < j
    ensures Offset(size, i) + size <= Offset(size, j)
    decreases j
  {
    if i < j - 1 {
      BlocksDisjoint(size, i, j - 1);
    }
  }

  lemma EarlierBlock(image: seq<byte>, size: nat, i: nat, n: nat)
    requires i <= n && HasBlock(image, size, n)
    ensures HasBlock(image, size, i)
  {
    if i < n {
      BlocksDisjoint(size, i, n);
    }
  }

  lemma NoLaterBlock(image: seq<byte>, size: nat, i: nat, n: nat)
    requires i <= n && !HasBlock(image, size, i)
    ensures !HasBlock(image, size, n)
  {
    if i < n {
      BlocksDisjoint(size, i, n);
    }
  }

  /** A written block reads back, and no other block changes. */
  lemma PutGet(image: seq<byte>, size: nat, index: nat, block: seq<byte>, i: nat)
    requires HasBlock(image, size, index) && HasBlock(image, size, i) && |block| == size
    ensures BlockAt(PutBlock(image, size, index, block), size, i)
            == if i == index then block else BlockAt(image, size, i)
  {
    if i < index {
      BlocksDisjoint(size, i, index);
    } else if index < i {
      BlocksDisjoint(size, index, i);
    }
  }

  /** The images agree on every block but `index`. */
  predicate SameElsewhere(a: seq<byte>, b: seq<byte>, size: nat, index: nat) {
    && |a| == |b|
    && forall i: nat | i < |a| && i != index && HasBlock(a, size, i) :: BlockAt(a, size, i) == BlockAt(b, size, i)
  }

  lemma PutSameElsewhere(image: seq<byte>, size: nat, index: nat, block: seq<byte>)
    requires HasBlock(image, size, index) && |block| == size
    ensures SameElsewhere(image, PutBlock(image, size, index, block), size, index)
  {
    forall i: nat | i < |image| && i != index && HasBlock(image, size, i)
      ensures BlockAt(image, size, i) == BlockAt(PutBlock(image, size, index, block), size, i)
    {
      PutGet(image, size, index, block, i);
    }
  }

  lemma SameElsewhereTrans(a: seq<byte>, b: seq<byte>, c: seq<byte>, size: nat, index: nat)
    requires SameElsewhere(a, b, size, index) && SameElsewhere(b, c, size, index)
    ensures SameElsewhere(a, c, size, index)
  {
    forall i: nat | i < |a| && i != index && HasBlock(a, size, i) ensures BlockAt(a, size, i) == BlockAt(c, size, i) {
      assert BlockAt(a, size, i) == BlockAt(b, size, i) && BlockAt(b, size, i) == BlockAt(c, size, i);
    }
  }

  // ------------------------------------------------------- formatted devices

  /** A control block and `upto` initial lock blocks behind it. */
  predicate FormattedTo(image: seq<byte>, size: nat, numlocks: nat, upto: nat)
    requires size >= LOCK_RECORD_SIZE
  {
    && HasBlock(image, size, 0) && BlockAt(image, size, 0) == EncodeControl(InitControl(size, numlocks), size)
    && forall i | 1 <= i <= upto ::
         HasBlock(image, size, i) && BlockAt(image, size, i) == EncodeLock(INITIAL_LOCK, size)
  }

  /** What sfex_init leaves. */
  predicate Formatted(image: seq<byte>, size: nat, numlocks: nat)
    requires size >= LOCK_RECORD_SIZE
  {
    FormattedTo(image, size, numlocks, numlocks)
  }

  lemma FormatNext(image: seq<byte>, size: nat, numlocks: nat, upto: nat)
    requires size >= LOCK_RECORD_SIZE && FormattedTo(image, size, numlocks, upto) && HasBlock(image, size, upto + 1)
    ensures FormattedTo(PutBlock(image, size, upto + 1, EncodeLock(INITIAL_LOCK, size)), size, numlocks, upto + 1)
  {
    var block := EncodeLock(INITIAL_LOCK, size);
    var r := PutBlock(image, size, upto + 1, block);
    PutGet(image, size, upto + 1, block, 0);
    forall i | 1 <= i <= upto + 1
      ensures HasBlock(r, size, i) && BlockAt(r, size, i) == block
    {
      EarlierBlock(image, size, i, upto + 1);
      PutGet(image, size, upto + 1, block, i);
    }
  }

  datatype Write = Write(index: nat, record: LockData)

  /** A lock record as the daemons write it, to a lock the device has. */
  predicate ProperWrite(w: Write, numlocks: nat) {
    1 <= w.index <= numlocks && -100 < w.record.count <= MAX_COUNT && ValidName(w.record.owner)
  }

  function ApplyWrites(image: seq<byte>, size: nat, numlocks: nat, ws: seq<Write>): (r: seq<byte>)
    requires size >= LOCK_RECORD_SIZE && HasBlock(image, size, numlocks)
    requires forall k | 0 <= k < |ws| :: ProperWrite(ws[k], numlocks)
    ensures |r| == |image|
    decreases |ws|
  {
    if ws == [] then image
    else
      var last := ws[|ws| - 1];
      var before := ApplyWrites(image, size, numlocks, ws[..|ws| - 1]);
      assert ProperWrite(last, numlocks);
      EarlierBlock(before, size, last.index, numlocks);
      PutBlock(before, size, last.index, EncodeLock(last.record, size))
  }

  function LastWritten(ws: seq<Write>, index: nat): LockData {
    if ws == [] then INITIAL_LOCK
    else if ws[|ws| - 1].index == index then ws[|ws| - 1].record
    else LastWritten(ws[..|ws| - 1], index)
  }

  lemma {:induction false} WritesKeepOthers(image: seq<byte>, size: nat, numlocks: nat, ws: seq<Write>)
    requires size >= LOCK_RECORD_SIZE && HasBlock(image, size, numlocks)
    requires forall k | 0 <= k < |ws| :: ProperWrite(ws[k], numlocks)
    ensures HasBlock(image, size, 0)
    ensures BlockAt(ApplyWrites(image, size, numlocks, ws), size, 0) == BlockAt(image, size, 0)
    ensures Tail(ApplyWrites(image, size, numlocks, ws), size, numlocks) == Tail(image, size, numlocks)
    decreases |ws|
  {
    EarlierBlock(image, size, 0, numlocks);
    if ws != [] {
      var last := ws[|ws| - 1];
      assert ProperWrite(last, numlocks);
      WritesKeepOthers(image, size, numlocks, ws[..|ws| - 1]);
      var before := ApplyWrites(image, size, numlocks, ws[..|ws| - 1]);
      EarlierBlock(before, size, last.index, numlocks);
      PutGet(before, size, last.index, EncodeLock(last.record, size), 0);
      if last.index < numlocks {
        BlocksDisjoint(size, last.index, numlocks);
      }
    }
  }

  lemma {:induction false} LockHoldsLastWritten(image: seq<byte>, size: nat, numlocks: nat, ws: seq<Write>, i: nat)
    requires size >= LOCK_RECORD_SIZE && HasBlock(image, size, numlocks) && Formatted(image, size, numlocks)
    requires forall k | 0 <= k < |ws| :: ProperWrite(ws[k], numlocks)
    requires 1 <= i <= numlocks
    ensures HasBlock(image, size, i)
    ensures DecodeLock(BlockAt(ApplyWrites(image, size, numlocks, ws), size, i)) == Ok(LastWritten(ws, i))
    decreases |ws|
  {
    EarlierBlock(image, size, i, numlocks);
    if ws == [] {
      LockRoundTrip(INITIAL_LOCK, size);
    } else {
      var last := ws[|ws| - 1];
      assert ProperWrite(last, numlocks);
      LockHoldsLastWritten(image, size, numlocks, ws[..|ws| - 1], i);
      var before := ApplyWrites(image, size, numlocks, ws[..|ws| - 1]);
      EarlierBlock(before, size, last.index, numlocks);
      PutGet(before, size, last.index, EncodeLock(last.record, size), i);
      LockRoundTrip(last.record, size);
    }
  }

  lemma ControlSurvives(image: seq<byte>, size: nat, numlocks: nat, ws: seq<Write>)
    requires LOCK_RECORD_SIZE <= size < 10_000_000 && 1 <= numlocks <= 999
    requires HasBlock(image, size, numlocks) && Formatted(image, size, numlocks)
    requires forall k | 0 <= k < |ws| :: ProperWrite(ws[k], numlocks)
    ensures HasBlock(image, size, 0)
    ensures DecodeControl(BlockAt(ApplyWrites(image, size, numlocks, ws), size, 0)) == Ok(InitControl(size, numlocks))
  {
    WritesKeepOthers(image, size, numlocks, ws);
    ControlRoundTrip(size, numlocks, size);
  }

  /** The device reads as a control record for `numlocks` locks and, at each lock, as `record`. */
  predicate Reads(disk: seq<byte>, size: nat, numlocks: nat, ws: seq<Write>)
    requires size >= LOCK_RECORD_SIZE
  {
    && HasBlock(disk, size, 0) && DecodeControl(BlockAt(disk, size, 0)) == Ok(InitControl(size, numlocks))
    && forall i | 1 <= i <= numlocks ::
         HasBlock(disk, size, i) && DecodeLock(BlockAt(disk, size, i)) == Ok(LastWritten(ws, i))
  }

  /** After sfex_init and any sequence of daemon writes, every lock block reads as exactly the
      record last written to it, the control block reads as initialised, and the bytes behind the
      meta-data are untouched: no read ever meets a format error. */
  lemma DiskHoldsLastWritten(image: seq<byte>, size: nat, numlocks: nat, ws: seq<Write>)
    requires LOCK_RECORD_SIZE <= size < 10_000_000 && 1 <= numlocks <= 999
    requires HasBlock(image, size, numlocks) && Formatted(image, size, numlocks)
    requires forall k | 0 <= k < |ws| :: ProperWrite(ws[k], numlocks)
    ensures Reads(ApplyWrites(image, size, numlocks, ws), size, numlocks, ws)
    ensures Tail(ApplyWrites(image, size, numlocks, ws), size, numlocks) == Tail(image, size, numlocks)
  {
    WritesKeepOthers(image, size, numlocks, ws);
    ControlSurvives(image, size, numlocks, ws);
    var disk := ApplyWrites(image, size, numlocks, ws);
    forall i | 1 <= i <= numlocks
      ensures HasBlock(disk, size, i) && DecodeLock(BlockAt(disk, size, i)) == Ok(LastWritten(ws, i))
    {
      LockHoldsLastWritten(image, size, numlocks, ws, i);
    }
  }

  // ------------------------------------------------------------ buffer layout

  lemma ControlLayout(m: seq<byte>, d: ControlData)
    requires |m| >= CONTROL_RECORD_SIZE && |d.magic| == 4 && m[..4] == d.magic
    requires m[4..8] == Slot(IntText(d.version), 4) && m[8..12] == Slot(IntText(d.revision), 4)
    requires m[12..20] == Slot(IntText(d.blocksize), 8) && m[20..24] == Slot(IntText(d.numlocks), 4)
    requires forall k | 24 <= k < |m| :: m[k] == NUL
    ensures m == EncodeControl(d, |m|)
  {
    assert m[24..] == Zeros(|m| - 24);
    assert m == m[..4] + m[4..8] + m[8..12] + m[12..20] + m[20..24] + m[24..];
  }

  lemma LockLayout(m: seq<byte>, d: LockData)
    requires |m| >= LOCK_RECORD_SIZE && m[0] == StatusByte(d.status)
    requires m[1..5] == Slot(IntText(d.count), 4) && m[5..261] == Slot(CString(d.owner), 256)
    requires forall k | 261 <= k < |m| :: m[k] == NUL
    ensures m == EncodeLock(d, |m|)
  {
    assert m[261..] == Zeros(|m| - 261);
    assert m == [m[0]] + m[1..5] + m[5..261] + m[261..];
  }

  // --------------------------------------------------------------- the device

  class Device {
    var image: seq<byte>       // the shared disk
    const mem: array<byte>     // locked_mem, one sector

    constructor (image: seq<byte>, sectorSize: nat)
      ensures this.image == image && fresh(mem) && mem.Length == sectorSize
    {
      this.image := image;
      mem := new byte[sectorSize](_ => NUL);
    }

    method Clear()
      modifies mem
      ensures mem[..] == Zeros(mem.Length)
    {
      var i := 0;
      while i < mem.Length
        invariant 0 <= i <= mem.Length
        invariant forall k | 0 <= k < i :: mem[k] == NUL
      {
        mem[i] := NUL;
        i := i + 1;
      }
    }

    /** snprintf into the slot of `size` bytes at `off`, which holds NULs. */
    method Print(off: nat, size: nat, text: seq<byte>)
      requires size > 0 && off + size <= mem.Length
      requires forall k | off <= k < off + size :: mem[k] == NUL
      modifies mem
      ensures mem[off..off + size] == Slot(text, size)
      ensures forall k | 0 <= k < mem.Length && !(off <= k < off + size) :: mem[k] == old(mem[k])
    {
      ghost var was := mem[..];
      var i := 0;
      while i < |text| && i < size - 1
        invariant 0 <= i <= |text| && i < size
        invariant forall k | 0 <= k < mem.Length :: mem[k] == if off <= k < off + i then text[k - off] else was[k]
      {
        mem[off + i] := text[i];
        i := i + 1;
      }
      mem[off + i] := NUL;
      forall k | 0 <= k < size ensures mem[off + k] == Slot(text, size)[k] {
      }
      assert mem[off..off + size] == Slot(text, size);
    }

    /** Writes the buffer to block `index`; the device refuses accesses beyond its end. */
    method Store(index: nat) returns (ok: bool)
      modifies this`image
      ensures ok <==> HasBlock(old(image), mem.Length, index)
      ensures image == if ok then PutBlock(old(image), mem.Length, index, mem[..]) else old(image)
    {
      ok := Offset(mem.Length, index) + mem.Length <= |image|;
      if ok {
        image := PutBlock(image, mem.Length, index, mem[..]);
      }
    }

    method WriteControlData(d: ControlData) returns (ok: bool)
      requires mem.Length >= CONTROL_RECORD_SIZE && |d.magic| == 4
      modifies this`image, mem
      ensures ok <==> HasBlock(old(image), mem.Length, 0)
      ensures image == if ok then PutBlock(old(image), mem.Length, 0, EncodeControl(d, mem.Length)) else old(image)
    {
      Clear();
      mem[0], mem[1], mem[2], mem[3] := d.magic[0], d.magic[1], d.magic[2], d.magic[3];
      Print(4, 4, IntText(d.version));
      Print(8, 4, IntText(d.revision));
      Print(12, 8, IntText(d.blocksize));
      Print(20, 4, IntText(d.numlocks));
      ControlLayout(mem[..], d);
      ok := Store(0);
    }

    method WriteLockData(d: LockData, index: nat) returns (ok: bool)
      requires mem.Length >= LOCK_RECORD_SIZE
      modifies this`image, mem
      ensures ok <==> HasBlock(old(image), mem.Length, index)
      ensures image == if ok then PutBlock(old(image), mem.Length, index, EncodeLock(d, mem.Length)) else old(image)
    {
      Clear();
      mem[0] := StatusByte(d.status);
      Print(1, 4, IntText(d.count));
      Print(5, 256, CString(d.owner));
      LockLayout(mem[..], d);
      ok := Store(index);
    }

    /** Reads block `index` into the buffer. */
    method Fetch(index: nat) returns (ok: bool)
      modifies mem
      ensures ok <==> HasBlock(image, mem.Length, index)
      ensures ok ==> mem[..] == BlockAt(image, mem.Length, index)
    {
      var start := Offset(mem.Length, index);
      ok := start + mem.Length <= |image|;
      if ok {
        var i := 0;
        while i < mem.Length
          invariant 0 <= i <= mem.Length
          invariant forall k | 0 <= k < i :: mem[k] == image[start + k]
        {
          mem[i] := image[start + i];
          i := i + 1;
        }
      }
    }

    method ReadLockData(index: nat) returns (r: Result<LockData>)
      requires mem.Length >= LOCK_RECORD_SIZE
      modifies mem
      ensures r == if HasBlock(image, mem.Length, index) then DecodeLock(BlockAt(image, mem.Length, index)) else Failure
    {
      var ok := Fetch(index);
      r := Failure;
      if ok {
        r := DecodeLock(mem[..]);
      }
    }

    method ReadControlData() returns (r: Result<ControlData>)
      requires mem.Length >= CONTROL_RECORD_SIZE
      modifies mem
      ensures r == if HasBlock(image, mem.Length, 0) then DecodeControl(BlockAt(image, mem.Length, 0)) else Failure
    {
      var ok := Fetch(0);
      r := Failure;
      if ok {
        r := DecodeControl(mem[..]);
      }
    }

    /** lock_index_check: an index is accepted exactly on a control block for this sector size that
        has that many locks; on one as sfex_init wrote it, exactly the indices up to numlocks are. */
    method LockIndexCheck(index: int) returns (r: Result<ControlData>)
      requires mem.Length >= CONTROL_RECORD_SIZE
      modifies mem
      ensures r.Ok? <==>
                HasBlock(image, mem.Length, 0)
                && var control := DecodeControl(BlockAt(image, mem.Length, 0));
                   control.Ok? && index <= control.value.numlocks && control.value.blocksize == mem.Length
      ensures r.Ok? ==> DecodeControl(BlockAt(image, mem.Length, 0)) == r
      ensures forall numlocks ::
                HasBlock(image, mem.Length, 0)
                && DecodeControl(BlockAt(image, mem.Length, 0)) == Ok(InitControl(mem.Length, numlocks)) ==>
                  (r.Ok? <==> index <= numlocks)
    {
      r := ReadControlData();
      if r.Ok? && (index > r.value.numlocks || r.value.blocksize != mem.Length) {
        r := Failure;
      }
    }

    /** sfex_init: the control block, then every lock block. */
    method Initialize(numlocks: nat) returns (ok: bool)
      requires mem.Length >= LOCK_RECORD_SIZE && 1 <= numlocks <= 999
      modifies this`image, mem
      ensures ok <==> HasBlock(old(image), mem.Length, numlocks)
      ensures ok ==> HasBlock(image, mem.Length, numlocks) && Formatted(image, mem.Length, numlocks)
      ensures |image| == |old(image)|
      ensures ok ==> Tail(image, mem.Length, numlocks) == Tail(old(image), mem.Length, numlocks)
    {
      ghost var size := mem.Length;
      ok := WriteControlData(InitControl(mem.Length, numlocks));
      if ok {
        PutGet(old(image), size, 0, EncodeControl(InitControl(size, numlocks), size), 0);
      } else {
        NoLaterBlock(image, size, 0, numlocks);
      }
      var index := 1;
      while ok && index <= numlocks
        invariant 1 <= index <= numlocks + 1
        invariant |image| == |old(image)|
        invariant ok ==> HasBlock(image, size, index - 1) && FormattedTo(image, size, numlocks, index - 1)
        invariant ok ==> Tail(image, size, index - 1) == Tail(old(image), size, index - 1)
        invariant !ok ==> !HasBlock(image, size, numlocks)
        decreases numlocks - index, ok
      {
        ghost var before := image;
        ok := WriteLockData(INITIAL_LOCK, index);
        if ok {
          FormatNext(before, size, numlocks, index - 1);
          index := index + 1;
        } else {
          NoLaterBlock(image, size, index, numlocks);
        }
      }
    }
  }
}
