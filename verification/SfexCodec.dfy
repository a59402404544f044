/** The SF-EX on-disk format (tools/sfex_lib.c): decimal, NUL-padded fields in fixed slots. */
module SfexCodec {
  import opened Bytes
  import opened SfexTypes

  datatype Result<+T> = Ok(value: T) | Failure

  const NUL: byte := 0
  const MINUS: byte := 45
  const PLUS: byte := 43
  const ZERO: byte := 48

  const LOCK_RECORD_SIZE := 261     // status 1, count 4, nodename 256
  const CONTROL_RECORD_SIZE := 24   // magic 4, version 4, revision 4, blocksize 8, numlocks 4

  // ------------------------------------------------------- C text primitives

  function Zeros(n: nat): (r: seq<byte>)
    ensures |r| == n && forall i | 0 <= i < n :: r[i] == NUL
  {
    seq(n, _ => NUL)
  }

  /** The bytes in front of the first NUL. */
  function CString(s: seq<byte>): (r: seq<byte>)
    ensures r <= s && NUL !in r
    ensures |r| < |s| ==> s[|r|] == NUL
  {
    if s == [] || s[0] == NUL then [] else [s[0]] + CString(s[1..])
  }

  function Decimal(n: nat): seq<byte> {
    if n < 10 then [48 + n as byte] else Decimal(n / 10) + [48 + (n % 10) as byte]
  }

  /** The text printed by "%d". */
  function IntText(n: int): seq<byte> {
    if n < 0 then [MINUS] + Decimal(-n) else Decimal(n)
  }

  /** snprintf of `text` into a zeroed slot: at most size - 1 bytes, then NULs. */
  function Slot(text: seq<byte>, size: nat): (r: seq<byte>)
    requires size > 0
    ensures |r| == size
  {
    var kept := if |text| < size then text else text[..size - 1];
    kept + Zeros(size - |kept|)
  }

  predicate IsDigit(b: byte) {
    ZERO <= b <= 57
  }

  /** strtol's digit loop, from an accumulated value. */
  function Digits(s: seq<byte>, acc: nat): nat {
    if s == [] || !IsDigit(s[0]) then acc else Digits(s[1..], 10 * acc + (s[0] as int - 48))
  }

  function SkipSpace(s: seq<byte>): (r: seq<byte>)
    ensures |r| <= |s|
  {
    if s != [] && (s[0] == 32 || 9 <= s[0] <= 13) then SkipSpace(s[1..]) else s
  }

  /** atoi on the C string at the start of `s`. */
  function Atoi(s: seq<byte>): int {
    var t := SkipSpace(CString(s));
    if t != [] && t[0] == MINUS then 0 - Digits(t[1..], 0)
    else if t != [] && t[0] == PLUS then Digits(t[1..], 0)
    else Digits(t, 0)
  }

  // ------------------------------------------------------------ the formats

  function StatusByte(s: Status): byte {
    if s == Lock then 108 else 117
  }

  /** write_lockdata's buffer for a block of `size` bytes. */
  function EncodeLock(d: LockData, size: nat): (r: seq<byte>)
    requires size >= LOCK_RECORD_SIZE
    ensures |r| == size
  {
    [StatusByte(d.status)] + Slot(IntText(d.count), 4) + Slot(CString(d.owner), 256) + Zeros(size - LOCK_RECORD_SIZE)
  }

  /** read_lockdata's checks and conversions. */
  function DecodeLock(block: seq<byte>): Result<LockData>
    requires |block| >= LOCK_RECORD_SIZE
  {
    if block[4] != NUL || block[260] != NUL then Failure
    else if block[0] != 117 && block[0] != 108 then Failure
    else Ok(LockData(if block[0] == 108 then Lock else Unlock, Atoi(block[1..5]), CString(block[5..261])))
  }

  datatype ControlData = ControlData(magic: seq<byte>, version: int, revision: int, blocksize: int, numlocks: int)

  const MAGIC: seq<byte> := [83, 70, 69, 88]
  const VERSION := 1
  const REVISION := 3

  function InitControl(blocksize: nat, numlocks: int): ControlData {
    ControlData(MAGIC, VERSION, REVISION, blocksize, numlocks)
  }

  const INITIAL_LOCK := LockData(Unlock, 0, [])

  function EncodeControl(d: ControlData, size: nat): (r: seq<byte>)
    requires size >= CONTROL_RECORD_SIZE && |d.magic| == 4
    ensures |r| == size
  {
    d.magic + Slot(IntText(d.version), 4) + Slot(IntText(d.revision), 4)
    + Slot(IntText(d.blocksize), 8) + Slot(IntText(d.numlocks), 4) + Zeros(size - CONTROL_RECORD_SIZE)
  }

  function DecodeControl(block: seq<byte>): Result<ControlData>
    requires |block| >= CONTROL_RECORD_SIZE
  {
    if block[..4] != MAGIC then Failure
    else if block[7] != NUL || block[11] != NUL || block[19] != NUL || block[23] != NUL then Failure
    else if Atoi(block[4..8]) != VERSION then Failure
    else Ok(ControlData(MAGIC, Atoi(block[4..8]), Atoi(block[8..12]), Atoi(block[12..20]), Atoi(block[20..24])))
  }

  // ----------------------------------------------------------- text lemmas

  function Pow10(k: nat): nat {
    if k == 0 then 1 else 10 * Pow10(k - 1)
  }

  /** `k` characters hold less than `Pow10(k)`. */
  lemma {:induction false} DigitsBound(s: seq<byte>, acc: nat, k: nat)
    requires |s| <= k
    ensures Digits(s, acc) < (acc + 1) * Pow10(k)
    decreases k
  {
    PowPositive(k);
    if s == [] || !IsDigit(s[0]) {
      ScaleUp(acc + 1, acc + 1, 1, Pow10(k));
    } else {
      var next := 10 * acc + (s[0] as int - 48);
      DigitsBound(s[1..], next, k - 1);
      PowPositive(k - 1);
      ScaleUp(next + 1, 10 * (acc + 1), Pow10(k - 1), Pow10(k - 1));
      assert (10 * (acc + 1)) * Pow10(k - 1) == (acc + 1) * Pow10(k);
    }
  }

  lemma ScaleUp(a: nat, b: nat, x: nat, y: nat)
    requires a <= b && x <= y
    ensures a * x <= b * y
  {
    assert b * y - a * x == b * (y - x) + (b - a) * x;
  }

  lemma {:induction false} PowPositive(k: nat)
    ensures Pow10(k) >= 1
  {
    if k > 0 {
      PowPositive(k - 1);
    }
  }

  lemma {:induction false} DecimalDigits(n: nat)
    ensures |Decimal(n)| >= 1
    ensures forall i | 0 <= i < |Decimal(n)| :: IsDigit(Decimal(n)[i])
  {
    if n >= 10 {
      DecimalDigits(n / 10);
    }
  }

  lemma {:induction false} DecimalLength(n: nat, k: nat)
    requires k > 0
    ensures |Decimal(n)| <= k <==> n < Pow10(k)
    decreases n
  {
    if n < 10 {
      PowPositive(k - 1);
    } else if k == 1 {
      DecimalDigits(n / 10);
      assert Pow10(1) == 10;
    } else {
      DecimalLength(n / 10, k - 1);
      assert Pow10(k) == 10 * Pow10(k - 1);
    }
  }

  lemma {:induction false} DigitsAppend(a: seq<byte>, b: byte, acc: nat)
    requires forall i | 0 <= i < |a| :: IsDigit(a[i])
    requires IsDigit(b)
    ensures Digits(a + [b], acc) == 10 * Digits(a, acc) + (b as int - 48)
    decreases |a|
  {
    if a == [] {
      assert a + [b] == [b];
      assert Digits([b][1..], 10 * acc + (b as int - 48)) == 10 * acc + (b as int - 48);
    } else {
      assert (a + [b])[1..] == a[1..] + [b];
      DigitsAppend(a[1..], b, 10 * acc + (a[0] as int - 48));
    }
  }

  lemma {:induction false} DecimalParses(n: nat)
    ensures Digits(Decimal(n), 0) == n
  {
    if n < 10 {
      assert Decimal(n)[1..] == [];
    } else {
      DecimalParses(n / 10);
      DecimalDigits(n / 10);
      DigitsAppend(Decimal(n / 10), 48 + (n % 10) as byte, 0);
    }
  }

  lemma {:induction false} CStringOfPadded(text: seq<byte>, k: nat)
    requires NUL !in text
    ensures CString(text + Zeros(k)) == text
    decreases |text|
  {
    if text == [] {
      assert text + Zeros(k) == Zeros(k);
    } else {
      assert (text + Zeros(k))[0] == text[0];
      assert (text + Zeros(k))[1..] == text[1..] + Zeros(k);
      CStringOfPadded(text[1..], k);
      assert [text[0]] + text[1..] == text;
    }
  }

  lemma {:induction false} CStringWhole(s: seq<byte>)
    requires NUL !in s
    ensures CString(s) == s
  {
    CStringOfPadded(s, 0);
    assert s + Zeros(0) == s;
  }

  lemma SlotText(text: seq<byte>, size: nat)
    requires size > 0 && NUL !in text
    ensures CString(Slot(text, size)) == if |text| < size then text else text[..size - 1]
    ensures Slot(text, size)[size - 1] == NUL
  {
    var kept := if |text| < size then text else text[..size - 1];
    CStringOfPadded(kept, size - |kept|);
  }

  lemma IntTextShape(n: int)
    ensures NUL !in IntText(n) && |IntText(n)| >= 1
    ensures SkipSpace(IntText(n)) == IntText(n)
  {
    DecimalDigits(if n < 0 then -n else n);
  }

  /** What a decimal slot gives back: the number if its text fits, and some other number if not. */
  lemma SlotReadsBack(n: int, size: nat)
    requires size > 1
    ensures Slot(IntText(n), size)[size - 1] == NUL
    ensures Atoi(Slot(IntText(n), size)) == n <==> 0 - Pow10(size - 2) < n < Pow10(size - 1)
  {
    IntTextShape(n);
    var text := IntText(n);
    SlotText(text, size);
    IntTextFits(n, size);
    if |text| < size {
      FittingTextParses(n, text);
    } else {
      CutTextParsesOtherwise(n, text[..size - 1]);
    }
  }

  lemma IntTextFits(n: int, size: nat)
    requires size > 1
    ensures |IntText(n)| < size <==> 0 - Pow10(size - 2) < n < Pow10(size - 1)
  {
    var m := if n < 0 then -n else n;
    DecimalDigits(m);
    DecimalLength(m, size - 1);
    PowPositive(size - 1);
    PowPositive(size - 2);
    if size > 2 {
      DecimalLength(m, size - 2);
    } else {
      assert Pow10(0) == 1;
    }
  }

  lemma FittingTextParses(n: int, text: seq<byte>)
    requires text == IntText(n) && SkipSpace(text) == text && NUL !in text
    ensures forall slot :: CString(slot) == text ==> Atoi(slot) == n
  {
    var m := if n < 0 then -n else n;
    DecimalDigits(m);
    DecimalParses(m);
    if n < 0 {
      assert text[1..] == Decimal(m);
    }
  }

  /** A number cut off after `k` characters reads as one that prints in `k` characters. */
  lemma CutTextParsesOtherwise(n: int, kept: seq<byte>)
    requires |kept| >= 1 && kept <= IntText(n) && |kept| < |IntText(n)|
    ensures forall slot :: CString(slot) == kept ==> Atoi(slot) != n
  {
    var k := |kept|;
    IntTextShape(n);
    IntTextFits(n, k + 1);
    assert kept[0] == IntText(n)[0];
    DecimalDigits(if n < 0 then -n else n);
    assert SkipSpace(kept) == kept;
    if n < 0 {
      DigitsBound(kept[1..], 0, k - 1);
    } else {
      DigitsBound(kept, 0, k);
    }
  }

  // ------------------------------------------------------------ round trips

  /** A name the daemon can use: at most SFEX_MAX_NODENAME bytes and no NUL. */
  predicate ValidName(n: NodeName) {
    |n| <= 255 && NUL !in n
  }

  /** A lock record survives the disk exactly when its count prints in three characters and its
      owner is a C string that fits the slot. */
  lemma LockRoundTrip(d: LockData, size: nat)
    requires size >= LOCK_RECORD_SIZE
    ensures DecodeLock(EncodeLock(d, size)) == Ok(d) <==> -100 < d.count < 1000 && ValidName(d.owner)
  {
    SlotReadsBack(d.count, 4);
    Pow10Values();
    LockFields(d, size);
    OwnerSlot(d.owner);
  }

  /** Where the fields of a lock block are: status letter, count, name, and zeros behind. */
  lemma LockFields(d: LockData, size: nat)
    requires size >= LOCK_RECORD_SIZE
    ensures var block := EncodeLock(d, size);
            block[0] == (if d.status == Lock then 108 else 117)
            && (forall k | LOCK_RECORD_SIZE <= k < size :: block[k] == NUL)
            && block[1..5] == Slot(IntText(d.count), 4) && block[4] == Slot(IntText(d.count), 4)[3]
            && block[5..261] == Slot(CString(d.owner), 256) && block[260] == Slot(CString(d.owner), 256)[255]
  {
  }

  lemma OwnerSlot(owner: NodeName)
    ensures Slot(CString(owner), 256)[255] == NUL
    ensures CString(Slot(CString(owner), 256)) == owner <==> ValidName(owner)
  {
    SlotText(CString(owner), 256);
    if NUL !in owner {
      CStringWhole(owner);
    }
  }

  /** The control record written for a sector size reads back exactly when the size has at most
      seven digits. */
  lemma ControlRoundTrip(blocksize: nat, numlocks: nat, size: nat)
    requires size >= CONTROL_RECORD_SIZE && 1 <= numlocks <= 999
    ensures DecodeControl(EncodeControl(InitControl(blocksize, numlocks), size)) == Ok(InitControl(blocksize, numlocks))
            <==> blocksize < 10_000_000
  {
    ControlFields(InitControl(blocksize, numlocks), size);
    SlotReadsBack(VERSION, 4);
    SlotReadsBack(REVISION, 4);
    SlotReadsBack(blocksize, 8);
    SlotReadsBack(numlocks, 4);
    Pow10Values();
  }

  /** Where the fields of a control block are. */
  lemma ControlFields(d: ControlData, size: nat)
    requires size >= CONTROL_RECORD_SIZE && |d.magic| == 4
    ensures var block := EncodeControl(d, size);
            && block[..4] == d.magic
            && block[4..8] == Slot(IntText(d.version), 4) && block[7] == Slot(IntText(d.version), 4)[3]
            && block[8..12] == Slot(IntText(d.revision), 4) && block[11] == Slot(IntText(d.revision), 4)[3]
            && block[12..20] == Slot(IntText(d.blocksize), 8) && block[19] == Slot(IntText(d.blocksize), 8)[7]
            && block[20..24] == Slot(IntText(d.numlocks), 4) && block[23] == Slot(IntText(d.numlocks), 4)[3]
  {
  }

  lemma Pow10Values()
    ensures Pow10(2) == 100 && Pow10(3) == 1000 && Pow10(6) == 1_000_000 && Pow10(7) == 10_000_000
  {
    assert Pow10(3) == 1000;
    assert Pow10(5) == 100_000;
    assert Pow10(6) == 1_000_000;
  }

  /** Whatever bytes a block holds, a record that reads without error fits the format again, and its
      count is that of some un-wrapped counter. */
  lemma DecodedFits(block: seq<byte>, d: LockData)
    requires |block| >= LOCK_RECORD_SIZE && DecodeLock(block) == Ok(d)
    ensures -100 < d.count < 1000 && ValidName(d.owner)
    ensures d.count == Wrapped(d.count)
  {
    var field := block[1..5];
    assert field[3] == NUL;
    assert |CString(field)| <= 3;
    var t := SkipSpace(CString(field));
    Pow10Values();
    DigitsBound(t, 0, 3);
    if t != [] {
      DigitsBound(t[1..], 0, 2);
    }
    assert block[5..261][255] == NUL;
    assert |CString(block[5..261])| <= 255;
  }

  // --------------------------------------------------------- refused blocks

  /** The bytes that the reader checks. */
  ghost predicate LockMarksAgree(a: seq<byte>, b: seq<byte>) {
    |a| == |b| >= LOCK_RECORD_SIZE && a[0] == b[0] && a[4] == b[4] && a[260] == b[260]
  }

  /** A lock block is read exactly if its status letter and its two terminators are those of some written
      record, and then the record has that status. */
  lemma DecodeLockExactly(block: seq<byte>)
    requires |block| >= LOCK_RECORD_SIZE
    ensures DecodeLock(block).Ok? <==> exists d :: LockMarksAgree(EncodeLock(d, |block|), block)
    ensures DecodeLock(block).Ok? ==> EncodeLock(DecodeLock(block).value, |block|)[0] == block[0]
  {
    if DecodeLock(block).Ok? {
      LockMarks(DecodeLock(block).value, |block|);
      assert LockMarksAgree(EncodeLock(DecodeLock(block).value, |block|), block);
    }
    if d :| LockMarksAgree(EncodeLock(d, |block|), block) {
      LockMarks(d, |block|);
    }
  }

  lemma LockMarks(d: LockData, size: nat)
    requires size >= LOCK_RECORD_SIZE
    ensures var block := EncodeLock(d, size);
            block[0] == (if d.status == Lock then 108 else 117) && block[4] == NUL && block[260] == NUL
  {
    LockFields(d, size);
    SlotReadsBack(d.count, 4);
    OwnerSlot(d.owner);
  }

  /** What a block says is in its first 261 bytes: whatever follows a written record, it reads back. */
  lemma PaddingIgnored(block: seq<byte>, d: LockData)
    requires |block| >= LOCK_RECORD_SIZE && -100 < d.count < 1000 && ValidName(d.owner)
    requires block[..LOCK_RECORD_SIZE] == EncodeLock(d, |block|)[..LOCK_RECORD_SIZE]
    ensures DecodeLock(block) == Ok(d)
  {
    LockRoundTrip(d, |block|);
    var e, r := EncodeLock(d, |block|), LOCK_RECORD_SIZE;
    assert block[1..5] == block[..r][1..5] == e[..r][1..5] == e[1..5];
    assert block[5..261] == block[..r][5..261] == e[..r][5..261] == e[5..261];
    assert block[0] == block[..r][0] && block[4] == block[..r][4] && block[260] == block[..r][260];
  }

  ghost predicate ControlMarksAgree(a: seq<byte>, b: seq<byte>) {
    && |a| == |b| >= CONTROL_RECORD_SIZE && a[..4] == b[..4]
    && a[7] == b[7] && a[11] == b[11] && a[19] == b[19] && a[23] == b[23]
  }

  /** A control block is read exactly if its magic and its four terminators are those of a block that
      sfex_init writes and it reads as the same version. */
  lemma DecodeControlExactly(block: seq<byte>)
    requires |block| >= CONTROL_RECORD_SIZE
    ensures DecodeControl(block).Ok?
            <==> (exists blocksize: nat, numlocks: int ::
                    ControlMarksAgree(EncodeControl(InitControl(blocksize, numlocks), |block|), block))
                 && Atoi(block[4..8]) == 1
    ensures DecodeControl(block).Ok? ==> DecodeControl(block).value.magic == block[..4]
  {
    if DecodeControl(block).Ok? {
      ControlMarks(0, 0, |block|);
      assert ControlMarksAgree(EncodeControl(InitControl(0, 0), |block|), block);
    }
    if blocksize: nat, numlocks: int :|
        ControlMarksAgree(EncodeControl(InitControl(blocksize, numlocks), |block|), block) {
      ControlMarks(blocksize, numlocks, |block|);
    }
  }

  lemma ControlMarks(blocksize: nat, numlocks: int, size: nat)
    requires size >= CONTROL_RECORD_SIZE
    ensures var block := EncodeControl(InitControl(blocksize, numlocks), size);
            block[..4] == [83, 70, 69, 88]
            && block[7] == NUL && block[11] == NUL && block[19] == NUL && block[23] == NUL
  {
    ControlFields(InitControl(blocksize, numlocks), size);
    SlotEnds(IntText(VERSION), 4);
    SlotEnds(IntText(REVISION), 4);
    SlotEnds(IntText(blocksize), 8);
    SlotEnds(IntText(numlocks), 4);
  }

  lemma SlotEnds(text: seq<byte>, size: nat)
    requires size > 0
    ensures Slot(text, size)[size - 1] == NUL
  {
  }

  // --------------------------------------------------------- numbers by hand

  lemma {:induction false} DigitsStop(a: seq<byte>, tail: seq<byte>, acc: nat)
    requires forall i | 0 <= i < |a| :: IsDigit(a[i])
    requires tail == [] || !IsDigit(tail[0])
    ensures Digits(a + tail, acc) == Digits(a, acc)
    decreases |a|
  {
    if a == [] {
      assert a + tail == tail;
    } else {
      assert (a + tail)[1..] == a[1..] + tail;
      DigitsStop(a[1..], tail, 10 * acc + (a[0] as int - 48));
    }
  }

  lemma {:induction false} SpaceSkipped(space: seq<byte>, t: seq<byte>)
    requires forall i | 0 <= i < |space| :: space[i] == 32 || 9 <= space[i] <= 13
    requires t != [] && t[0] != 32 && !(9 <= t[0] <= 13)
    ensures SkipSpace(space + t) == t
    decreases |space|
  {
    if space == [] {
      assert space + t == t;
    } else {
      assert (space + t)[1..] == space[1..] + t;
      SpaceSkipped(space[1..], t);
    }
  }

  /** atoi skips white space, takes a sign and stops at the first character that is no digit. */
  lemma AtoiReads(space: seq<byte>, sign: seq<byte>, n: nat, tail: seq<byte>)
    requires forall i | 0 <= i < |space| :: space[i] == 32 || 9 <= space[i] <= 13
    requires sign == [] || sign == [PLUS] || sign == [MINUS]
    requires NUL !in tail && (tail == [] || !IsDigit(tail[0]))
    ensures Atoi(space + (sign + (Decimal(n) + tail))) == if sign == [MINUS] then 0 - n else n
  {
    DecimalDigits(n);
    DecimalParses(n);
    DigitsStop(Decimal(n), tail, 0);
    var digits := Decimal(n) + tail;
    var t := sign + digits;
    assert sign != [] ==> t[0] == sign[0] && t[1..] == digits;
    assert sign == [] ==> t == digits;
    SpaceSkipped(space, t);
    CStringWhole(space + t);
  }

  /** A held lock, a fresh one and a control block, byte for byte. */
  lemma LockByHand()
    ensures EncodeLock(LockData(Lock, 12, [110, 49]), 512)[..9] == [108, 49, 50, 0, 0, 110, 49, 0, 0]
  {
    TextsByHand();
    CStringWhole([110, 49]);
  }

  lemma FreshLockByHand()
    ensures EncodeLock(INITIAL_LOCK, 512)[..6] == [117, 48, 0, 0, 0, 0]
  {
    TextsByHand();
  }

  lemma ControlByHand()
    ensures EncodeControl(InitControl(512, 1), 512)[..24]
            == [83, 70, 69, 88, 49, 0, 0, 0, 51, 0, 0, 0, 53, 49, 50, 0, 0, 0, 0, 0, 49, 0, 0, 0]
  {
    TextsByHand();
  }

  lemma TextsByHand()
    ensures IntText(0) == [48] && IntText(1) == [49] && IntText(3) == [51]
    ensures IntText(12) == [49, 50] && IntText(512) == [53, 49, 50]
  {
    assert Decimal(1) == [49] && Decimal(51) == [53, 49];
  }
}
