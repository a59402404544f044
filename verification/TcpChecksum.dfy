/** The TCP checksums of tools/tickle_tcp.c, on a little-endian host. */
module TcpChecksum {
  import opened Bytes

  const WORD := 0x1_0000
  const UINT32 := 0x1_0000_0000

  /** The sum of the big-endian 16-bit words of `data`, an odd last byte padded with zero
      (section 1 of RFC 1071), without any wrap-around. */
  function WordSum(data: seq<byte>): nat {
    if |data| == 0 then 0
    else if |data| == 1 then 256 * data[0] as int
    else 256 * data[0] as int + data[1] as int + WordSum(data[2..])
  }

  lemma {:induction false} WordSumBound(data: seq<byte>)
    ensures WordSum(data) <= 0xFFFF * ((|data| + 1) / 2)
    decreases |data|
  {
    if |data| >= 2 {
      WordSumBound(data[2..]);
      assert (|data| + 1) / 2 == (|data[2..]| + 1) / 2 + 1;
    }
  }

  /** An odd last byte counts as if a zero byte followed (section 1 of RFC 1071). */
  lemma {:induction false} OddByteIsPadded(data: seq<byte>)
    requires |data| % 2 == 1
    ensures WordSum(data) == WordSum(data + [0])
    decreases |data|
  {
    if |data| == 1 {
      assert (data + [0])[2..] == [];
    } else {
      assert (data + [0])[2..] == data[2..] + [0];
      OddByteIsPadded(data[2..]);
    }
  }

  /** uint16_checksum, in 32-bit arithmetic. */
  method Uint16Checksum(data: seq<byte>) returns (sum: nat)
    ensures sum == WordSum(data) % UINT32
    ensures |data| <= 0x1_FFFE ==> sum == WordSum(data)
  {
    sum := 0;
    var at := 0;
    ghost var done: nat := 0;
    while |data| - at >= 2
      invariant 0 <= at <= |data|
      invariant done + WordSum(data[at..]) == WordSum(data) && sum == done % UINT32
      decreases |data| - at
    {
      var word := 256 * data[at] as int + data[at + 1] as int;
      assert WordSum(data[at..]) == word + WordSum(data[at + 2..]) by {
        assert data[at..][2..] == data[at + 2..];
      }
      SumWraps(done, word);
      sum := Sum32(sum, word);
      done := done + word;
      at := at + 2;
    }
    if |data| - at == 1 {
      SumWraps(done, 256 * data[at] as int);
      sum := Sum32(sum, 256 * data[at] as int);
    }
    WordSumBound(data);
  }

  lemma SumWraps(done: nat, x: nat)
    ensures (done % UINT32 + x) % UINT32 == (done + x) % UINT32
  {
    Wrap32(done % UINT32 + x, done / UINT32);
  }

  lemma Wrap32(a: nat, q: nat)
    ensures (a + UINT32 * q) % UINT32 == a % UINT32
  {
    assert a + UINT32 * q == UINT32 * (a / UINT32 + q) + a % UINT32;
  }

  lemma Wrap16(a: nat, q: nat)
    ensures (a + 0xFFFF * q) % 0xFFFF == a % 0xFFFF
  {
    assert a + 0xFFFF * q == 0xFFFF * (a / 0xFFFF + q) + a % 0xFFFF;
  }

  // ---------------------------------------------------------------- folding

  function Fold(x: nat): nat {
    x % WORD + x / WORD
  }

  /** The one's-complement sum of section 1 of RFC 1071: carries are added back until none is left. */
  function OnesSum(x: nat): nat
    decreases x
  {
    if x < WORD then x else OnesSum(Fold(x))
  }

  /** Folding keeps the value modulo 65535, and keeps zero apart from the rest. */
  lemma FoldKeeps(x: nat)
    ensures Fold(x) % 0xFFFF == x % 0xFFFF
    ensures Fold(x) == 0 <==> x == 0
    ensures x >= WORD ==> Fold(x) < x
  {
    var q, r := x / WORD, x % WORD;
    assert x == WORD * q + r && Fold(x) == r + q;
    assert x == Fold(x) + 0xFFFF * q;
    Wrap16(Fold(x), q);
  }

  lemma {:induction false} OnesSumIs(x: nat)
    ensures OnesSum(x) == 0xFFFF <==> x > 0 && x % 0xFFFF == 0
    decreases x
  {
    if x < WORD {
      assert x % 0xFFFF == 0 <==> x == 0 || x == 0xFFFF;
    } else {
      FoldKeeps(x);
      OnesSumIs(Fold(x));
    }
  }

  /** Two folds bring every 32-bit sum below 2^16. */
  lemma TwoFoldsSuffice(x: nat)
    requires x < UINT32
    ensures Fold(Fold(x)) < WORD
    ensures Fold(Fold(x)) % 0xFFFF == x % 0xFFFF
    ensures Fold(Fold(x)) == 0 <==> x == 0
  {
    FoldKeeps(x);
    FoldKeeps(Fold(x));
    assert x / WORD < WORD;
    assert Fold(x) <= 2 * 0xFFFF;
  }

  /** The checksum field for a sum: the complement of its two folds, 0 replaced by 0xFFFF. */
  function FieldFor(sum: nat): (r: nat)
    requires sum < UINT32
  {
    var folded := Fold(Fold(sum));
    if folded >= 0xFFFF then 0xFFFF else 0xFFFF - folded
  }

  lemma FieldCompletes(sum: nat)
    requires sum < UINT32
    ensures 0 < FieldFor(sum) < WORD
    ensures OnesSum(sum + FieldFor(sum)) == 0xFFFF
  {
    TwoFoldsSuffice(sum);
    var folded := Fold(Fold(sum));
    if folded >= 0xFFFF {
      assert folded == 0xFFFF;
      assert sum % 0xFFFF == 0;
      assert (sum + 0xFFFF) % 0xFFFF == 0;
    } else {
      assert folded % 0xFFFF == folded;
      assert sum == 0xFFFF * (sum / 0xFFFF) + folded;
      Wrap16(0, sum / 0xFFFF + 1);
      assert sum + FieldFor(sum) == 0xFFFF * (sum / 0xFFFF + 1);
    }
    OnesSumIs(sum + FieldFor(sum));
  }

  // ------------------------------------------------------------ the segment

  /** The segment with the 16-bit field at `at` set to `w`, in network byte order. */
  function SetWord(data: seq<byte>, at: nat, w: nat): seq<byte>
    requires at + 2 <= |data| && w < WORD
  {
    data[at := (w / 256) as byte][at + 1 := (w % 256) as byte]
  }

  lemma {:induction false} SetWordSum(data: seq<byte>, at: nat, w: nat)
    requires at % 2 == 0 && at + 2 <= |data| && w < WORD
    requires data[at] == 0 && data[at + 1] == 0
    ensures WordSum(SetWord(data, at, w)) == WordSum(data) + w
    decreases |data|
  {
    var r := SetWord(data, at, w);
    if at == 0 {
      assert r[2..] == data[2..];
      assert w == 256 * (w / 256) + w % 256;
    } else {
      assert r[2..] == SetWord(data[2..], at - 2, w);
      assert data[2..][at - 2] == data[at] && data[2..][at - 1] == data[at + 1];
      SetWordSum(data[2..], at - 2, w);
    }
  }

  datatype Ipv4Header = Ipv4Header(source: seq<byte>, destination: seq<byte>, protocol: byte)
  datatype Ipv6Header = Ipv6Header(source: seq<byte>, destination: seq<byte>, next: byte)

  predicate Valid4(h: Ipv4Header) {
    |h.source| == 4 && |h.destination| == 4
  }

  predicate Valid6(h: Ipv6Header) {
    |h.source| == 16 && |h.destination| == 16
  }

  /** The pseudo-header of section 3.1 of RFC 793. */
  function Pseudo4(h: Ipv4Header, length: nat): seq<byte>
    requires length < WORD
  {
    h.source + h.destination + [0, h.protocol, (length / 256) as byte, (length % 256) as byte]
  }

  /** The pseudo-header of section 8.1 of RFC 8200, for payloads below 2^16 bytes. */
  function Pseudo6(h: Ipv6Header, length: nat): seq<byte>
    requires length < WORD
  {
    h.source + h.destination + [0, 0, (length / 256) as byte, (length % 256) as byte, 0, 0, 0, h.next]
  }

  lemma {:induction false} WordSumConcat(a: seq<byte>, b: seq<byte>)
    requires |a| % 2 == 0
    ensures WordSum(a + b) == WordSum(a) + WordSum(b)
    decreases |a|
  {
    if |a| == 0 {
      assert a + b == b;
    } else {
      assert (a + b)[2..] == a[2..] + b;
      WordSumConcat(a[2..], b);
    }
  }

  /** What a receiver computes over pseudo-header and segment. */
  function ReceiverSum(pseudo: seq<byte>, segment: seq<byte>): nat {
    OnesSum(WordSum(pseudo) + WordSum(segment))
  }

  /** A 16-bit field, zero so far, at an even offset. */
  predicate ZeroField(data: seq<byte>, at: nat) {
    at % 2 == 0 && at + 2 <= |data| && data[at] == 0 && data[at + 1] == 0
  }

  lemma CompletesSegment(pseudo: seq<byte>, data: seq<byte>, at: nat, sum: nat, field: nat)
    requires ZeroField(data, at) && sum == WordSum(pseudo) + WordSum(data) < UINT32 && field == FieldFor(sum)
    ensures field < WORD && ReceiverSum(pseudo, SetWord(data, at, field)) == 0xFFFF
  {
    FieldCompletes(sum);
    SetWordSum(data, at, field);
    assert WordSum(pseudo) + WordSum(SetWord(data, at, field)) == sum + field;
  }

  lemma Pseudo4Sum(h: Ipv4Header, length: nat)
    requires Valid4(h) && length < WORD
    ensures WordSum(Pseudo4(h, length)) == WordSum(h.source) + WordSum(h.destination) + h.protocol as int + length
  {
    var tail: seq<byte> := [0, h.protocol, (length / 256) as byte, (length % 256) as byte];
    WordSumConcat(h.source + h.destination, tail);
    WordSumConcat(h.source, h.destination);
    var last := tail[2..];
    assert last[2..] == [] && WordSum(last) == 256 * (length / 256) + length % 256;
    assert WordSum(tail) == h.protocol as int + WordSum(last);
  }

  lemma Pseudo6Sum(h: Ipv6Header, length: nat)
    requires Valid6(h) && length < WORD
    ensures WordSum(Pseudo6(h, length)) == WordSum(h.source) + WordSum(h.destination) + length + h.next as int
  {
    var tail: seq<byte> := [0, 0, (length / 256) as byte, (length % 256) as byte, 0, 0, 0, h.next];
    WordSumConcat(h.source + h.destination, tail);
    WordSumConcat(h.source, h.destination);
    LengthWords(length, h.next);
  }

  /** All sums of the pseudo-header and a segment of IP size stay below 2^32. */
  lemma SumsFit(a: seq<byte>, b: seq<byte>, data: seq<byte>)
    requires |a| == |b| <= 16 && |data| < WORD
    ensures WordSum(a) + WordSum(b) + WordSum(data) + 256 + WORD < UINT32
  {
    WordSumBound(a);
    WordSumBound(b);
    WordSumBound(data);
  }

  // ------------------------------------------------------------- the program

  /** The end of both checksum functions: two folds, complement, and the substitution for zero. */
  method Finish(sum0: nat) returns (field: nat)
    requires sum0 < UINT32
    ensures field == FieldFor(sum0)
  {
    var sum := sum0;
    sum := Sum32(sum % WORD, sum / WORD);
    assert sum == Fold(sum0);
    sum := Sum32(sum % WORD, sum / WORD);
    TwoFoldsSuffice(sum0);
    field := 0xFFFF - sum % WORD;
    if field == 0 {
      field := 0xFFFF;
    }
  }

  /** The field is not zero, and in whatever even, zeroed place it is put the receiver's sum is 0xFFFF. */
  ghost predicate Completes(pseudo: seq<byte>, data: seq<byte>, field: nat) {
    0 < field < WORD
    && forall at: nat | ZeroField(data, at) :: ReceiverSum(pseudo, SetWord(data, at, field)) == 0xFFFF
  }

  lemma FieldCompletesSegment(pseudo: seq<byte>, data: seq<byte>, sum: nat, field: nat)
    requires sum == WordSum(pseudo) + WordSum(data) < UINT32 && field == FieldFor(sum)
    ensures Completes(pseudo, data, field)
  {
    FieldCompletes(sum);
    forall at: nat | ZeroField(data, at) ensures ReceiverSum(pseudo, SetWord(data, at, field)) == 0xFFFF {
      CompletesSegment(pseudo, data, at, sum, field);
    }
  }

  method Sum32(a: nat, b: nat) returns (r: nat)
    ensures r == (a + b) % UINT32
    ensures a + b < UINT32 ==> r == a + b
  {
    r := (a + b) % UINT32;
  }

  /** tcp_checksum over a segment and its IPv4 header. */
  method Checksum4(data: seq<byte>, h: Ipv4Header) returns (field: nat)
    requires Valid4(h) && |data| < WORD
    ensures Completes(Pseudo4(h, |data|), data, field)
  {
    SumsFit(h.source, h.destination, data);
    var sum := Uint16Checksum(data);
    var source := Uint16Checksum(h.source);
    sum := Sum32(sum, source);
    var destination := Uint16Checksum(h.destination);
    sum := Sum32(sum, destination);
    sum := Sum32(sum, h.protocol as int + |data|);
    field := Finish(sum);
    Pseudo4Sum(h, |data|);
    FieldCompletesSegment(Pseudo4(h, |data|), data, sum, field);
  }

  /** tcp_checksum6 over a segment and its IPv6 header. */
  method Checksum6(data: seq<byte>, h: Ipv6Header) returns (field: nat)
    requires Valid6(h) && |data| < WORD
    ensures Completes(Pseudo6(h, |data|), data, field)
  {
    SumsFit(h.source, h.destination, data);
    var source := Uint16Checksum(h.source);
    var destination := Uint16Checksum(h.destination);
    var sum := Sum32(source, destination);
    var phdr: seq<byte> := [0, 0, (|data| / 256) as byte, (|data| % 256) as byte, 0, 0, 0, h.next];
    LengthWords(|data|, h.next);
    var length := Uint16Checksum(phdr);
    sum := Sum32(sum, length);
    var words := Uint16Checksum(data);
    sum := Sum32(sum, words);
    field := Finish(sum);
    Pseudo6Sum(h, |data|);
    FieldCompletesSegment(Pseudo6(h, |data|), data, sum, field);
  }

  lemma LengthWords(length: nat, next: byte)
    requires length < WORD
    ensures WordSum([0, 0, (length / 256) as byte, (length % 256) as byte, 0, 0, 0, next]) == length + next as int
  {
    var n: seq<byte> := [0, 0, (length / 256) as byte, (length % 256) as byte, 0, 0, 0, next];
    var n1, n2, n3 := n[2..], n[2..][2..], n[2..][2..][2..];
    assert n3[2..] == [] && n3[0] == 0 && n3[1] == next;
    assert WordSum(n3) == next as int;
    assert WordSum(n2) == WordSum(n3);
    assert WordSum(n1) == 256 * (length / 256) + length % 256 + WordSum(n2);
    assert WordSum(n) == WordSum(n1);
  }
}
