/** The SF-EX lock record and its wrapping counter (tools/sfex.h). */
module SfexTypes {
  import opened Bytes

  type NodeName = seq<byte>

  datatype Status = Unlock | Lock

  /** One lock record, as the daemon holds it in memory. */
  datatype LockData = LockData(status: Status, count: int, owner: NodeName)

  const MAX_COUNT := 999

  /** SFEX_NEXT_COUNT: the counter value that follows `c`. */
  function NextCount(c: int): int {
    if c >= MAX_COUNT then c - MAX_COUNT else c + 1
  }

  /** The record is a lock held in the name of `n`. */
  predicate OwnLock(d: LockData, n: NodeName) {
    d.status == Lock && d.owner == n
  }

  /** The counter value of an un-wrapped counter: it counts modulo 1000 once it is not negative. */
  function Wrapped(total: int): int {
    if total < 0 then total else total % 1000
  }

  /** From any value up to 999 on, the macro counts modulo 1000. */
  lemma NextCountWraps(total: int)
    ensures NextCount(Wrapped(total)) == Wrapped(total + 1)
  {
    if total >= 0 {
      if total % 1000 == 999 {
        assert total + 1 == 1000 * (total / 1000 + 1);
      } else {
        assert total + 1 == 1000 * (total / 1000) + (total % 1000 + 1);
      }
    }
  }

  /** Two un-wrapped counters that are less than one lap apart wrap to the same value only if they are equal. */
  lemma SameCountSameTotal(low: int, high: int)
    requires low <= high < low + 1000
    requires Wrapped(low) == Wrapped(high)
    ensures low == high
  {
    if low >= 0 {
      var a, b := low / 1000, high / 1000;
      assert low == 1000 * a + low % 1000 && high == 1000 * b + low % 1000;
    }
  }

  /** The wrapped value `k` counter steps after `count`. */
  function CountPlus(count: int, k: nat): int {
    Wrapped(count + k)
  }

  /** Stepping the wrapped value is wrapping the stepped value. */
  lemma CountAfter(total: int, k: nat)
    ensures CountPlus(Wrapped(total), k) == Wrapped(total + k)
  {
    if total >= 0 {
      var q, r := total / 1000, total % 1000;
      assert total + k == 1000 * q + (r + k);
      var q', r' := (r + k) / 1000, (r + k) % 1000;
      assert total + k == 1000 * (q + q') + r';
    }
  }
}
