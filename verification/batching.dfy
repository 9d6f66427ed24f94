/**
 * How a "packets available" notification is cut into reads of at most
 * `MAX_PACKET_COUNT_AT_ONCE` packets (`on_vmnet_packets_available`).
 */
module Batching {
  import opened Types

  /** Upper bound on the packets asked of one `vmnet_read`. */
  const MaxPacketCountAtOnce: nat := 32

  /**
   * The event carries the estimate as `uint64_t`; the handler takes it as
   * `int64_t`, which reinterprets the same 64 bits in two's complement.
   */
  function AsInt64(u: uint64): (r: int64)
    ensures r >= 0 <==> u < 0x8000_0000_0000_0000
    ensures r >= 0 ==> r == u
    ensures r < 0 ==> r + 0x1_0000_0000_0000_0000 == u
  {
    if u < 0x8000_0000_0000_0000 then u else u - 0x1_0000_0000_0000_0000
  }

  /** C's `/` on a positive divisor: the quotient truncated toward zero. */
  function CDiv(a: int, d: int): (q: int)
    requires d > 0
    ensures a >= 0 ==> q >= 0
    ensures a <= 0 ==> q <= 0
    ensures a == d * q + CRem(a, d)
  {
    if a >= 0 then a / d else -((-a) / d)
  }

  /** C's `%` on a positive divisor: takes the sign of the dividend. */
  function CRem(a: int, d: int): (r: int)
    requires d > 0
    ensures a >= 0 ==> 0 <= r < d
    ensures a <= 0 ==> -d < r <= 0
  {
    if a >= 0 then a % d else -((-a) % d)
  }

  /** A multiple of `d` strictly between `-d` and `d` is zero. */
  lemma SmallMultiple(d: int, k: int)
    requires d > 0 && -d < d * k < d
    ensures k == 0
  {
  }

  /**
   * C's quotient and remainder are the only pair that puts the dividend
   * back together with a remainder of the dividend's sign below the divisor.
   */
  lemma TruncatedDivisionUnique(a: int, d: int, q: int, r: int)
    requires d > 0 && a == d * q + r
    requires a >= 0 ==> 0 <= r < d
    requires a <= 0 ==> -d < r <= 0
    ensures q == CDiv(a, d) && r == CRem(a, d)
  {
    var q0, r0 := CDiv(a, d), CRem(a, d);
    assert d * (q - q0) == r0 - r by {
      assert d * q - d * q0 == d * (q - q0);
    }
    SmallMultiple(d, q - q0);
  }

  /** Total of a list of batch sizes. */
  function Sum(s: seq<nat>): nat {
    if |s| == 0 then 0 else s[0] + Sum(s[1..])
  }

  /**
   * Reference cut of `n` packets: full batches while more than one batch
   * remains, then whatever is left; nothing for a count of zero or below.
   */
  function Batches(n: int): seq<nat>
    decreases n
  {
    if n <= 0 then []
    else if n <= MaxPacketCountAtOnce then [n]
    else [MaxPacketCountAtOnce] + Batches(n - MaxPacketCountAtOnce)
  }

  /**
   * The batches cover the estimate exactly, each asks for 1 to 32 packets,
   * only the last may be short, and there are ceil(n / 32) of them.
   */
  lemma {:induction false} BatchesCover(n: int)
    ensures n <= 0 ==> Batches(n) == []
    ensures n >= 0 ==> Sum(Batches(n)) == n
    ensures n >= 0 ==> |Batches(n)| == (n + MaxPacketCountAtOnce - 1) / MaxPacketCountAtOnce
    ensures forall k :: 0 <= k < |Batches(n)| ==> 1 <= Batches(n)[k] <= MaxPacketCountAtOnce
    ensures forall k :: 0 <= k < |Batches(n)| - 1 ==> Batches(n)[k] == MaxPacketCountAtOnce
    decreases n
  {
    if n > MaxPacketCountAtOnce {
      BatchesCover(n - MaxPacketCountAtOnce);
      var b := Batches(n);
      assert b[1..] == Batches(n - MaxPacketCountAtOnce);
    }
  }

  /** `q` full batches followed by a non-empty remainder `r`, as the handler issues them. */
  lemma {:induction false} BatchesAsQuotient(q: nat, r: int)
    requires 0 <= r < MaxPacketCountAtOnce
    ensures Batches(MaxPacketCountAtOnce * q + r)
      == seq(q, _ => MaxPacketCountAtOnce) + (if r > 0 then [r] else [])
  {
    if q > 0 {
      BatchesAsQuotient(q - 1, r);
      assert seq(q, _ => MaxPacketCountAtOnce)
        == [MaxPacketCountAtOnce] + seq(q - 1, _ => MaxPacketCountAtOnce);
    }
  }

  /**
   * The handler's own loop: `estim / 32` reads of 32 packets, then one read
   * of `estim % 32` packets if that remainder is positive.
   */
  method SplitEstimate(estim: int64) returns (sizes: seq<nat>)
    ensures sizes == Batches(estim)
    ensures estim <= 0 ==> sizes == []
    ensures estim >= 0 ==> Sum(sizes) == estim
    ensures forall k :: 0 <= k < |sizes| ==> 1 <= sizes[k] <= MaxPacketCountAtOnce
  {
    var q := CDiv(estim, MaxPacketCountAtOnce);
    var r := CRem(estim, MaxPacketCountAtOnce);
    sizes := [];
    var i := 0;
    while i < q
      invariant 0 <= i <= (if q > 0 then q else 0)
      invariant sizes == seq(i, _ => MaxPacketCountAtOnce)
    {
      sizes := sizes + [MaxPacketCountAtOnce];
      i := i + 1;
    }
    if r > 0 {
      sizes := sizes + [r];
    }
    BatchesCover(estim);
    if estim >= 0 {
      assert i == q && estim == MaxPacketCountAtOnce * q + r;
      BatchesAsQuotient(q, r);
    } else {
      assert sizes == [];
    }
  }
}
