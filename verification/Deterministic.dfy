/** The deterministic sampler of sample/deterministic.go. The hash of the salted trace ID (the
    first four bytes of its sha1) is a parameter. */
module Deterministic {
  import opened Events
  import Sharder

  const TWO_32: nat := 0x1_0000_0000

  type Uint32 = v: nat | v < TWO_32

  /** Go's uint32(rate). */
  function Truncated(rate: int): nat {
    rate % TWO_32
  }

  /** Start divides by the truncated rate, and Go panics on a zero divisor. */
  predicate Startable(rate: int) {
    Truncated(rate) != 0
  }

  function Bound(rate: int): nat
    requires Startable(rate)
  {
    (TWO_32 - 1) / Truncated(rate)
  }

  class DeterministicSampler {
    const hash: string -> Uint32
    var sampleRate: int
    var upperBound: nat

    ghost predicate Started(rate: int)
      reads this
    {
      Startable(rate) && sampleRate == rate && upperBound == Bound(rate)
    }

    constructor (hash: string -> Uint32)
      ensures this.hash == hash
    {
      this.hash, sampleRate, upperBound := hash, 0, 0;
    }

    /** `ok` is false where the division panics. */
    method Start(configured: int) returns (ok: bool)
      modifies this
      ensures ok <==> Startable(configured)
      ensures ok ==> Started(configured)
      ensures sampleRate == configured && (!ok ==> upperBound == old(upperBound))
    {
      sampleRate := configured;
      ok := sampleRate % TWO_32 != 0;
      if ok {
        upperBound := (TWO_32 - 1) / (sampleRate % TWO_32);
      }
    }

    method GetSampleRate(ghost configured: int, traceID: string) returns (d: Decision)
      requires Started(configured)
      ensures Decides(configured, hash, traceID, d)
      ensures d.reason == if configured <= 1 then "deterministic/always" else "deterministic/chance"
    {
      if sampleRate <= 1 {
        return Decision(1, true, "deterministic/always");
      }
      var v := hash(traceID);
      return Decision(sampleRate, v <= upperBound, "deterministic/chance");
    }
  }

  /** A sampler at this rate decides so for the trace ID: kept exactly if the hash is one the rate
      keeps, and reported at the rate, or at 1 if everything is kept. */
  ghost predicate Decides(rate: int, hash: string -> Uint32, traceID: string, d: Decision) {
    && Startable(rate)
    && (d.keep <==> hash(traceID) in KeptHashes(rate))
    && d.mark.None? && d.rate == if rate <= 1 then 1 else rate
  }

  predicate Keeps(rate: int, v: nat)
    requires Startable(rate)
  {
    rate <= 1 || v <= Bound(rate)
  }

  /** The hash values a started sampler keeps. */
  ghost function KeptHashes(rate: int): set<nat>
    requires Startable(rate)
  {
    set v: nat | 0 <= v < TWO_32 && Keeps(rate, v)
  }

  /** All of them at a rate of 1 or less, and otherwise the first Bound + 1. */
  lemma KeptCount(rate: int)
    requires Startable(rate)
    ensures |KeptHashes(rate)| == if rate <= 1 then TWO_32 else Bound(rate) + 1
  {
    var k := if rate <= 1 then TWO_32 else Bound(rate) + 1;
    assert Bound(rate) < TWO_32 by { BoundBelow(Truncated(rate)); }
    Sharder.IntervalCount(0, k);
    assert KeptHashes(rate) == Sharder.Interval(0, k);
  }

  lemma BoundBelow(m: nat)
    requires 1 <= m < TWO_32
    ensures 1 <= (TWO_32 - 1) / m < TWO_32
    ensures TWO_32 <= ((TWO_32 - 1) / m + 1) * m <= TWO_32 - 1 + m
  {
    var q, r := (TWO_32 - 1) / m, (TWO_32 - 1) % m;
    assert TWO_32 - 1 == q * m + r && 0 <= r < m;
    assert (q + 1) * m == q * m + m;
  }

  /** Which hash values those are: the ones that times the rate stay below 2^32. */
  lemma KeptIff(rate: int, v: nat)
    requires 1 <= rate < TWO_32
    ensures v in KeptHashes(rate) <==> v * rate <= 0xFFFF_FFFF
  {
    var m: nat := 0xFFFF_FFFF;
    assert Truncated(rate) == rate;
    if v <= m / rate {
      Sharder.MulMonotone(v, m / rate, rate);
      assert m / rate * rate <= m;
    } else {
      Sharder.MulMonotone(m / rate + 1, v, rate);
      assert (m / rate + 1) * rate == m / rate * rate + rate > m;
    }
    assert v <= v * rate by { Sharder.MulMonotone(1, rate, v); }
  }

  /** The share kept is what the rate says, to within one hash value: r times the number kept
      covers the whole hash space and overshoots by less than r. */
  ghost predicate Fair(rate: int)
    requires Startable(rate)
  {
    TWO_32 <= |KeptHashes(rate)| * rate <= TWO_32 - 1 + rate
  }

  /** The truncation to 32 bits is harmless exactly for the rates it does not change. */
  lemma FairIff(rate: int)
    requires Startable(rate)
    ensures Fair(rate) <==> 1 <= rate < TWO_32
  {
    KeptCount(rate);
    BoundBelow(Truncated(rate));
    if rate < 1 {
      assert TWO_32 * rate <= 0;
    } else if rate >= TWO_32 {
      var k := Bound(rate);
      assert (k + 1) * rate == k * rate + rate;
      Sharder.MulMonotone(1, k, rate);
    }
  }

  /** A sampler set to one in 2^32 + 2 keeps half of all traces, and some that one in 3 drops. */
  lemma HugeRateIsUnfair()
    ensures !Fair(TWO_32 + 2) && |KeptHashes(TWO_32 + 2)| == TWO_32 / 2
    ensures !(KeptHashes(TWO_32 + 2) <= KeptHashes(3))
  {
    assert TWO_32 / 2 - 1 in KeptHashes(TWO_32 + 2) && TWO_32 / 2 - 1 !in KeptHashes(3);
    KeptCount(TWO_32 + 2);
    FairIff(TWO_32 + 2);
  }

  /** What a higher rate keeps a lower rate keeps too, if and only if the lower one keeps
      everything or truncation leaves the bounds in order. */
  lemma KeepsFewerIff(low: int, high: int)
    requires low <= high && Startable(low) && Startable(high)
    ensures KeptHashes(high) <= KeptHashes(low) <==> low <= 1 || Bound(high) <= Bound(low)
  {
    BoundBelow(Truncated(low));
    BoundBelow(Truncated(high));
    if low > 1 { assert Bound(high) in KeptHashes(high); }
  }

  /** Below 2^32 nothing is truncated, and every higher rate keeps fewer. */
  lemma HigherRateKeepsFewer(low: int, high: int)
    requires low <= high < TWO_32 && Startable(low) && Startable(high)
    ensures KeptHashes(high) <= KeptHashes(low)
  {
    if low > 1 {
      var m := TWO_32 - 1;
      var q := m / high;
      assert Truncated(low) == low && Truncated(high) == high;
      assert q * high <= m;
      assert q * low <= q * high by { Sharder.MulMonotone(low, high, q); }
      if q > m / low {
        Sharder.MulMonotone(m / low + 1, q, low);
      }
      assert Bound(high) <= Bound(low);
    }
    KeepsFewerIff(low, high);
  }
}
