/** The measurement counter kept in the RTC's retained memory across deep
    sleep: `save_counter` stores it as four little-endian bytes and
    `load_counter` reads the first four bytes back, answering 0 when there is
    no RTC or the memory holds fewer than four bytes. */
module RetainedCounter {
  import opened Wrappers

  /** One byte of a Python `bytes` value. */
  newtype Byte = b: int | 0 <= b < 256

  /** The RTC peripheral: `memory` is what `rtc.memory()` returns and what
      `rtc.memory(data)` replaces. */
  class Rtc {
    var memory: seq<Byte>

    constructor (initial: seq<Byte>)
      ensures memory == initial
    {
      memory := initial;
    }
  }

  /** Number of bytes the counter occupies. */
  const CounterBytes: nat := 4

  function Pow256(k: nat): (r: nat)
    ensures r >= 1
  {
    if k == 0 then 1 else 256 * Pow256(k - 1)
  }

  /** 2^32, the first value `count.to_bytes(4, 'little')` refuses. */
  const CounterLimit: nat := 0x1_0000_0000

  lemma CounterLimitIsPow()
    ensures Pow256(CounterBytes) == CounterLimit
  {
  }

  /** int.to_bytes(k, 'little') of a value that fits in k bytes. */
  function ToLittle(n: nat, k: nat): (r: seq<Byte>)
    requires n < Pow256(k)
    ensures |r| == k
  {
    if k == 0 then [] else [(n % 256) as Byte] + ToLittle(n / 256, k - 1)
  }

  /** int.from_bytes(s, 'little'). */
  function FromLittle(s: seq<Byte>): (r: nat)
    ensures r < Pow256(|s|)
  {
    if s == [] then 0 else s[0] as nat + 256 * FromLittle(s[1..])
  }

  /** Decoding an encoding gives the value back. */
  lemma {:induction false} FromToLittle(n: nat, k: nat)
    requires n < Pow256(k)
    ensures FromLittle(ToLittle(n, k)) == n
  {
    if k > 0 {
      var lo, hi := n % 256, n / 256;
      SplitByte(n, Pow256(k - 1));
      FromToLittle(hi, k - 1);
      FromLittleCons(lo, ToLittle(hi, k - 1));
    }
  }

  lemma FromLittleCons(lo: nat, tail: seq<Byte>)
    requires lo < 256
    ensures FromLittle([lo as Byte] + tail) == lo + 256 * FromLittle(tail)
  {
    var s := [lo as Byte] + tail;
    assert s[1..] == tail;
  }

  /** Encoding a decoded byte string gives the bytes back. */
  lemma {:induction false} ToFromLittle(s: seq<Byte>)
    ensures ToLittle(FromLittle(s), |s|) == s
  {
    if s != [] {
      var n := FromLittle(s);
      var rest := FromLittle(s[1..]);
      assert n == s[0] as nat + 256 * rest;
      DivModByte(s[0] as nat, rest);
      ToFromLittle(s[1..]);
      assert ((n % 256) as Byte) == s[0];
    }
  }

  lemma SplitByte(n: nat, p: nat)
    requires n < 256 * p
    ensures n / 256 < p
    ensures n == n % 256 + 256 * (n / 256)
  {
  }

  lemma DivModByte(lo: nat, hi: nat)
    requires lo < 256
    ensures (lo + 256 * hi) % 256 == lo
    ensures (lo + 256 * hi) / 256 == hi
  {
  }

  /** save_counter's encoding: `None` stands for the OverflowError that
      `to_bytes(4, 'little')` raises for a negative count or one of 2^32 or
      more. */
  function EncodeCounter(count: int): (r: Option<seq<Byte>>)
    ensures r.Some? <==> 0 <= count < CounterLimit
    ensures r.Some? ==> |r.value| == CounterBytes
  {
    if 0 <= count < CounterLimit then Some(ToLittle(count, CounterBytes)) else None
  }

  /** load_counter's decoding of retained memory: the little-endian value of
      the first four bytes, or 0 when there are fewer than four (an empty
      memory included). */
  function DecodeCounter(memory: seq<Byte>): (r: nat)
    ensures r < CounterLimit
    ensures |memory| < CounterBytes ==> r == 0
  {
    if |memory| >= CounterBytes then FromLittle(memory[..CounterBytes]) else 0
  }

  /** Every count that can be stored is loaded back unchanged. */
  lemma CounterRoundTrip(count: int)
    requires 0 <= count < CounterLimit
    ensures EncodeCounter(count).Some?
    ensures DecodeCounter(EncodeCounter(count).value) == count
  {
    var s := ToLittle(count, CounterBytes);
    assert s[..CounterBytes] == s;
    FromToLittle(count, CounterBytes);
  }

  /** Storing the counter that was loaded from a memory of four or more bytes
      writes back exactly its first four bytes. */
  lemma CounterRestoresBytes(memory: seq<Byte>)
    requires |memory| >= CounterBytes
    ensures EncodeCounter(DecodeCounter(memory)) == Some(memory[..CounterBytes])
  {
    ToFromLittle(memory[..CounterBytes]);
  }

  /** load_counter. */
  method LoadCounter(rtc: Rtc?) returns (count: nat)
    ensures rtc == null ==> count == 0
    ensures rtc != null ==> count == DecodeCounter(rtc.memory)
  {
    if rtc == null {
      return 0;
    }
    var data := rtc.memory;
    if |data| > 0 && |data| >= CounterBytes {
      count := FromLittle(data[0..4]);
      return count;
    }
    return 0;
  }

  /** save_counter: false without an RTC or when the count does not fit in
      four bytes (memory untouched), else the memory becomes the count's
      four little-endian bytes. */
  method SaveCounter(rtc: Rtc?, count: int) returns (ok: bool)
    modifies rtc
    ensures ok <==> rtc != null && 0 <= count < CounterLimit
    ensures ok ==> rtc.memory == EncodeCounter(count).value
    ensures ok ==> DecodeCounter(rtc.memory) == count
    ensures !ok && rtc != null ==> rtc.memory == old(rtc.memory)
  {
    if rtc == null {
      return false;
    }
    var data := EncodeCounter(count);
    if data.None? {
      return false;
    }
    rtc.memory := data.value;
    CounterRoundTrip(count);
    return true;
  }
}
