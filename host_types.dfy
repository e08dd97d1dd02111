/** Machine-level facts both engine generations rely on: the 32-bit `unsigned`
    type of the C++ code, how `memcpy` lays wire bytes into `int16_t` samples on
    a little-endian host, and `ntohs`, which the puller applies to every sample. */
module HostTypes {

  const U32Limit: int := 0x1_0000_0000

  /** C++ `unsigned` (32 bits on the Android ABIs the engine targets). */
  type u32 = x: int | 0 <= x < 0x1_0000_0000

  /** The value an `unsigned` holds after an arithmetic result `x` wraps. */
  function Wrap32(x: int): (r: u32)
    ensures 0 <= x < U32Limit ==> r == x
    ensures (x - r) % U32Limit == 0
  {
    x % U32Limit
  }

  /** The sample value a little-endian host sees when the byte `lo` is stored
      at the lower address and `hi` right after it. */
  function LittleEndian(lo: bv8, hi: bv8): bv16
  {
    ((hi as bv16) << 8) | (lo as bv16)
  }

  /** The sample value the sender meant: network byte order is big-endian,
      so the first byte on the wire is the high byte. */
  function NetworkOrder(first: bv8, second: bv8): bv16
  {
    ((first as bv16) << 8) | (second as bv16)
  }

  /** `ntohs` on a little-endian host: swaps the two bytes of a sample. */
  function NetToHost16(x: bv16): bv16
  {
    (x << 8) | (x >> 8)
  }

  /** `ntohs` exchanges the two bytes of a sample: the high byte of the
      result is the low byte of the argument and the other way round. */
  lemma NetToHost16SwapsBytes(x: bv16)
    ensures HighByte(NetToHost16(x)) == LowByte(x) && LowByte(NetToHost16(x)) == HighByte(x)
  {
  }

  /** `ntohs` undoes itself: applying it twice gives the sample back. */
  lemma NetToHost16Involution(x: bv16)
    ensures NetToHost16(NetToHost16(x)) == x
  {
  }

  /** `ntohs` applied to what `memcpy` stored recovers the big-endian value
      the two wire bytes encode. */
  lemma NetToHostOfStored(first: bv8, second: bv8)
    ensures NetToHost16(LittleEndian(first, second)) == NetworkOrder(first, second)
  {
  }

  /** The samples a vector of `|bytes| / 2` elements holds after `memcpy`
      of `bytes` into it; an odd trailing byte lies outside the vector. */
  function LoadSamples(bytes: seq<bv8>): (r: seq<bv16>)
    ensures |r| == |bytes| / 2
    ensures forall k :: 0 <= k < |r| ==> r[k] == LittleEndian(bytes[2 * k], bytes[2 * k + 1])
  {
    seq(|bytes| / 2, k requires 0 <= k < |bytes| / 2 => LittleEndian(bytes[2 * k], bytes[2 * k + 1]))
  }

  /** The byte of a sample at the higher address on a little-endian host. */
  function HighByte(x: bv16): bv8
  {
    (x >> 8) as bv8
  }

  /** The byte of a sample at the lower address on a little-endian host. */
  function LowByte(x: bv16): bv8
  {
    (x & 0xFF) as bv8
  }

  /** The new low byte of a sample whose lower-address byte is overwritten. */
  function WithLowByte(x: bv16, lo: bv8): (r: bv16)
    ensures r >> 8 == x >> 8
    ensures LowByte(r) == lo
  {
    (x & 0xFF00) | (lo as bv16)
  }

  /** A slot of `int16_t` samples after `memcpy` of `bytes` to its start,
      without resizing it: the first `|bytes| / 2` samples are replaced, an odd
      trailing byte replaces the low byte of the next sample, and the rest of
      the slot keeps its old samples. */
  function CopyInto(slot: seq<bv16>, bytes: seq<bv8>): (r: seq<bv16>)
    requires |bytes| <= 2 * |slot|
    ensures |r| == |slot|
    ensures forall k :: 0 <= k < |bytes| / 2 ==> r[k] == LittleEndian(bytes[2 * k], bytes[2 * k + 1])
    ensures |bytes| % 2 == 1 ==> r[|bytes| / 2] == WithLowByte(slot[|bytes| / 2], bytes[|bytes| - 1])
    ensures forall k :: (|bytes| + 1) / 2 <= k < |slot| ==> r[k] == slot[k]
  {
    var whole := LoadSamples(bytes);
    if |bytes| % 2 == 0 then
      whole + slot[|whole|..]
    else
      whole + [WithLowByte(slot[|whole|], bytes[|bytes| - 1])] + slot[|whole| + 1..]
  }

  /** The samples the puller hands to the audio device for stored `samples`. */
  function ToHost(samples: seq<bv16>): (r: seq<bv16>)
    ensures |r| == |samples|
    ensures forall k :: 0 <= k < |r| ==> r[k] == NetToHost16(samples[k])
  {
    seq(|samples|, k requires 0 <= k < |samples| => NetToHost16(samples[k]))
  }

  /** What a sender puts on the wire for `samples`: each sample big-endian. */
  function EncodeNetworkOrder(samples: seq<bv16>): (r: seq<bv8>)
    ensures |r| == 2 * |samples|
  {
    if samples == [] then []
    else [HighByte(samples[0]), LowByte(samples[0])] + EncodeNetworkOrder(samples[1..])
  }

  lemma {:induction false} EncodeNetworkOrderAt(samples: seq<bv16>, k: nat)
    requires k < |samples|
    ensures EncodeNetworkOrder(samples)[2 * k] == HighByte(samples[k])
    ensures EncodeNetworkOrder(samples)[2 * k + 1] == LowByte(samples[k])
  {
    if k > 0 {
      EncodeNetworkOrderAt(samples[1..], k - 1);
    }
  }

  /** Round trip of the sample path: a payload the sender encodes in network
      order, stored by `memcpy` and converted by `ntohs`, gives back exactly
      the samples that were sent, in their order. */
  lemma WireRoundTrip(samples: seq<bv16>)
    ensures ToHost(LoadSamples(EncodeNetworkOrder(samples))) == samples
  {
    var wire := EncodeNetworkOrder(samples);
    var back := ToHost(LoadSamples(wire));
    forall k | 0 <= k < |samples|
      ensures back[k] == samples[k]
    {
      EncodeNetworkOrderAt(samples, k);
      NetToHostOfStored(wire[2 * k], wire[2 * k + 1]);
      var x := samples[k];
      assert NetworkOrder(HighByte(x), LowByte(x)) == x;
    }
  }

  /** `(a % n) + b` and `a + b` leave the same remainder. */
  lemma ModAddLeft(a: int, b: int, n: int)
    requires n >= 1
    ensures (a % n + b) % n == (a + b) % n
  {
    var q := a / n;
    assert a == q * n + a % n;
    ModMultiple(a % n + b, q, n);
  }

  lemma ModMultiple(x: int, q: int, n: int)
    requires n >= 1
    ensures (x + q * n) % n == x % n
  {
    var r := x % n;
    var d := x / n;
    assert x + q * n == (d + q) * n + r;
    DivModUnique(x + q * n, d + q, r, n);
  }

  lemma DivModUnique(x: int, q: int, r: int, n: int)
    requires n >= 1 && 0 <= r < n && x == q * n + r
    ensures x % n == r && x / n == q
  {
    var q', r' := x / n, x % n;
    assert x == q' * n + r';
    if q' > q {
      ProductGap(q', q, n);
      assert false;
    }
    if q' < q {
      ProductGap(q, q', n);
      assert false;
    }
  }

  /** Two shifts of the same value by amounts below `n` leave the same
      remainder only when they are the same shift. */
  lemma ModShiftInjective(x: int, a: int, b: int, n: int)
    requires n >= 1 && 0 <= a < n && 0 <= b < n
    ensures (x + a) % n == (x + b) % n <==> a == b
  {
    if (x + a) % n == (x + b) % n {
      var qa, qb, rem := (x + a) / n, (x + b) / n, (x + a) % n;
      assert x + a == qa * n + rem;
      assert x + b == qb * n + rem;
      if qa > qb {
        ProductGap(qa, qb, n);
        assert false;
      }
      if qa < qb {
        ProductGap(qb, qa, n);
        assert false;
      }
    }
  }

  lemma ProductGap(a: int, b: int, n: int)
    requires a > b && n >= 1
    ensures a * n >= b * n + n
  {
    assert a * n == (a - b - 1) * n + b * n + n;
    assert (a - b - 1) * n >= 0;
  }

  /** The RTP header length (section 5.1 of RFC 3550), the channel count and
      the sample size in bytes, the same in both engine generations. */
  const kRtpHeader: nat := 12
  const kNumChannel: nat := 2
  const kSampleSize: nat := 2

  /** A reference into a packet ring's slot array (`const std::vector<int16_t>*`). */
  datatype SlotRef = Null | Slot(index: nat)

  /** `(t - h) % n` for two indices of an `n`-slot ring. */
  lemma IndexDistance(h: int, t: int, n: int)
    requires 0 <= h < n && 0 <= t < n
    ensures (t - h) % n == if t >= h then t - h else t - h + n
  {
    if t >= h {
      DivModUnique(t - h, 0, t - h, n);
    } else {
      DivModUnique(t - h, -1, t - h + n, n);
    }
  }

  /** Advancing an index of an `n`-slot ring by one, as the code does it. */
  lemma ModNext(h: int, n: int)
    requires 0 <= h < n
    ensures (h + 1) % n == if h + 1 >= n then 0 else h + 1
  {
    if h + 1 >= n {
      DivModUnique(h + 1, 1, 0, n);
    } else {
      DivModUnique(h + 1, 0, h + 1, n);
    }
  }

  /** One more successful move keeps the index equal to the move count modulo
      the capacity. */
  lemma {:induction false} NextIndex(index: nat, moves: nat, n: nat)
    requires n >= 1 && index == moves % n
    ensures (if index + 1 >= n then 0 else index + 1) == (moves + 1) % n
  {
    ModAddLeft(moves, 1, n);
    ModNext(index, n);
  }
}
