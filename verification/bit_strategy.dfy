/**
  The bit strategy: every bit of the frame (payload then terminator), most
  significant bit first, goes into the least significant bit of one carrier
  byte; the decoder rebuilds bytes from groups of eight such bits.
*/
module BitStrategy {
  import opened Outcomes
  import opened Sentinel

  /** `x` shifted left `k` times within eight bits, as the encoder does to its working copy of a byte. */
  function Shifted(x: bv8, k: nat): bv8
  {
    if k == 0 then x else Shifted(x, k - 1) << 1
  }

  /**
    Bit `j` of `x`, counting from the most significant bit (j = 0): the top bit
    once the `j` bits above it have been shifted out. BitAtIsBit restates it
    as the usual right shift and mask.
  */
  function BitAt(x: bv8, j: nat): (b: bv8)
    requires j < 8
    ensures b == 0 || b == 1
  {
    (Shifted(x, j) & 0x80) >> 7
  }

  /** A single bit is its own least significant bit. */
  lemma LowBit(b: bv8)
    requires b == 0 || b == 1
    ensures b & 1 == b
  {
  }

  /** The bits of `data`, eight per byte, in the order the encoder writes them. */
  function BitsOf(data: seq<bv8>): (bits: seq<bv8>)
    ensures |bits| == 8 * |data|
  {
    seq(8 * |data|, i requires 0 <= i < 8 * |data| => BitAt(data[i / 8], i % 8))
  }

  /**
    The carrier after the bits have been written from `offset` on: the least
    significant bit of each position the bits reach inside the carrier takes
    the next bit; the upper seven bits of every byte and every other position
    are kept. Bits that would land past the end are dropped, which is how a
    write that stops at the end of the carrier leaves it.
  */
  function LsbOverlay(carrier: seq<bv8>, bits: seq<bv8>, offset: nat): (r: seq<bv8>)
    ensures |r| == |carrier|
  {
    seq(|carrier|, j requires 0 <= j < |carrier| =>
      if offset <= j < offset + |bits| then (carrier[j] & 0xFE) | (bits[j - offset] & 1) else carrier[j])
  }

  /**
    The byte the decoder rebuilds from the least significant bits of `g`, read
    first to last and shifted in from the right.
  */
  function Assemble(g: seq<bv8>): bv8
    requires |g| <= 8
  {
    if g == [] then 0 else Push(Assemble(g[..|g| - 1]), g[|g| - 1])
  }

  /** One step of the decoder: the accumulator shifted left with the least significant bit of `c` or-ed in. */
  function Push(acc: bv8, c: bv8): bv8
  {
    (acc << 1) | (c & 1)
  }

  /** The bytes rebuilt from the complete groups of eight carrier bytes from `offset` on. */
  function LsbBytes(w: seq<bv8>, offset: nat): (units: seq<bv8>)
    ensures offset <= |w| ==> offset + 8 * |units| <= |w| < offset + 8 * |units| + 8
    ensures offset > |w| ==> units == []
    decreases |w| - offset
  {
    if offset + 8 > |w| then [] else [Assemble(w[offset..offset + 8])] + LsbBytes(w, offset + 8)
  }

  /**
    The outcome of the bit decoder on carrier `w` from `offset`: the framed
    payload, or a fault when the decoder walks into an incomplete final group
    before it has found the terminator.
  */
  ghost function DecodeBits(w: seq<bv8>, offset: nat): Result<seq<bv8>>
  {
    var units := LsbBytes(w, offset);
    if !ContainsSentinel(units) && offset + 8 * |units| < |w| then Err(IndexOutOfRange)
    else Ok(Unframe(units))
  }

  lemma BitsOfAt(data: seq<bv8>, k: nat, j: nat)
    requires k < |data| && j < 8
    ensures BitsOf(data)[8 * k + j] == BitAt(data[k], j)
  {
    assert (8 * k + j) / 8 == k && (8 * k + j) % 8 == j;
  }

  lemma BitsOfConcat(a: seq<bv8>, b: seq<bv8>)
    ensures BitsOf(a + b) == BitsOf(a) + BitsOf(b)
  {
    var l, r := BitsOf(a + b), BitsOf(a) + BitsOf(b);
    forall i | 0 <= i < |l| ensures l[i] == r[i] {
      if i >= 8 * |a| {
        assert (i - 8 * |a|) / 8 == i / 8 - |a|;
      }
    }
  }

  /** Bit `j` counted from the top is the low bit of `x` shifted right by `7 - j`. */
  lemma BitAtIsBit(x: bv8, j: nat)
    requires j < 8
    ensures BitAt(x, j) == (x >> (7 - j)) & 1
  {
    var s1 := Shifted(x, 1);
    var s2 := Shifted(x, 2);
    var s3 := Shifted(x, 3);
    var s4 := Shifted(x, 4);
    var s5 := Shifted(x, 5);
    var s6 := Shifted(x, 6);
    var s7 := Shifted(x, 7);
    assert Shifted(x, 0) == x;
    assert s1 == x << 1;
    assert s2 == s1 << 1;
    assert s3 == s2 << 1;
    assert s4 == s3 << 1;
    assert s5 == s4 << 1;
    assert s6 == s5 << 1;
    assert s7 == s6 << 1;
    if j == 0 {
      assert (x & 0x80) >> 7 == (x >> 7) & 1;
    } else if j == 1 {
      assert (s1 & 0x80) >> 7 == (x >> 6) & 1;
    } else if j == 2 {
      assert (s2 & 0x80) >> 7 == (x >> 5) & 1;
    } else if j == 3 {
      assert (s3 & 0x80) >> 7 == (x >> 4) & 1;
    } else if j == 4 {
      assert (s4 & 0x80) >> 7 == (x >> 3) & 1;
    } else if j == 5 {
      assert (s5 & 0x80) >> 7 == (x >> 2) & 1;
    } else if j == 6 {
      assert (s6 & 0x80) >> 7 == (x >> 1) & 1;
    } else {
      assert (s7 & 0x80) >> 7 == (x >> 0) & 1;
    }
  }

  /** Eight carrier bytes rebuild the byte their least significant bits spell, first to last. */
  lemma AssembleEight(g: seq<bv8>)
    requires |g| == 8
    ensures Assemble(g) == Push(Push(Push(Push(Push(Push(Push(Push(0, g[0]), g[1]), g[2]), g[3]), g[4]), g[5]), g[6]), g[7])
  {
    assert g[..1][..0] == [];
    assert g[..2][..1] == g[..1];
    assert g[..3][..2] == g[..2];
    assert g[..4][..3] == g[..3];
    assert g[..5][..4] == g[..4];
    assert g[..6][..5] == g[..5];
    assert g[..7][..6] == g[..6];
    assert g[..8][..7] == g[..7];
    assert g[..8] == g;
    var a1 := Assemble(g[..1]);
    assert Assemble(g[..1][..0]) == 0;
    assert a1 == Push(0, g[0]);
    var a2 := Assemble(g[..2]);
    assert a2 == Push(a1, g[1]);
    var a3 := Assemble(g[..3]);
    assert a3 == Push(a2, g[2]);
    var a4 := Assemble(g[..4]);
    assert a4 == Push(a3, g[3]);
    var a5 := Assemble(g[..5]);
    assert a5 == Push(a4, g[4]);
    var a6 := Assemble(g[..6]);
    assert a6 == Push(a5, g[5]);
    var a7 := Assemble(g[..7]);
    assert a7 == Push(a6, g[6]);
    assert Assemble(g) == Push(a7, g[7]);
  }

  /** Pushing the eight bits of `x`, most significant first, rebuilds `x`. */
  lemma PackByte(x: bv8, g0: bv8, g1: bv8, g2: bv8, g3: bv8, g4: bv8, g5: bv8, g6: bv8, g7: bv8)
    requires g0 & 1 == BitAt(x, 0) && g1 & 1 == BitAt(x, 1) && g2 & 1 == BitAt(x, 2) && g3 & 1 == BitAt(x, 3)
    requires g4 & 1 == BitAt(x, 4) && g5 & 1 == BitAt(x, 5) && g6 & 1 == BitAt(x, 6) && g7 & 1 == BitAt(x, 7)
    ensures Push(Push(Push(Push(Push(Push(Push(Push(0, g0), g1), g2), g3), g4), g5), g6), g7) == x
  {
    BitAtIsBit(x, 0); BitAtIsBit(x, 1); BitAtIsBit(x, 2); BitAtIsBit(x, 3);
    BitAtIsBit(x, 4); BitAtIsBit(x, 5); BitAtIsBit(x, 6); BitAtIsBit(x, 7);
  }

  /** Bit-level round trip for one byte: eight least significant bits carrying `x` rebuild `x`. */
  lemma AssembleBits(g: seq<bv8>, x: bv8)
    requires |g| == 8
    requires forall j :: 0 <= j < 8 ==> g[j] & 1 == BitAt(x, j)
    ensures Assemble(g) == x
  {
    AssembleEight(g);
    assert g[0] & 1 == BitAt(x, 0) && g[1] & 1 == BitAt(x, 1) && g[2] & 1 == BitAt(x, 2) && g[3] & 1 == BitAt(x, 3);
    assert g[4] & 1 == BitAt(x, 4) && g[5] & 1 == BitAt(x, 5) && g[6] & 1 == BitAt(x, 6) && g[7] & 1 == BitAt(x, 7);
    PackByte(x, g[0], g[1], g[2], g[3], g[4], g[5], g[6], g[7]);
  }

  /** The powers of two that fit in eight bits: `Powers[n]` is `1 << n`. */
  const Powers: seq<bv8> := [1, 2, 4, 8, 16, 32, 64, 128]

  /**
    A byte rebuilt from fewer than eight bits still has its top bit clear, so
    shifting it once more loses nothing: the decoder's value stays within
    0..255 exactly as the unbounded integer of the source does.
  */
  lemma {:induction false} AssembleFits(g: seq<bv8>)
    requires |g| < 8
    ensures Assemble(g) < Powers[|g|]
  {
    if g != [] {
      AssembleFits(g[..|g| - 1]);
      var n := |g|;
      var a, l := Assemble(g[..n - 1]), g[n - 1] & 1;
      assert Assemble(g) == Push(a, g[n - 1]) == (a << 1) | l;
      assert l <= 1;
      if n == 1 {
        assert a < 1;
      } else if n == 2 {
        assert a < 2;
      } else if n == 3 {
        assert a < 4;
      } else if n == 4 {
        assert a < 8;
      } else if n == 5 {
        assert a < 16;
      } else if n == 6 {
        assert a < 32;
      } else {
        assert a < 64;
      }
    }
  }

  /**
    One step of the decoder's inner loop: or-ing the next least significant
    bit into the shifted accumulator rebuilds one more bit, and before the
    eighth bit the result still has its top bit clear.
  */
  lemma AccumulateBit(g: seq<bv8>, acc: bv8, bit: nat)
    requires |g| == bit + 1 <= 8
    requires acc == Assemble(g[..bit]) << 1
    ensures acc | (g[bit] & 1) == Assemble(g)
    ensures bit < 7 ==> acc | (g[bit] & 1) < 0x80
  {
    assert g[..bit] == g[..|g| - 1];
    if bit < 7 {
      AssembleFits(g);
      assert Powers[bit + 1] <= 0x80;
    }
  }

  /** Element `k` of the rebuilt bytes comes from carrier positions `offset + 8k` to `offset + 8k + 7`. */
  lemma {:induction false} LsbBytesAt(w: seq<bv8>, offset: nat, k: nat)
    requires offset + 8 * k + 8 <= |w|
    ensures k < |LsbBytes(w, offset)|
    ensures LsbBytes(w, offset)[k] == Assemble(w[offset + 8 * k..offset + 8 * k + 8])
    decreases k
  {
    var rest := LsbBytes(w, offset + 8);
    assert LsbBytes(w, offset) == [Assemble(w[offset..offset + 8])] + rest;
    if k > 0 {
      LsbBytesAt(w, offset + 8, k - 1);
      assert offset + 8 + 8 * (k - 1) == offset + 8 * k;
    }
  }

  /**
    What the overlay does to position `j`: the upper seven bits are kept; the
    least significant bit becomes bit `j - offset` of the sequence when that
    position is covered; an uncovered position is kept whole.
  */
  lemma OverlayAt(c: seq<bv8>, bits: seq<bv8>, offset: nat, j: nat)
    requires j < |c|
    ensures LsbOverlay(c, bits, offset)[j] & 0xFE == c[j] & 0xFE
    ensures offset <= j < offset + |bits| ==> LsbOverlay(c, bits, offset)[j] & 1 == bits[j - offset] & 1
    ensures !(offset <= j < offset + |bits|) ==> LsbOverlay(c, bits, offset)[j] == c[j]
  {
  }

  /**
    Where each bit of the payload lands: bit `j` (from the top) of byte `k`
    becomes the least significant bit of carrier position `offset + 8k + j`,
    whose upper seven bits are kept.
  */
  lemma BitPlacement(c: seq<bv8>, data: seq<bv8>, offset: nat, k: nat, j: nat)
    requires k < |data| && j < 8
    requires offset + 8 * k + j < |c|
    ensures LsbOverlay(c, BitsOf(data), offset)[offset + 8 * k + j] == (c[offset + 8 * k + j] & 0xFE) | BitAt(data[k], j)
  {
    BitsOfAt(data, k, j);
    LowBit(BitAt(data[k], j));
  }

  // ---- Facts about LsbOverlay used by the encoder's loop ----

  lemma OverlayStep(c: seq<bv8>, bits: seq<bv8>, offset: nat, m: nat)
    requires m < |bits| && offset + m < |c|
    ensures LsbOverlay(c, bits[..m + 1], offset)
         == LsbOverlay(c, bits[..m], offset)[offset + m := (c[offset + m] & 0xFE) | (bits[m] & 1)]
  {
  }

  lemma OverlayBeyond(c: seq<bv8>, bits: seq<bv8>, offset: nat, m: nat)
    requires m <= |bits| && offset + m >= |c|
    ensures LsbOverlay(c, bits[..m], offset) == LsbOverlay(c, bits, offset)
  {
  }

  lemma OverlayConcat(c: seq<bv8>, b1: seq<bv8>, b2: seq<bv8>, offset: nat)
    ensures LsbOverlay(LsbOverlay(c, b1, offset), b2, offset + |b1|) == LsbOverlay(c, b1 + b2, offset)
  {
  }

  /**
    One step of the encoder's inner loop: writing the top bit of the working
    byte into the least significant bit of the next position extends the
    overlay by one bit.
  */
  lemma EncodeStep(before: seq<bv8>, cur: seq<bv8>, x: bv8, start: nat, bit: nat, b: bv8)
    requires bit < 8 && start + bit < |cur|
    requires cur == LsbOverlay(before, BitsOf([x])[..bit], start)
    requires b == Shifted(x, bit)
    ensures cur[start + bit := (cur[start + bit] & 0xFE) | ((b & 0x80) >> 7)]
         == LsbOverlay(before, BitsOf([x])[..bit + 1], start)
  {
    var bits := BitsOf([x]);
    BitsOfAt([x], 0, bit);
    OverlayStep(before, bits, start, bit);
    OverlayAt(before, bits[..bit], start, start + bit);
    var t := (b & 0x80) >> 7;
    assert t == bits[bit] & 1 by {
      LowBit(bits[bit]);
    }
  }

  /** Overlaying the bits of `a + b` is overlaying those of `a` and then those of `b` right after them. */
  lemma BitsInTwoParts(before: seq<bv8>, mid: seq<bv8>, after: seq<bv8>, a: seq<bv8>, b: seq<bv8>, offset: nat)
    requires mid == LsbOverlay(before, BitsOf(a), offset)
    requires after == LsbOverlay(mid, BitsOf(b), offset + 8 * |a|)
    ensures after == LsbOverlay(before, BitsOf(a + b), offset)
  {
    BitsOfConcat(a, b);
    OverlayConcat(before, BitsOf(a), BitsOf(b), offset);
  }

  /** When the bits of `a` already reach the end of the carrier, the bits of `b` after them change nothing. */
  lemma BitsPastEnd(before: seq<bv8>, a: seq<bv8>, b: seq<bv8>, offset: nat)
    requires offset + 8 * |a| > |before|
    ensures LsbOverlay(before, BitsOf(a), offset) == LsbOverlay(before, BitsOf(a + b), offset)
  {
    var ab := BitsOf(a + b);
    BitsOfConcat(a, b);
    assert ab[..8 * |a|] == BitsOf(a);
    OverlayBeyond(before, ab, offset, 8 * |a|);
  }

  /**
    The encoder's inner loop: writes the eight bits of `x`, most significant
    first, from `start` on, and stops with `false` at the first position past
    the end of the carrier.
  */
  method EmbedByte(wrapper: array<bv8>, x: bv8, start: nat) returns (ok: bool)
    modifies wrapper
    ensures ok <==> start + 8 <= wrapper.Length
    ensures wrapper[..] == LsbOverlay(old(wrapper[..]), BitsOf([x]), start)
  {
    ghost var before := wrapper[..];
    ghost var bits := BitsOf([x]);
    assert bits[..0] == [];
    var b := x;
    var pos := start;
    for bit := 0 to 8
      invariant pos == start + bit
      invariant bit > 0 ==> pos <= wrapper.Length
      invariant b == Shifted(x, bit)
      invariant wrapper[..] == LsbOverlay(before, bits[..bit], start)
    {
      if pos >= wrapper.Length {
        OverlayBeyond(before, bits, start, bit);
        return false;
      }
      ghost var cur := wrapper[..];
      EncodeStep(before, cur, x, start, bit, b);
      wrapper[pos] := (wrapper[pos] & 0xFE) | ((b & 0x80) >> 7);
      assert wrapper[..] == cur[pos := (cur[pos] & 0xFE) | ((b & 0x80) >> 7)];
      b := b << 1;
      pos := pos + 1;
    }
    assert bits[..8] == bits;
    ok := true;
  }

  /**
    One loop nest of the encoder: writes the bits of `data` from `start` on and
    stops with `false` at the first position past the end of the carrier.
  */
  method EmbedBits(wrapper: array<bv8>, data: seq<bv8>, start: nat) returns (ok: bool)
    modifies wrapper
    ensures ok <==> |data| == 0 || start + 8 * |data| <= wrapper.Length
    ensures wrapper[..] == LsbOverlay(old(wrapper[..]), BitsOf(data), start)
  {
    ghost var before := wrapper[..];
    assert LsbOverlay(before, BitsOf(data[..0]), start) == before;
    var pos := start;
    for i := 0 to |data|
      invariant pos == start + 8 * i
      invariant i > 0 ==> pos <= wrapper.Length
      invariant wrapper[..] == LsbOverlay(before, BitsOf(data[..i]), start)
    {
      ghost var mid := wrapper[..];
      ok := EmbedByte(wrapper, data[i], pos);
      assert data[..i] + [data[i]] == data[..i + 1];
      BitsInTwoParts(before, mid, wrapper[..], data[..i], [data[i]], start);
      if !ok {
        assert data[..i + 1] + data[i + 1..] == data;
        BitsPastEnd(before, data[..i + 1], data[i + 1..], start);
        return false;
      }
      pos := pos + 8;
    }
    assert data[..|data|] == data;
    ok := true;
  }

  /**
    Stores `hidden` and then the terminator with the bit strategy. It fails
    exactly when the frame's bits do not fit from `offset` on; in either case
    the carrier holds the frame's bits at every position they reach.
  */
  method StoreBit(wrapper: array<bv8>, hidden: seq<bv8>, offset: nat) returns (status: Outcome)
    modifies wrapper
    ensures status == Pass || status == Fail(CapacityExceeded)
    ensures status == Pass <==> offset + 8 * (|hidden| + |SENTINEL|) <= wrapper.Length
    ensures wrapper[..] == LsbOverlay(old(wrapper[..]), BitsOf(Frame(hidden)), offset)
  {
    ghost var before := wrapper[..];
    var ok := EmbedBits(wrapper, hidden, offset);
    if !ok {
      BitsPastEnd(before, hidden, SENTINEL, offset);
      return Fail(CapacityExceeded);
    }
    ghost var mid := wrapper[..];
    ok := EmbedBits(wrapper, SENTINEL, offset + 8 * |hidden|);
    BitsInTwoParts(before, mid, wrapper[..], hidden, SENTINEL, offset);
    status := if ok then Pass else Fail(CapacityExceeded);
  }

  /** The carrier ends inside a group while no terminator has been seen: the decoder fails. */
  lemma GroupIncomplete(w: seq<bv8>, offset: nat, start: nat, hidden: seq<bv8>)
    requires start == offset + 8 * |hidden|
    requires start < |w| < start + 8
    requires LsbBytes(w, offset) == hidden + LsbBytes(w, start)
    requires !ContainsSentinel(hidden)
    ensures DecodeBits(w, offset) == Err(IndexOutOfRange)
  {
    assert LsbBytes(w, offset) == hidden;
    assert (|w| - offset) % 8 == (|w| - start) % 8;
  }

  /** The group just completed ends the first terminator: the decoder returns what precedes it. */
  lemma GroupMatched(w: seq<bv8>, offset: nat, hidden: seq<bv8>, rest: seq<bv8>)
    requires LsbBytes(w, offset) == hidden + rest
    requires EndsWithSentinel(hidden)
    requires !ContainsSentinel(hidden[..|hidden| - 1])
    ensures DecodeBits(w, offset) == Ok(hidden[..|hidden| - |SENTINEL|])
  {
    UnframeMatched(LsbBytes(w, offset), hidden, rest);
  }

  /** Every group was complete and none ended a terminator: the decoder returns all of them. */
  lemma CarrierExhausted(w: seq<bv8>, offset: nat, hidden: seq<bv8>)
    requires offset + 8 * |hidden| >= |w|
    requires offset + 8 * |hidden| <= |w| || hidden == []
    requires LsbBytes(w, offset) == hidden + LsbBytes(w, offset + 8 * |hidden|)
    requires !ContainsSentinel(hidden)
    ensures DecodeBits(w, offset) == Ok(hidden)
  {
    assert LsbBytes(w, offset + 8 * |hidden|) == [];
    assert LsbBytes(w, offset) == hidden;
    UnframeWhole(hidden);
  }

  /**
    One group of retrieve_bit's inner loop: shifts the least significant bits of
    eight consecutive carrier bytes into one byte, most significant first;
    incomplete when the carrier ends inside the group.
  */
  method ReadGroup(wrapper: array<bv8>, start: nat) returns (acc: bv8, complete: bool)
    requires start < wrapper.Length
    ensures complete <==> start + 8 <= wrapper.Length
    ensures complete ==> acc == Assemble(wrapper[start..start + 8])
  {
    acc := 0;
    var pos := start;
    for bit := 0 to 8
      invariant pos == start + bit <= wrapper.Length
      invariant bit < 8 ==> acc == Assemble(wrapper[start..pos]) << 1
      invariant bit == 8 ==> acc == Assemble(wrapper[start..pos])
    {
      if pos >= wrapper.Length {
        return acc, false;
      }
      assert wrapper[start..pos + 1][..bit] == wrapper[start..pos];
      AccumulateBit(wrapper[start..pos + 1], acc, bit);
      acc := acc | (wrapper[pos] & 1);
      if bit < 7 {
        assert acc < 0x80;  // the shift loses no bit
        acc := acc << 1;
      }
      pos := pos + 1;
    }
    complete := true;
  }

  /**
    Retrieves with the bit strategy: rebuilds bytes from groups of eight least
    significant bits, advancing eight positions per byte, and stops at the
    first terminator.
  */
  method RetrieveBit(wrapper: array<bv8>, offset: nat) returns (r: Result<seq<bv8>>)
    ensures r == DecodeBits(wrapper[..], offset)
  {
    ghost var w := wrapper[..];
    ghost var units := LsbBytes(w, offset);
    var hidden: seq<bv8> := [];
    var pos := offset;
    while pos < wrapper.Length
      invariant pos == offset + 8 * |hidden|
      invariant pos <= wrapper.Length || hidden == []
      invariant units == hidden + LsbBytes(w, pos)
      invariant !ContainsSentinel(hidden)
      decreases wrapper.Length - pos
    {
      var acc, complete := ReadGroup(wrapper, pos);
      if !complete {
        GroupIncomplete(w, offset, pos, hidden);
        return Err(IndexOutOfRange);
      }
      assert LsbBytes(w, pos) == [acc] + LsbBytes(w, pos + 8);
      pos := pos + 8;
      ghost var prev := hidden;
      hidden := hidden + [acc];
      assert units == hidden + LsbBytes(w, pos);
      if EndsWithSentinel(hidden) {
        assert hidden[..|hidden| - 1] == prev;
        GroupMatched(w, offset, hidden, LsbBytes(w, pos));
        return Ok(hidden[..|hidden| - |SENTINEL|]);
      }
      NoSentinelExtend(prev, acc);
    }
    CarrierExhausted(w, offset, hidden);
    return Ok(hidden);
  }

  /**
    A successful bit decode is a prefix of the rebuilt bytes and never
    contains the terminator; it fails only when no terminator was found.
  */
  lemma DecodeBitsClean(w: seq<bv8>, offset: nat)
    ensures DecodeBits(w, offset).Ok? ==> DecodeBits(w, offset).value <= LsbBytes(w, offset)
    ensures DecodeBits(w, offset).Ok? ==> !ContainsSentinel(DecodeBits(w, offset).value)
    ensures DecodeBits(w, offset).Err? ==> !ContainsSentinel(LsbBytes(w, offset))
  {
    UnframeClean(LsbBytes(w, offset));
  }

  /**
    Bit-strategy round trip: after a successful store, retrieving from the same
    offset gives back the payload, provided the payload followed by the first
    five terminator bytes does not already contain the terminator.
  */
  lemma BitRoundTrip(c: seq<bv8>, hidden: seq<bv8>, offset: nat)
    requires offset + 8 * (|hidden| + |SENTINEL|) <= |c|
    requires !ContainsSentinel(hidden + SENTINEL[..|SENTINEL| - 1])
    ensures DecodeBits(LsbOverlay(c, BitsOf(Frame(hidden)), offset), offset) == Ok(hidden)
  {
    var frame := Frame(hidden);
    var bits := BitsOf(frame);
    var s := LsbOverlay(c, bits, offset);
    var units := LsbBytes(s, offset);
    assert |units| >= |frame|;
    forall k | 0 <= k < |frame| ensures units[k] == frame[k] {
      LsbBytesAt(s, offset, k);
      var g := s[offset + 8 * k..offset + 8 * k + 8];
      forall j | 0 <= j < 8 ensures g[j] & 1 == BitAt(frame[k], j) {
        BitsOfAt(frame, k, j);
      }
      AssembleBits(g, frame[k]);
    }
    assert units == frame + units[|frame|..];
    UnframeFramed(hidden, units[|frame|..]);
    assert units[..|frame|] == frame;
    assert EndsWithSentinel(units[..|frame|]);
  }
}
