/**
  The byte strategy: the frame (payload then terminator) replaces whole
  carrier bytes at `offset`, `offset + interval`, `offset + 2 * interval`, ...;
  the decoder reads the carrier bytes at those positions until the bytes read
  end with the terminator.
*/
module ByteStrategy {
  import opened Outcomes
  import opened Sentinel

  /**
    The position of the `k`-th written byte: the offset advanced `k` times by
    the interval, as both loops of the encoder and the decoder's loop do.
  */
  function Slot(offset: nat, interval: nat, k: nat): nat
  {
    if k == 0 then offset else Slot(offset, interval, k - 1) + interval
  }

  /** The closed form of a slot. */
  lemma {:induction false} SlotIsProduct(offset: nat, interval: nat, k: nat)
    ensures Slot(offset, interval, k) == offset + interval * k
  {
    if k > 0 {
      SlotIsProduct(offset, interval, k - 1);
    }
  }

  /** Advancing `a` slots and then `b` more is advancing `a + b` slots. */
  lemma {:induction false} SlotAdd(offset: nat, interval: nat, a: nat, b: nat)
    ensures Slot(Slot(offset, interval, a), interval, b) == Slot(offset, interval, a + b)
    decreases b
  {
    if b > 0 {
      SlotAdd(offset, interval, a, b - 1);
    }
  }

  /** Slots never move backwards. */
  lemma {:induction false} SlotMono(offset: nat, interval: nat, k1: nat, k2: nat)
    requires k1 <= k2
    ensures Slot(offset, interval, k1) <= Slot(offset, interval, k2)
    decreases k2
  {
    if k1 < k2 {
      SlotMono(offset, interval, k1, k2 - 1);
    }
  }

  /** The slots after the first are the slots from the next position on. */
  lemma SlotShift(offset: nat, interval: nat, k: nat)
    ensures Slot(offset + interval, interval, k) == Slot(offset, interval, k + 1)
  {
    assert Slot(offset, interval, 1) == offset + interval;
    SlotAdd(offset, interval, 1, k);
  }

  /**
    The carrier after the bytes of `data` have been written one per slot from
    `offset` on, stopping at the first slot past the end of the carrier (every
    later slot is past the end too, the interval being non-negative).
  */
  function Scatter(c: seq<bv8>, data: seq<bv8>, offset: nat, interval: nat): (r: seq<bv8>)
    ensures |r| == |c|
    decreases |data|
  {
    if data == [] || offset >= |c| then c
    else Scatter(c[offset := data[0]], data[1..], offset + interval, interval)
  }

  /**
    The carrier bytes the decoder reads: those at `offset`, `offset + interval`,
    ... up to the end of the carrier. The source loops forever on a zero
    interval, hence the precondition.
  */
  function Strided(w: seq<bv8>, offset: nat, interval: nat): (units: seq<bv8>)
    requires interval > 0 || offset >= |w|
    decreases |w| - offset
  {
    if offset >= |w| then [] else [w[offset]] + Strided(w, offset + interval, interval)
  }

  // ---- What Scatter does to the carrier ----

  /** Positions before the first slot are kept. */
  lemma {:induction false} ScatterBelow(c: seq<bv8>, data: seq<bv8>, offset: nat, interval: nat, j: nat)
    requires j < offset && j < |c|
    ensures Scatter(c, data, offset, interval)[j] == c[j]
    decreases |data|
  {
    if data != [] && offset < |c| {
      ScatterBelow(c[offset := data[0]], data[1..], offset + interval, interval, j);
    }
  }

  /** When the first slot is already past the end, nothing is written. */
  lemma ScatterPastEnd(c: seq<bv8>, data: seq<bv8>, offset: nat, interval: nat)
    requires offset >= |c|
    ensures Scatter(c, data, offset, interval) == c
  {
  }

  /**
    With a positive interval the slots are distinct: the `k`-th slot that lies
    inside the carrier holds the `k`-th byte of `data`.
  */
  lemma {:induction false} ScatterAt(c: seq<bv8>, data: seq<bv8>, offset: nat, interval: nat, k: nat)
    requires interval >= 1
    requires k < |data| && Slot(offset, interval, k) < |c|
    ensures Scatter(c, data, offset, interval)[Slot(offset, interval, k)] == data[k]
    decreases |data|
  {
    SlotMono(offset, interval, 0, k);
    var c' := c[offset := data[0]];
    if k == 0 {
      assert Slot(offset, interval, 0) == offset;
      ScatterBelow(c', data[1..], offset + interval, interval, offset);
    } else {
      SlotShift(offset, interval, k - 1);
      SlotMono(offset, interval, 1, k);
      ScatterAt(c', data[1..], offset + interval, interval, k - 1);
    }
  }

  /** A position that is none of the slots of `data` is kept. */
  lemma {:induction false} ScatterUntouched(c: seq<bv8>, data: seq<bv8>, offset: nat, interval: nat, j: nat)
    requires j < |c|
    requires forall k :: 0 <= k < |data| ==> Slot(offset, interval, k) != j
    ensures Scatter(c, data, offset, interval)[j] == c[j]
    decreases |data|
  {
    if data != [] && offset < |c| {
      assert Slot(offset, interval, 0) != j;
      var next := offset + interval;
      forall k | 0 <= k < |data| - 1 ensures Slot(next, interval, k) != j {
        SlotShift(offset, interval, k);
      }
      ScatterUntouched(c[offset := data[0]], data[1..], offset + interval, interval, j);
    }
  }

  /**
    With a zero interval every byte lands on the same position, so the last
    one wins.
  */
  lemma {:induction false} ScatterSameSlot(c: seq<bv8>, data: seq<bv8>, offset: nat)
    requires data != [] && offset < |c|
    ensures Scatter(c, data, offset, 0)[offset] == data[|data| - 1]
    decreases |data|
  {
    var c' := c[offset := data[0]];
    if |data| > 1 {
      ScatterSameSlot(c', data[1..], offset);
    }
  }

  /** Writing `a + b` is writing `a` and then `b` from the slot after the last one of `a`. */
  lemma {:induction false} ScatterAppend(c: seq<bv8>, a: seq<bv8>, b: seq<bv8>, offset: nat, interval: nat)
    ensures Scatter(c, a + b, offset, interval)
         == Scatter(Scatter(c, a, offset, interval), b, Slot(offset, interval, |a|), interval)
    decreases |a|
  {
    if a == [] {
      assert a + b == b;
    } else if offset >= |c| {
      assert a + b != [];
      SlotMono(offset, interval, 0, |a|);
    } else {
      assert (a + b)[1..] == a[1..] + b;
      ScatterAppend(c[offset := a[0]], a[1..], b, offset + interval, interval);
      SlotShift(offset, interval, |a| - 1);
    }
  }

  /**
    Byte-level round trip: after every byte of `data` has been written, reading
    from the same offset with the same positive interval gives `data` back first.
  */
  lemma {:induction false} StridedScatter(c: seq<bv8>, data: seq<bv8>, offset: nat, interval: nat)
    requires interval >= 1
    requires data != [] ==> Slot(offset, interval, |data| - 1) < |c|
    ensures Strided(Scatter(c, data, offset, interval), offset, interval)
         == data + Strided(Scatter(c, data, offset, interval), Slot(offset, interval, |data|), interval)
    decreases |data|
  {
    var s := Scatter(c, data, offset, interval);
    if data != [] {
      SlotMono(offset, interval, 0, |data| - 1);
      var c' := c[offset := data[0]];
      assert s == Scatter(c', data[1..], offset + interval, interval);
      ScatterBelow(c', data[1..], offset + interval, interval, offset);
      assert s[offset] == data[0];
      if |data| > 1 {
        SlotShift(offset, interval, |data| - 2);
      }
      StridedScatter(c', data[1..], offset + interval, interval);
      SlotShift(offset, interval, |data| - 1);
      assert data == [data[0]] + data[1..];
    }
  }

  /**
    Byte-strategy round trip: after a successful store, retrieving from the
    same offset with the same positive interval gives back the payload,
    provided the payload followed by the first five terminator bytes does not
    already contain the terminator.
  */
  lemma ByteRoundTrip(c: seq<bv8>, hidden: seq<bv8>, offset: nat, interval: nat)
    requires interval >= 1
    requires Slot(offset, interval, |hidden| + |SENTINEL| - 1) < |c|
    requires !ContainsSentinel(hidden + SENTINEL[..|SENTINEL| - 1])
    ensures Unframe(Strided(Scatter(c, Frame(hidden), offset, interval), offset, interval)) == hidden
  {
    var frame := Frame(hidden);
    var s := Scatter(c, frame, offset, interval);
    StridedScatter(c, frame, offset, interval);
    UnframeFramed(hidden, Strided(s, Slot(offset, interval, |frame|), interval));
  }

  // ---- The encoder ----

  /**
    One loop of store_byte: writes the bytes of `data` one per slot from
    `start` on and stops with `false` at the first slot past the end of the
    carrier; otherwise it also gives the slot after the last one written.
  */
  method PlaceBytes(wrapper: array<bv8>, data: seq<bv8>, start: nat, interval: nat) returns (ok: bool, next: nat)
    modifies wrapper
    ensures ok <==> data == [] || Slot(start, interval, |data| - 1) < wrapper.Length
    ensures ok ==> next == Slot(start, interval, |data|)
    ensures wrapper[..] == Scatter(old(wrapper[..]), data, start, interval)
  {
    ghost var before := wrapper[..];
    var offset := start;
    var i := 0;
    while i < |data|
      invariant i <= |data|
      invariant offset == Slot(start, interval, i)
      invariant i > 0 ==> Slot(start, interval, i - 1) < wrapper.Length
      invariant Scatter(wrapper[..], data[i..], offset, interval) == Scatter(before, data, start, interval)
    {
      if offset >= wrapper.Length {
        SlotMono(start, interval, i, |data| - 1);
        return false, offset;
      }
      ghost var cur := wrapper[..];
      assert data[i..][1..] == data[i + 1..];
      wrapper[offset] := data[i];
      assert wrapper[..] == cur[offset := data[i]];
      offset := offset + interval;
      i := i + 1;
    }
    assert data[i..] == [];
    return true, offset;
  }

  /**
    Stores `hidden` and then the terminator with the byte strategy. It fails
    exactly when the last slot of the frame lies past the end of the carrier;
    in either case the carrier holds the frame at every slot that lies inside it.
  */
  method StoreByte(wrapper: array<bv8>, hidden: seq<bv8>, offset: nat, interval: nat) returns (status: Outcome)
    modifies wrapper
    ensures status == Pass || status == Fail(CapacityExceeded)
    ensures status == Pass <==> Slot(offset, interval, |hidden| + |SENTINEL| - 1) < wrapper.Length
    ensures wrapper[..] == Scatter(old(wrapper[..]), Frame(hidden), offset, interval)
  {
    ghost var before := wrapper[..];
    ScatterAppend(before, hidden, SENTINEL, offset, interval);
    var ok, next := PlaceBytes(wrapper, hidden, offset, interval);
    if !ok {
      SlotMono(offset, interval, |hidden| - 1, |hidden| + |SENTINEL| - 1);
      SlotMono(offset, interval, |hidden| - 1, |hidden|);
      ScatterPastEnd(wrapper[..], SENTINEL, Slot(offset, interval, |hidden|), interval);
      return Fail(CapacityExceeded);
    }
    ok, next := PlaceBytes(wrapper, SENTINEL, next, interval);
    SlotAdd(offset, interval, |hidden|, |SENTINEL| - 1);
    status := if ok then Pass else Fail(CapacityExceeded);
  }

  // ---- The decoder ----

  /**
    Retrieves with the byte strategy: reads the carrier byte at every slot from
    `offset` on and stops at the first terminator. The result never contains
    the terminator and is a prefix of the bytes read.
  */
  method RetrieveByte(wrapper: array<bv8>, offset: nat, interval: nat) returns (hidden: seq<bv8>)
    requires interval > 0 || offset >= wrapper.Length
    ensures hidden == Unframe(Strided(wrapper[..], offset, interval))
    ensures hidden <= Strided(wrapper[..], offset, interval)
    ensures !ContainsSentinel(hidden)
  {
    ghost var w := wrapper[..];
    ghost var units := Strided(w, offset, interval);
    UnframeClean(units);
    hidden := [];
    var pos := offset;
    while pos < wrapper.Length
      invariant units == hidden + Strided(w, pos, interval)
      invariant !ContainsSentinel(hidden)
      decreases wrapper.Length - pos
    {
      var b := wrapper[pos];
      ghost var prev := hidden;
      hidden := hidden + [b];
      assert units == hidden + Strided(w, pos + interval, interval);
      if EndsWithSentinel(hidden) {
        assert hidden[..|hidden| - 1] == prev;
        UnframeMatched(units, hidden, Strided(w, pos + interval, interval));
        hidden := hidden[..|hidden| - |SENTINEL|];
        return;
      }
      NoSentinelExtend(prev, b);
      pos := pos + interval;
    }
    assert units == hidden;
    UnframeWhole(units);
  }
}
