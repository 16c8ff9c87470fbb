/** Worked examples of both strategies on small all-zero carriers. */
module Scenarios {
  import opened Outcomes
  import opened Sentinel
  import opened BitStrategy
  import opened ByteStrategy

  function Zeros(n: nat): (z: seq<bv8>)
    ensures |z| == n
  {
    seq(n, _ => 0)
  }

  /** Six bytes other than the terminator hold no terminator. */
  lemma SixNotSentinel(p: seq<bv8>)
    requires |p| == |SENTINEL| && p != SENTINEL
    ensures !ContainsSentinel(p)
  {
    forall n | 0 <= n <= |p| ensures !EndsWithSentinel(p[..n]) {
      if n == |p| {
        assert p[..n] == p;
      }
    }
  }

  /**
    The payload `41` stored with the bit strategy at offset 0 of 64 zero bytes
    fills positions 0 to 55 and decodes back to `41`.
  */
  lemma ScenarioBit()
    ensures 0 + 8 * (1 + |SENTINEL|) <= 64
    ensures DecodeBits(LsbOverlay(Zeros(64), BitsOf(Frame([0x41])), 0), 0) == Ok([0x41])
  {
    var p: seq<bv8> := [0x41] + SENTINEL[..|SENTINEL| - 1];
    assert p[0] == 0x41;
    SixNotSentinel(p);
    BitRoundTrip(Zeros(64), [0x41], 0);
  }

  /**
    The payload `01 02` stored with the byte strategy at offset 0 with interval 2
    in 20 zero bytes lands on positions 0 and 2, the terminator on the even
    positions 4 to 14.
  */
  lemma ScenarioByteLayout()
    ensures Scatter(Zeros(20), Frame([0x01, 0x02]), 0, 2)[0] == 0x01
    ensures Scatter(Zeros(20), Frame([0x01, 0x02]), 0, 2)[2] == 0x02
    ensures forall k :: 0 <= k < |SENTINEL| ==> Scatter(Zeros(20), Frame([0x01, 0x02]), 0, 2)[4 + 2 * k] == SENTINEL[k]
  {
    var frame := Frame([0x01, 0x02]);
    SlotIsProduct(0, 2, 0);
    SlotIsProduct(0, 2, 1);
    ScatterAt(Zeros(20), frame, 0, 2, 0);
    ScatterAt(Zeros(20), frame, 0, 2, 1);
    forall k | 0 <= k < |SENTINEL|
      ensures Scatter(Zeros(20), frame, 0, 2)[4 + 2 * k] == SENTINEL[k]
    {
      SlotIsProduct(0, 2, k + 2);
      ScatterAt(Zeros(20), frame, 0, 2, k + 2);
    }
  }

  /** The same store leaves every odd position and every position past 14 zero. */
  lemma ScenarioByteUntouched()
    ensures forall j :: 0 <= j < 20 && (j % 2 == 1 || j > 14) ==> Scatter(Zeros(20), Frame([0x01, 0x02]), 0, 2)[j] == 0
  {
    var frame := Frame([0x01, 0x02]);
    forall j | 0 <= j < 20 && (j % 2 == 1 || j > 14)
      ensures Scatter(Zeros(20), frame, 0, 2)[j] == 0
    {
      forall k | 0 <= k < |frame| ensures Slot(0, 2, k) != j {
        SlotIsProduct(0, 2, k);
      }
      ScatterUntouched(Zeros(20), frame, 0, 2, j);
    }
  }

  /**
    The same store fits (its last slot is 14 of 20), and reading from offset 0
    with interval 2 gives back `01 02`.
  */
  lemma ScenarioByte()
    ensures Slot(0, 2, 2 + |SENTINEL| - 1) == 14 < 20
    ensures Unframe(Strided(Scatter(Zeros(20), Frame([0x01, 0x02]), 0, 2), 0, 2)) == [0x01, 0x02]
  {
    SlotIsProduct(0, 2, 7);
    var p: seq<bv8> := [0x01, 0x02] + SENTINEL[..|SENTINEL| - 1];
    assert p[0] == 0x01;
    SixNotSentinel(p[..|SENTINEL|]);
    assert !ContainsSentinel(p) by {
      forall n | 0 <= n <= |p| ensures !EndsWithSentinel(p[..n]) {
        if n == |p| {
          assert p[..n][n - |SENTINEL|..] == p[1..];
          assert p[1] == 0x02;
        } else {
          assert p[..n] == p[..|SENTINEL|][..n];
        }
      }
    }
    ByteRoundTrip(Zeros(20), [0x01, 0x02], 0, 2);
  }
}
