/**
  The framing protocol shared by both strategies: the payload is followed by a
  fixed six-byte terminator, and a decoder stops the first time the bytes it has
  gathered so far end with that terminator.
*/
module Sentinel {

  /** The terminator `00 FF 00 00 FF 00`. */
  const SENTINEL: seq<bv8> := [0x00, 0xFF, 0x00, 0x00, 0xFF, 0x00]

  /** What an encoder embeds: the payload followed by the terminator. */
  function Frame(hidden: seq<bv8>): (f: seq<bv8>)
    ensures |f| == |hidden| + |SENTINEL|
    ensures f[..|hidden|] == hidden && f[|hidden|..] == SENTINEL
  {
    hidden + SENTINEL
  }

  /**
    The decoders' stopping test: the last six bytes gathered equal the
    terminator. An accumulator shorter than six bytes never matches, because a
    tail slice of a short sequence is the whole sequence and cannot equal six
    bytes.
  */
  predicate EndsWithSentinel(acc: seq<bv8>)
  {
    |acc| >= |SENTINEL| && acc[|acc| - |SENTINEL|..] == SENTINEL
  }

  /** The terminator occurs somewhere in `s` as a contiguous run. */
  ghost predicate ContainsSentinel(s: seq<bv8>)
  {
    exists n :: 0 <= n <= |s| && EndsWithSentinel(s[..n])
  }

  /**
    The decoders' accumulation, started after the first `k` units have been
    gathered without a match: append the next unit, stop and drop the
    terminator on a match, and give back everything when the units run out.
  */
  function Scan(units: seq<bv8>, k: nat): (r: seq<bv8>)
    requires k <= |units|
    decreases |units| - k
  {
    if k == |units| then units
    else if EndsWithSentinel(units[..k + 1]) then units[..k + 1 - |SENTINEL|]
    else Scan(units, k + 1)
  }

  /** What a decoder gives back from the stream of units it reads. */
  function Unframe(units: seq<bv8>): seq<bv8>
  {
    Scan(units, 0)
  }

  lemma {:induction false} ScanStopsAtFirst(units: seq<bv8>, k: nat, n: nat)
    requires k < n <= |units|
    requires EndsWithSentinel(units[..n])
    requires forall m :: k < m < n ==> !EndsWithSentinel(units[..m])
    ensures Scan(units, k) == units[..n - |SENTINEL|]
    decreases n - k
  {
    if !EndsWithSentinel(units[..k + 1]) {
      ScanStopsAtFirst(units, k + 1, n);
    }
  }

  lemma {:induction false} ScanRunsOut(units: seq<bv8>, k: nat)
    requires k <= |units|
    requires forall m :: k < m <= |units| ==> !EndsWithSentinel(units[..m])
    ensures Scan(units, k) == units
    decreases |units| - k
  {
    if k < |units| {
      ScanRunsOut(units, k + 1);
    }
  }

  lemma {:induction false} ScanClean(units: seq<bv8>, k: nat)
    requires k <= |units|
    requires forall m :: 0 <= m <= k ==> !EndsWithSentinel(units[..m])
    ensures Scan(units, k) <= units
    ensures !ContainsSentinel(Scan(units, k))
    decreases |units| - k
  {
    if k == |units| {
      assert units[..k] == units;
    } else if EndsWithSentinel(units[..k + 1]) {
      var r := units[..k + 1 - |SENTINEL|];
      forall n | 0 <= n <= |r| ensures !EndsWithSentinel(r[..n]) {
        assert r[..n] == units[..n];
      }
    } else {
      ScanClean(units, k + 1);
    }
  }

  /** Appending a unit that does not complete a terminator keeps the accumulator free of it. */
  lemma NoSentinelExtend(acc: seq<bv8>, x: bv8)
    requires !ContainsSentinel(acc)
    requires !EndsWithSentinel(acc + [x])
    ensures !ContainsSentinel(acc + [x])
  {
    var s := acc + [x];
    forall n | 0 <= n <= |s| ensures !EndsWithSentinel(s[..n]) {
      if n < |s| {
        assert s[..n] == acc[..n];
      } else {
        assert s[..n] == s;
      }
    }
  }

  /**
    When the first prefix of the units that ends with the terminator has length
    `n`, the decoder returns the units before that terminator.
  */
  lemma UnframeFirst(units: seq<bv8>, n: nat)
    requires |SENTINEL| <= n <= |units|
    requires EndsWithSentinel(units[..n])
    requires !ContainsSentinel(units[..n - 1])
    ensures Unframe(units) == units[..n - |SENTINEL|]
  {
    forall m | 0 < m < n ensures !EndsWithSentinel(units[..m]) {
      assert units[..n - 1][..m] == units[..m];
    }
    ScanStopsAtFirst(units, 0, n);
  }

  /**
    The decoders' stopping step: when the bytes accumulated so far end with the
    terminator for the first time, the decoder returns them minus the
    terminator, whatever units would have followed.
  */
  lemma UnframeMatched(units: seq<bv8>, acc: seq<bv8>, rest: seq<bv8>)
    requires units == acc + rest
    requires EndsWithSentinel(acc)
    requires !ContainsSentinel(acc[..|acc| - 1])
    ensures ContainsSentinel(units)
    ensures Unframe(units) == acc[..|acc| - |SENTINEL|]
  {
    assert units[..|acc|] == acc;
    assert units[..|acc| - 1] == acc[..|acc| - 1];
    UnframeFirst(units, |acc|);
    assert units[..|acc| - |SENTINEL|] == acc[..|acc| - |SENTINEL|];
  }

  /** Units that never contain the terminator come back whole. */
  lemma UnframeWhole(units: seq<bv8>)
    requires !ContainsSentinel(units)
    ensures Unframe(units) == units
  {
    ScanRunsOut(units, 0);
  }

  /**
    The decoded payload is a prefix of the units read, never contains the
    terminator, and equals the units exactly when they hold no terminator.
  */
  lemma UnframeClean(units: seq<bv8>)
    ensures Unframe(units) <= units
    ensures !ContainsSentinel(Unframe(units))
    ensures Unframe(units) == units <==> !ContainsSentinel(units)
  {
    ScanClean(units, 0);
    if !ContainsSentinel(units) {
      UnframeWhole(units);
    }
  }

  /**
    Framing round trip: a payload followed by the terminator and anything else
    decodes to the payload, provided no earlier position of
    `hidden + SENTINEL[..5]` already completes a terminator.
  */
  lemma UnframeFramed(hidden: seq<bv8>, tail: seq<bv8>)
    requires !ContainsSentinel(hidden + SENTINEL[..|SENTINEL| - 1])
    ensures Unframe(Frame(hidden) + tail) == hidden
  {
    var units := Frame(hidden) + tail;
    var n := |hidden| + |SENTINEL|;
    assert units[..n] == Frame(hidden);
    assert units[..n - 1] == hidden + SENTINEL[..|SENTINEL| - 1];
    UnframeFirst(units, n);
  }

  /** Scanning from `k` stops no later than any prefix of length `n > k` that ends with the terminator. */
  lemma {:induction false} ScanBefore(units: seq<bv8>, k: nat, n: nat)
    requires k < n <= |units|
    requires EndsWithSentinel(units[..n])
    ensures |Scan(units, k)| <= n - |SENTINEL|
    decreases |units| - k
  {
    if !EndsWithSentinel(units[..k + 1]) {
      ScanBefore(units, k + 1, n);
    }
  }

  /**
    The converse of UnframeFramed: when the payload followed by the first five
    terminator bytes already contains the terminator, the decoder stops inside
    the frame and returns less than the payload.
  */
  lemma UnframeFramedOnlyIf(hidden: seq<bv8>, tail: seq<bv8>)
    requires ContainsSentinel(hidden + SENTINEL[..|SENTINEL| - 1])
    ensures |Unframe(Frame(hidden) + tail)| < |hidden|
  {
    var p := hidden + SENTINEL[..|SENTINEL| - 1];
    var units := Frame(hidden) + tail;
    var n :| 0 <= n <= |p| && EndsWithSentinel(p[..n]);
    assert units[..n] == p[..n];
    ScanBefore(units, 0, n);
  }

  /**
    Exactly when a framed payload survives the round trip: the payload plus
    the first five terminator bytes must not contain the terminator.
  */
  lemma UnframeFramedIff(hidden: seq<bv8>, tail: seq<bv8>)
    ensures Unframe(Frame(hidden) + tail) == hidden <==> !ContainsSentinel(hidden + SENTINEL[..|SENTINEL| - 1])
  {
    if ContainsSentinel(hidden + SENTINEL[..|SENTINEL| - 1]) {
      UnframeFramedOnlyIf(hidden, tail);
    } else {
      UnframeFramed(hidden, tail);
    }
  }

  /**
    The condition of UnframeFramed cannot be weakened to "the payload does not
    contain the terminator": the terminator overlaps itself on `00 FF 00`, so
    the payload `00 FF 00` is lost entirely.
  */
  lemma OverlapLosesPayload()
    ensures !ContainsSentinel([0x00, 0xFF, 0x00])
    ensures Unframe(Frame([0x00, 0xFF, 0x00])) == []
  {
    var units := Frame([0x00, 0xFF, 0x00]);
    assert units[..|SENTINEL|] == SENTINEL;
    UnframeFirst(units, |SENTINEL|);
  }
}
