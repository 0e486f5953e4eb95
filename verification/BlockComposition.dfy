/** When scanning a concatenation is scanning its parts: exactly when the walk consumes the first part. */
module BlockComposition {
  import opened Bytes
  import opened Blocks

  /** Scanning anything behind `a` adds exactly that thing's own locations. */
  ghost predicate Composes(a: bytes) {
    forall b: bytes :: ComposesWith(a, b)
  }

  predicate ComposesWith(a: bytes, b: bytes) {
    Scan(a + b, 0) == Scan(a, 0) + Shifted(Scan(b, 0), |a|)
  }

  /** A smallest packet block: an SPB without data. */
  const PROBE: bytes := [3, 0, 0, 0, 16, 0, 0, 0, 0, 0, 0, 0, 16, 0, 0, 0]

  lemma ProbeWords()
    ensures |PROBE| == 16 && ReadLE32(PROBE, 0) == 3 && ReadLE32(PROBE, 4) == 16 && ReadLE32(PROBE, 8) == 0
  {
    hide BlockFits, Found, Scan;
    assert PROBE[0] == 3 && PROBE[4] == 16 && PROBE[1] == PROBE[2] == PROBE[3] == 0;
    assert PROBE[5] == PROBE[6] == PROBE[7] == 0 && PROBE[8] == PROBE[9] == PROBE[10] == PROBE[11] == 0;
  }

  lemma ProbeScan()
    ensures |PROBE| == 16 && Scan(PROBE, 0) == [Location(12, 0)]
  {
    hide ReadLE32, Scan;
    ProbeWords();
    ScanStep(PROBE, 0, 16);
    ScanStops(PROBE, 16);
  }

  /** Four bytes of `pre + PROBE` that straddle the length field of an unfinished header. */
  lemma StraddlingLength(a: bytes, e: nat)
    requires e < |a| < e + 8
    ensures !BlockFits(a + PROBE, e)
  {
    var s := a + PROBE;
    var r := |a| - e;
    assert s[e + 4] == (if r > 4 then a[e + 4] else PROBE[4 - r]);
    assert s[e + 5] == (if r > 5 then a[e + 5] else PROBE[5 - r]);
    assert s[e + 6] == (if r > 6 then a[e + 6] else PROBE[6 - r]);
    assert s[e + 7] == PROBE[7 - r];
  }

  /** Behind zeros, the walk cannot start on the probe. */
  lemma ZerosBlockWalk(need: nat)
    requires need > 0
    ensures Scan(Zeros(need) + PROBE, 0) == []
  {
    var b := Zeros(need) + PROBE;
    if need < 8 {
      assert b[4] == (if need > 4 then 0 else PROBE[4 - need]);
      assert b[5] == (if need > 5 then 0 else PROBE[5 - need]);
      assert b[6] == (if need > 6 then 0 else PROBE[6 - need]);
      assert b[7] == PROBE[7 - need];
    }
    assert !BlockFits(b, 0);
  }

  /** The walk of `a` stops for good, whatever follows. */
  lemma StuckWalk(a: bytes, e: nat)
    requires e < |a| && !BlockFits(a, e)
    requires |a| < e + 8 || ReadLE32(a, e + 4) < 12
    ensures Scan(a + PROBE, e) == []
  {
    if |a| < e + 8 {
      StraddlingLength(a, e);
    } else {
      ReadInPrefix(a, PROBE, e + 4);
    }
    hide ReadLE32;
  }

  /** The walk of `a` stops at a block whose end is missing; completing it lets the walk reach the probe. */
  lemma CompletedWalk(a: bytes, e: nat, need: nat)
    requires e + 8 <= |a| && ReadLE32(a, e + 4) >= 12 && e + ReadLE32(a, e + 4) == |a| + need
    ensures Scan(a + (Zeros(need) + PROBE), e) != []
  {
    var s := a + (Zeros(need) + PROBE);
    var next := e + ReadLE32(a, e + 4);
    ReadInPrefix(a, Zeros(need) + PROBE, e + 4);
    ProbeScan();
    hide ReadLE32, Scan;
    Assoc(a, Zeros(need), PROBE);
    ScanOfSuffix(a + Zeros(need), PROBE, 0);
    ScanStep(s, e, next);
  }

  lemma NoneThenSome(a: bytes, b: bytes)
    requires Scan(a + b, WalkEnd(a, 0)) == [] <==> Scan(b, 0) != []
    ensures !ComposesWith(a, b)
  {
    hide Scan;
    ScanPastPrefix(a, b, 0);
  }

  lemma IncompleteDoesNotCompose(a: bytes) returns (b: bytes)
    requires !Complete(a)
    ensures !ComposesWith(a, b)
  {
    var e := WalkEnd(a, 0);
    ProbeScan();
    if |a| < e + 8 || ReadLE32(a, e + 4) < 12 {
      StuckWalk(a, e);
      b := PROBE;
    } else {
      var need := e + ReadLE32(a, e + 4) - |a|;
      CompletedWalk(a, e, need);
      ZerosBlockWalk(need);
      b := Zeros(need) + PROBE;
    }
    hide Scan, WalkEnd, ReadLE32;
    NoneThenSome(a, b);
  }

  /** The scan composes behind a byte string if and only if the walk consumes that string completely. */
  lemma ComposesIffComplete(a: bytes)
    ensures Composes(a) <==> Complete(a)
  {
    hide Complete, ComposesWith;
    if Complete(a) {
      forall b: bytes
        ensures ComposesWith(a, b)
      {
        ComposesBehindComplete(a, b);
      }
    } else {
      var b := IncompleteDoesNotCompose(a);
    }
  }

  lemma ComposesBehindComplete(a: bytes, b: bytes)
    requires Complete(a)
    ensures ComposesWith(a, b)
  {
    hide Scan;
    ScanComposes(a, b);
  }
}
