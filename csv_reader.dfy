/** Time-chunking segmenter of the telemetry reader.
    A single forward pass over already-parsed telemetry records groups them
    into consecutive, non-empty chunks. A chunk is opened by its first record,
    whose timestamp becomes the chunk's anchor; a later record opens a new
    chunk exactly when its timestamp is more than the configured duration past
    that anchor (saturating unsigned subtraction, so a timestamp regression
    counts as no time elapsed). */
module CsvReader {

  datatype Option<T> = None | Some(value: T)

  /** Unsigned 64-bit integers, the width of timestamps and of the duration. */
  const U64_MAX: int := 0xFFFF_FFFF_FFFF_FFFF
  type U64 = x: int | 0 <= x <= U64_MAX

  /** One telemetry row: an integer nanosecond timestamp and the ECEF position
      and velocity, which the segmenter carries along without inspecting. */
  datatype TelemetryRecord = TelemetryRecord(
    timestampNs: U64,
    posX: real, posY: real, posZ: real,
    velX: real, velY: real, velZ: real)

  /** Unsigned subtraction clamped at zero. */
  function SaturatingSub(a: U64, b: U64): (r: U64)
    ensures r <= a
    ensures r == 0 <==> a <= b
    ensures a > b ==> b + r == a
  {
    if a > b then a - b else 0
  }

  /** Record `m` of `s` lies within `duration` of the record that opens `s`. */
  predicate WithinAnchor(s: seq<TelemetryRecord>, duration: U64, m: nat)
    requires m < |s|
  {
    SaturatingSub(s[m].timestampNs, s[0].timestampNs) <= duration
  }

  /** Every record of `c` lies within `duration` of the record that opens it. */
  predicate AllWithin(c: seq<TelemetryRecord>, duration: U64)
  {
    forall m :: 0 <= m < |c| ==> WithinAnchor(c, duration, m)
  }

  /** The first index at or after `m` whose record lies beyond `duration` of
      `s[0]`, or `|s|` when there is none. */
  function BreakFrom(s: seq<TelemetryRecord>, duration: U64, m: nat): (k: nat)
    requires 1 <= m <= |s|
    ensures m <= k <= |s|
    decreases |s| - m
  {
    if m == |s| || !WithinAnchor(s, duration, m) then m
    else BreakFrom(s, duration, m + 1)
  }

  /** `BreakFrom` stops at the first record beyond the duration and passes
      over only records within it. */
  lemma {:induction false} BreakFromSpec(s: seq<TelemetryRecord>, duration: U64, m: nat)
    requires 1 <= m <= |s|
    ensures forall j :: m <= j < BreakFrom(s, duration, m) ==> WithinAnchor(s, duration, j)
    ensures BreakFrom(s, duration, m) < |s| ==> !WithinAnchor(s, duration, BreakFrom(s, duration, m))
    decreases |s| - m
  {
    if m < |s| && WithinAnchor(s, duration, m) {
      BreakFromSpec(s, duration, m + 1);
    }
  }

  /** Length of the chunk that `s[0]` opens: the records up to, and not
      including, the first one beyond `duration` of `s[0]`. */
  function FirstBreak(s: seq<TelemetryRecord>, duration: U64): (k: nat)
    requires s != []
    ensures 1 <= k <= |s|
  {
    BreakFrom(s, duration, 1)
  }

  /** The chunk opened by `s[0]` holds every record up to the first one
      beyond `duration` of `s[0]`, and stops there. */
  lemma FirstBreakSpec(s: seq<TelemetryRecord>, duration: U64)
    requires s != []
    ensures forall j :: 1 <= j < FirstBreak(s, duration) ==> WithinAnchor(s, duration, j)
    ensures FirstBreak(s, duration) < |s| ==> !WithinAnchor(s, duration, FirstBreak(s, duration))
  {
    BreakFromSpec(s, duration, 1);
  }

  /** Specification of the segmenter: the first record opens a chunk that
      runs up to the first record beyond `duration` of it; the rest of the
      input is segmented the same way. */
  function Chunks(s: seq<TelemetryRecord>, duration: U64): seq<seq<TelemetryRecord>>
    decreases |s|
  {
    if s == [] then []
    else
      var k := FirstBreak(s, duration);
      [s[..k]] + Chunks(s[k..], duration)
  }

  /** The chunks laid end to end. */
  function Flatten(cs: seq<seq<TelemetryRecord>>): seq<TelemetryRecord>
  {
    if cs == [] then [] else cs[0] + Flatten(cs[1..])
  }

  /** No chunk is empty. */
  predicate AllNonEmpty(cs: seq<seq<TelemetryRecord>>)
  {
    forall c :: c in cs ==> c != []
  }

  /** Every record of every chunk is within `duration` of that chunk's first
      record. */
  predicate AllWithinAnchor(cs: seq<seq<TelemetryRecord>>, duration: U64)
  {
    forall c :: c in cs ==> AllWithin(c, duration)
  }

  /** Every chunk after the first opens with a record beyond `duration` of
      the previous chunk's first record. */
  predicate OpensBeyond(cs: seq<seq<TelemetryRecord>>, duration: U64)
  {
    |cs| <= 1 ||
    (&& cs[0] != [] && cs[1] != []
     && SaturatingSub(cs[1][0].timestampNs, cs[0][0].timestampNs) > duration
     && OpensBeyond(cs[1..], duration))
  }

  /** Independent description of a valid output: the chunks rebuild the
      input, none is empty, records stay within `duration` of their chunk's
      first record, and each new chunk opens beyond it. */
  predicate IsSegmentation(s: seq<TelemetryRecord>, duration: U64, cs: seq<seq<TelemetryRecord>>)
  {
    Flatten(cs) == s && AllNonEmpty(cs) && AllWithinAnchor(cs, duration) && OpensBeyond(cs, duration)
  }

  /** Timestamps in time order, as the input is expected to arrive. */
  predicate NonDecreasing(s: seq<TelemetryRecord>)
  {
    forall i, j :: 0 <= i < j < |s| ==> s[i].timestampNs <= s[j].timestampNs
  }

  /** State of the chunking loop after the first `i` records: `current` is
      the chunk being filled, which opened at index `start`; `previous` holds
      its first record's timestamp, the anchor, and is unset only before the
      first record; `chunks` are the chunks already closed, and together with
      the chunks of the records from `start` on they make up the whole
      output. */
  ghost predicate LoopState(records: seq<TelemetryRecord>, duration: U64, i: nat, start: nat,
                            current: seq<TelemetryRecord>, previous: Option<U64>,
                            chunks: seq<seq<TelemetryRecord>>)
  {
    && start <= i <= |records|
    && current == records[start..i]
    && (previous.None? <==> i == 0)
    && (i == 0 ==> chunks == [])
    && (i > 0 ==> current != [] && previous == Some(current[0].timestampNs))
    && AllWithin(current, duration)
    && Chunks(records, duration) == chunks + Chunks(records[start..], duration)
  }

  /** The chunking loop over already-parsed records. */
  method ReadAndChunk(records: seq<TelemetryRecord>, timeChunkDuration: U64)
    returns (chunks: seq<seq<TelemetryRecord>>)
    ensures chunks == Chunks(records, timeChunkDuration)
  {
    var currentChunk: seq<TelemetryRecord> := [];
    var previousTimestamp: Option<U64> := None;
    chunks := [];
    ghost var start: nat := 0;
    assert records[0..] == records;
    for i := 0 to |records|
      invariant LoopState(records, timeChunkDuration, i, start, currentChunk, previousTimestamp, chunks)
    {
      var row := records[i];
      if previousTimestamp.None? {
        FirstRowStep(records, timeChunkDuration, start, currentChunk, chunks);
        currentChunk := currentChunk + [row];
        previousTimestamp := Some(row.timestampNs);
        continue;
      }
      var prevTs := previousTimestamp.value;
      var timeDiff := SaturatingSub(row.timestampNs, prevTs);
      if timeDiff > timeChunkDuration {
        SplitStep(records, timeChunkDuration, i, start, currentChunk, previousTimestamp, chunks);
        chunks := chunks + [currentChunk];
        currentChunk := [row];
        previousTimestamp := Some(row.timestampNs);
        start := i;
      } else {
        AppendStep(records, timeChunkDuration, i, start, currentChunk, previousTimestamp, chunks);
        currentChunk := currentChunk + [row];
      }
    }
    FinalStep(records, timeChunkDuration, start, currentChunk, previousTimestamp, chunks);
    if currentChunk != [] {
      chunks := chunks + [currentChunk];
    }
  }

  /** The first record opens the first chunk and becomes its anchor. */
  lemma FirstRowStep(records: seq<TelemetryRecord>, duration: U64, start: nat,
                     current: seq<TelemetryRecord>, chunks: seq<seq<TelemetryRecord>>)
    requires |records| > 0
    requires LoopState(records, duration, 0, start, current, None, chunks)
    ensures LoopState(records, duration, 1, start, current + [records[0]], Some(records[0].timestampNs), chunks)
  {
  }

  /** A record within the duration of the anchor joins the current chunk and
      leaves the anchor alone. */
  lemma AppendStep(records: seq<TelemetryRecord>, duration: U64, i: nat, start: nat,
                   current: seq<TelemetryRecord>, previous: Option<U64>,
                   chunks: seq<seq<TelemetryRecord>>)
    requires i < |records| && previous.Some?
    requires LoopState(records, duration, i, start, current, previous, chunks)
    requires SaturatingSub(records[i].timestampNs, previous.value) <= duration
    ensures LoopState(records, duration, i + 1, start, current + [records[i]], previous, chunks)
  {
    assert records[start..i + 1] == current + [records[i]];
    AppendWithin(current, records[i], duration);
  }

  /** A record beyond the duration of the anchor closes the current chunk and
      opens a new one, of which it is the anchor. */
  lemma SplitStep(records: seq<TelemetryRecord>, duration: U64, i: nat, start: nat,
                  current: seq<TelemetryRecord>, previous: Option<U64>,
                  chunks: seq<seq<TelemetryRecord>>)
    requires i < |records| && previous.Some?
    requires LoopState(records, duration, i, start, current, previous, chunks)
    requires SaturatingSub(records[i].timestampNs, previous.value) > duration
    ensures LoopState(records, duration, i + 1, i, [records[i]], Some(records[i].timestampNs), chunks + [current])
  {
    CloseChunk(records, duration, start, i);
    assert records[i..i + 1] == [records[i]];
    assert WithinAnchor([records[i]], duration, 0);
  }

  /** The chunk opened at `start` ends at `i` when the records from `start`
      up to `i` are all within the duration of `records[start]` and
      `records[i]` is beyond it. */
  lemma CloseChunk(records: seq<TelemetryRecord>, duration: U64, start: nat, i: nat)
    requires start < i < |records|
    requires AllWithin(records[start..i], duration)
    requires SaturatingSub(records[i].timestampNs, records[start].timestampNs) > duration
    ensures Chunks(records[start..], duration) == [records[start..i]] + Chunks(records[i..], duration)
  {
    var s := records[start..];
    var c := records[start..i];
    forall m | 0 <= m < i - start ensures WithinAnchor(s, duration, m) {
      assert WithinAnchor(c, duration, m);
      assert s[m] == c[m] && s[0] == c[0];
    }
    ChunksSplitAt(s, duration, i - start);
    assert s[..i - start] == c;
    assert s[i - start..] == records[i..];
  }

  /** After the last record the current chunk, when there is one, is the
      last chunk of the output. */
  lemma FinalStep(records: seq<TelemetryRecord>, duration: U64, start: nat,
                  current: seq<TelemetryRecord>, previous: Option<U64>,
                  chunks: seq<seq<TelemetryRecord>>)
    requires LoopState(records, duration, |records|, start, current, previous, chunks)
    ensures (if current != [] then chunks + [current] else chunks) == Chunks(records, duration)
  {
    assert records[start..] == current;
    SingleChunkIff(current, duration);
  }

  /** Appending a record within the duration of the chunk's first record
      keeps every record of the chunk within it. */
  lemma AppendWithin(c: seq<TelemetryRecord>, r: TelemetryRecord, duration: U64)
    requires c != []
    requires AllWithin(c, duration)
    requires SaturatingSub(r.timestampNs, c[0].timestampNs) <= duration
    ensures AllWithin(c + [r], duration)
  {
    forall m | 0 <= m < |c| + 1 ensures WithinAnchor(c + [r], duration, m) {
      if m < |c| {
        assert WithinAnchor(c, duration, m);
      }
    }
  }

  /** The chunk opened by `s[0]` has exactly length `k` when every record
      before index `k` is within the duration and the record at `k`, if any,
      is not. */
  lemma BreakUnique(s: seq<TelemetryRecord>, duration: U64, k: nat)
    requires 1 <= k <= |s|
    requires forall j :: 1 <= j < k ==> WithinAnchor(s, duration, j)
    requires k < |s| ==> !WithinAnchor(s, duration, k)
    ensures FirstBreak(s, duration) == k
  {
    FirstBreakSpec(s, duration);
  }

  /** A record beyond `duration` of the anchor, preceded only by records
      within it, closes the first chunk and opens the next. */
  lemma ChunksSplitAt(s: seq<TelemetryRecord>, duration: U64, k: nat)
    requires 0 < k < |s|
    requires forall m :: 0 <= m < k ==> WithinAnchor(s, duration, m)
    requires SaturatingSub(s[k].timestampNs, s[0].timestampNs) > duration
    ensures Chunks(s, duration) == [s[..k]] + Chunks(s[k..], duration)
  {
    BreakUnique(s, duration, k);
  }

  /** The whole input forms a single chunk exactly when it is non-empty and
      every record is within `duration` of the first. */
  lemma SingleChunkIff(s: seq<TelemetryRecord>, duration: U64)
    ensures Chunks(s, duration) == [s] <==> s != [] && AllWithin(s, duration)
  {
    if s != [] {
      var k := FirstBreak(s, duration);
      FirstBreakSpec(s, duration);
      if AllWithin(s, duration) {
        BreakUnique(s, duration, |s|);
        assert s[..|s|] == s;
        assert s[|s|..] == [];
      } else {
        assert WithinAnchor(s, duration, 0);
        assert k < |s|;
        assert Chunks(s, duration)[0] == s[..k];
        assert |s[..k]| < |s|;
      }
    }
  }

  /** Every record ends up in exactly one chunk, in input order. */
  lemma {:induction false} ChunksConcatenate(s: seq<TelemetryRecord>, duration: U64)
    ensures Flatten(Chunks(s, duration)) == s
    decreases |s|
  {
    if s != [] {
      var k := FirstBreak(s, duration);
      ChunksConcatenate(s[k..], duration);
      var cs: seq<seq<TelemetryRecord>> := Chunks(s, duration);
      assert cs[0] == s[..k] && cs[1..] == Chunks(s[k..], duration);
      assert s[..k] + s[k..] == s;
    }
  }

  /** No chunk is empty. */
  lemma {:induction false} ChunksNonEmpty(s: seq<TelemetryRecord>, duration: U64)
    ensures AllNonEmpty(Chunks(s, duration))
    decreases |s|
  {
    if s != [] {
      var k := FirstBreak(s, duration);
      ChunksNonEmpty(s[k..], duration);
    }
  }

  /** Every record of a chunk is within `duration` of the chunk's first
      record: the anchor is the first record of the chunk. */
  lemma {:induction false} ChunksWithinAnchor(s: seq<TelemetryRecord>, duration: U64)
    ensures AllWithinAnchor(Chunks(s, duration), duration)
    decreases |s|
  {
    if s != [] {
      var k := FirstBreak(s, duration);
      FirstBreakSpec(s, duration);
      ChunksWithinAnchor(s[k..], duration);
      var c0 := s[..k];
      forall m | 0 <= m < |c0| ensures WithinAnchor(c0, duration, m) {
        if m > 0 {
          assert WithinAnchor(s, duration, m);
        }
      }
    }
  }

  /** Each chunk after the first opens with a record beyond `duration` of the
      previous chunk's first record. */
  lemma {:induction false} ChunksSplitBeyond(s: seq<TelemetryRecord>, duration: U64)
    ensures OpensBeyond(Chunks(s, duration), duration)
    decreases |s|
  {
    if s != [] {
      var k := FirstBreak(s, duration);
      FirstBreakSpec(s, duration);
      var rest: seq<seq<TelemetryRecord>> := Chunks(s[k..], duration);
      var cs: seq<seq<TelemetryRecord>> := Chunks(s, duration);
      ChunksSplitBeyond(s[k..], duration);
      if rest != [] {
        assert s[k..] != [];
        assert rest[0] == s[k..][..FirstBreak(s[k..], duration)];
        assert cs[1][0] == s[k];
        assert !WithinAnchor(s, duration, k);
      }
      assert cs[1..] == rest;
      assert OpensBeyond(cs, duration);
    }
  }

  /** The segmenter's output is a segmentation in the sense above, and it is
      the only one: the split rule fixes every chunk boundary. */
  lemma SegmentationIff(s: seq<TelemetryRecord>, duration: U64, cs: seq<seq<TelemetryRecord>>)
    ensures IsSegmentation(s, duration, cs) <==> cs == Chunks(s, duration)
  {
    ChunksConcatenate(s, duration);
    ChunksNonEmpty(s, duration);
    ChunksWithinAnchor(s, duration);
    ChunksSplitBeyond(s, duration);
    if IsSegmentation(s, duration, cs) {
      SegmentationUnique(s, duration, cs);
    }
  }

  /** Dropping the first chunk of a segmentation leaves a segmentation of
      the remaining records. */
  lemma SegmentationRest(s: seq<TelemetryRecord>, duration: U64, cs: seq<seq<TelemetryRecord>>)
    requires IsSegmentation(s, duration, cs)
    requires cs != []
    ensures |cs[0]| <= |s| && s[..|cs[0]|] == cs[0]
    ensures IsSegmentation(s[|cs[0]|..], duration, cs[1..])
  {
    var tail := cs[1..];
    assert s == cs[0] + Flatten(tail);
    assert s[|cs[0]|..] == Flatten(tail);
    forall d | d in tail ensures d in cs { }
  }

  /** The first chunk of a segmentation is the chunk the first record opens. */
  lemma SegmentationHead(s: seq<TelemetryRecord>, duration: U64, cs: seq<seq<TelemetryRecord>>)
    requires IsSegmentation(s, duration, cs)
    requires cs != []
    ensures s != [] && FirstBreak(s, duration) == |cs[0]|
  {
    var c := cs[0];
    assert c in cs;
    var k := |c|;
    assert s == c + Flatten(cs[1..]);
    forall j | 1 <= j < k ensures WithinAnchor(s, duration, j) {
      assert WithinAnchor(c, duration, j);
    }
    if k < |s| {
      assert cs[1..] != [];
      assert cs[1] in cs;
      assert Flatten(cs[1..]) == cs[1] + Flatten(cs[2..]);
      assert s[k] == cs[1][0];
    }
    BreakUnique(s, duration, k);
  }

  lemma {:induction false} SegmentationUnique(s: seq<TelemetryRecord>, duration: U64, cs: seq<seq<TelemetryRecord>>)
    requires IsSegmentation(s, duration, cs)
    ensures cs == Chunks(s, duration)
    decreases |cs|
  {
    if cs != [] {
      SegmentationHead(s, duration, cs);
      SegmentationRest(s, duration, cs);
      SegmentationUnique(s[|cs[0]|..], duration, cs[1..]);
      assert cs == [cs[0]] + cs[1..];
    }
  }

  /** An empty input gives no chunks; a single record gives one chunk
      holding it. */
  lemma EmptyAndSingle(r: TelemetryRecord, duration: U64)
    ensures Chunks([], duration) == []
    ensures Chunks([r], duration) == [[r]]
  {
    SingleChunkIff([r], duration);
  }

  /** There are no chunks for no records, at least one for some records,
      and never more chunks than records. */
  lemma {:induction false} ChunkCountBounds(s: seq<TelemetryRecord>, duration: U64)
    ensures |Chunks(s, duration)| == 0 <==> s == []
    ensures |Chunks(s, duration)| <= |s|
    decreases |s|
  {
    if s != [] {
      var k := FirstBreak(s, duration);
      ChunkCountBounds(s[k..], duration);
    }
  }

  /** Timestamps that never pass the first record's, however far they
      regress, never open a second chunk. */
  lemma RegressionNeverSplits(s: seq<TelemetryRecord>, duration: U64)
    requires s != []
    requires forall m :: 0 <= m < |s| ==> s[m].timestampNs <= s[0].timestampNs
    ensures Chunks(s, duration) == [s]
  {
    SingleChunkIff(s, duration);
  }

  /** Chunks of time-ordered input are time-ordered. */
  lemma {:induction false} ChunksOfNonDecreasing(s: seq<TelemetryRecord>, duration: U64)
    requires NonDecreasing(s)
    ensures forall c :: c in Chunks(s, duration) ==> NonDecreasing(c)
    decreases |s|
  {
    if s != [] {
      var k := FirstBreak(s, duration);
      ChunksOfNonDecreasing(s[k..], duration);
    }
  }

  /** For time-ordered input, consecutive records of one chunk are never
      more than `duration` apart. */
  lemma ConsecutiveGapsBounded(s: seq<TelemetryRecord>, duration: U64)
    requires NonDecreasing(s)
    ensures forall c: seq<TelemetryRecord>, m: int :: c in Chunks(s, duration) && 0 < m < |c| ==>
      SaturatingSub(c[m].timestampNs, c[m - 1].timestampNs) <= duration
  {
    ChunksOfNonDecreasing(s, duration);
    ChunksWithinAnchor(s, duration);
    forall c: seq<TelemetryRecord>, m: int | c in Chunks(s, duration) && 0 < m < |c|
      ensures SaturatingSub(c[m].timestampNs, c[m - 1].timestampNs) <= duration
    {
      assert WithinAnchor(c, duration, m);
      assert c[0].timestampNs <= c[m - 1].timestampNs;
    }
  }

  /** A record at time `t` with zero position and velocity. */
  function Sample(t: U64): TelemetryRecord
  {
    TelemetryRecord(t, 0.0, 0.0, 0.0, 0.0, 0.0, 0.0)
  }

  /** Records 0.6 s apart with a 1 s duration: every gap between neighbours
      is within the duration, yet the third record opens a new chunk because
      it is 1.2 s past the chunk's first record. */
  lemma AnchorIsChunkStart()
    ensures var s := [Sample(0), Sample(600_000_000), Sample(1_200_000_000)];
      && SaturatingSub(s[1].timestampNs, s[0].timestampNs) <= 1_000_000_000
      && SaturatingSub(s[2].timestampNs, s[1].timestampNs) <= 1_000_000_000
      && Chunks(s, 1_000_000_000) == [[s[0], s[1]], [s[2]]]
  {
    var s := [Sample(0), Sample(600_000_000), Sample(1_200_000_000)];
    ChunksSplitAt(s, 1_000_000_000, 2);
    assert s[2..] == [s[2]];
    SingleChunkIff([s[2]], 1_000_000_000);
    assert s[..2] == [s[0], s[1]];
  }

  /** Six records starting at `t0`: pairs 0.5 s apart, with 1.5 s between
      one pair and the next. */
  function PairedSamples(t0: U64): (s: seq<TelemetryRecord>)
    requires t0 <= U64_MAX - 4_500_000_000
    ensures |s| == 6
  {
    [Sample(t0), Sample(t0 + 500_000_000), Sample(t0 + 2_000_000_000),
     Sample(t0 + 2_500_000_000), Sample(t0 + 4_000_000_000), Sample(t0 + 4_500_000_000)]
  }

  /** A second record within the duration of the first, followed by no
      record or by one beyond it, makes a chunk of two. */
  lemma ChunkOfTwo(s: seq<TelemetryRecord>, duration: U64)
    requires |s| >= 2
    requires SaturatingSub(s[1].timestampNs, s[0].timestampNs) <= duration
    requires |s| > 2 ==> SaturatingSub(s[2].timestampNs, s[0].timestampNs) > duration
    ensures Chunks(s, duration) == [s[..2]] + Chunks(s[2..], duration)
  {
    BreakUnique(s, duration, 2);
  }

  /** With a 1 s duration the paired samples give three chunks of two
      records each, wherever they start. */
  lemma ThreeChunksOfTwo(t0: U64)
    requires t0 <= U64_MAX - 4_500_000_000
    ensures var cs := Chunks(PairedSamples(t0), 1_000_000_000);
      |cs| == 3 && |cs[0]| == 2 && |cs[1]| == 2 && |cs[2]| == 2
  {
    var d := 1_000_000_000;
    var s := PairedSamples(t0);
    ChunkOfTwo(s, d);
    ChunkOfTwo(s[2..], d);
    ChunkOfTwo(s[2..][2..], d);
    assert s[2..][2..][2..] == [];
  }
}
