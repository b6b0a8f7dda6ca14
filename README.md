# Telemetry time-chunking segmenter

A Dafny model of the chunking loop in `read_csv_and_chunk` of the telemetry
TUI's CSV reader. The reader takes spacecraft telemetry rows: a nanosecond
timestamp, an ECEF position and a velocity. It groups them, in one forward
pass, into consecutive non-empty chunks. The display then shows these chunks
one per tick.

The first row opens the first chunk, and its timestamp becomes the anchor.
Each later row is compared with the anchor using saturating `u64`
subtraction. If the gap is strictly greater than `time_chunk_duration`, the
current chunk is closed, the row opens a new chunk and becomes the new
anchor. Otherwise the row joins the current chunk and the anchor stays as it
is. After the last row, the current chunk is emitted if it is non-empty.

The anchor is the first record of the current chunk, not the record seen
just before. So a chunk may hold records that are each less than the
duration apart but span more than it in total. A prose description of this
segmenter speaks of the gap since the previously seen sample. The code
measures from the chunk's first record. This model follows the code, and
`AnchorIsChunkStart` exhibits an input on which the two readings differ.

Everything is in `csv_reader.dfy`, module `CsvReader`:

- `TelemetryRecord` is the parsed row. The timestamp is a `U64` (an `int`
  bounded to the unsigned 64-bit range). The six `f64` payload fields are
  `real`s that the segmenter never inspects.
- `SaturatingSub` is `u64::saturating_sub`.
- `Chunks` is the pure specification: the first record opens a chunk that
  runs up to the first record beyond the duration of it (`FirstBreak`), and
  the rest is chunked the same way.
- `IsSegmentation` is an independent description of a correct output: the
  chunks concatenate back to the input, none is empty, every record is
  within the duration of its chunk's first record, and every chunk after the
  first opens beyond the duration of the previous chunk's first record.
  `SegmentationIff` proves that `Chunks` is the one and only such output.
- `ReadAndChunk` is the loop itself, with the same mutable locals
  (`currentChunk`, `previousTimestamp`, `chunks`), the same branches,
  including the early `continue` for the first row, and the same final
  push. Its loop invariant `LoopState` says that `previousTimestamp` is the
  timestamp of `currentChunk[0]`. It also says that the closed chunks plus
  the chunks of the unprocessed tail starting at the current chunk make up
  `Chunks(records, duration)`. One lemma per branch maintains it.

## Model

| member | source | states |
|---|---|---|
| `CsvReader.SaturatingSub` | src/csv_reader.rs:56 | the gap never exceeds the later timestamp; it is zero exactly when the later timestamp does not pass the earlier one; otherwise it is their exact difference |
| `CsvReader.BreakFromSpec` | src/csv_reader.rs:55-71 | scanning from index `m`, every record passed over is within the duration of the chunk's first record, and the scan stops at the first record beyond it |
| `CsvReader.FirstBreakSpec` | src/csv_reader.rs:55-71 | the chunk opened by the first record contains every following record up to the first one that is beyond the duration of the anchor, and ends there |
| `CsvReader.BreakUnique` | src/csv_reader.rs:59-70 | the chunk's length is fixed by the split rule: if all records before index `k` are within the duration and the record at `k` (if any) is not, the chunk has exactly `k` records |
| `CsvReader.ChunksSplitAt` | src/csv_reader.rs:59-68 | a record beyond the duration of the anchor, preceded only by records within it, closes the current chunk and opens the next one |
| `CsvReader.CloseChunk` | src/csv_reader.rs:59-65 | the split step restated on the whole input: the chunk opened at `start` ends just before the first record beyond the duration of `records[start]` |
| `CsvReader.ReadAndChunk` | src/csv_reader.rs:23-80 | the loop's output equals the specification `Chunks(records, duration)` for every input and every duration |
| `CsvReader.FirstRowStep` | src/csv_reader.rs:47-52 | the first row starts the current chunk and sets the anchor to its own timestamp; no chunk is emitted |
| `CsvReader.AppendStep` | src/csv_reader.rs:69-71 | a row within the duration of the anchor is appended to the current chunk; the anchor and the emitted chunks stay unchanged |
| `CsvReader.SplitStep` | src/csv_reader.rs:59-68 | a row beyond the duration of the anchor emits the current chunk, becomes the sole record of a new current chunk, and becomes the anchor |
| `CsvReader.FinalStep` | src/csv_reader.rs:75-80 | after the last row, appending the current chunk when it is non-empty completes the specified output |
| `CsvReader.ChunksConcatenate` | src/csv_reader.rs:47-78 | concatenating the chunks in order gives back the input exactly: no record is dropped, duplicated or reordered |
| `CsvReader.ChunksNonEmpty` | src/csv_reader.rs:48-77 | every emitted chunk holds at least one record |
| `CsvReader.ChunksWithinAnchor` | src/csv_reader.rs:55-71 | every record of every chunk is within the duration (saturating gap at most the duration) of that chunk's first record |
| `CsvReader.ChunksSplitBeyond` | src/csv_reader.rs:56-68 | every chunk after the first begins with a record whose gap from the previous chunk's first record is strictly greater than the duration |
| `CsvReader.SegmentationIff` | src/csv_reader.rs:23-80 | a chunk sequence concatenates to the input, has no empty chunk, keeps records within the duration of their chunk's first record and opens each new chunk beyond it if and only if it is the segmenter's output |
| `CsvReader.SegmentationUnique` | src/csv_reader.rs:55-71 | any chunk sequence meeting those four conditions is the segmenter's output |
| `CsvReader.SingleChunkIff` | src/csv_reader.rs:55-77 | the whole input is one chunk exactly when it is non-empty and every record is within the duration of the first; a gap equal to the duration does not split |
| `CsvReader.EmptyAndSingle` | src/csv_reader.rs:48-80 | no records give no chunks; a single record gives exactly one chunk holding that record |
| `CsvReader.ChunkCountBounds` | src/csv_reader.rs:59-77 | the output is empty exactly when the input is, and never has more chunks than records |
| `CsvReader.RegressionNeverSplits` | src/csv_reader.rs:56-70 | records whose timestamps never pass the first record's give one chunk, because a regression gives a saturated gap of zero |
| `CsvReader.ConsecutiveGapsBounded` | src/csv_reader.rs:55-71 | for time-ordered input, neighbouring records in a chunk are never more than the duration apart |
| `CsvReader.AnchorIsChunkStart` | src/csv_reader.rs:50-70 | records 0.6 s apart with a 1 s duration have every neighbouring gap within the duration, yet the third record opens a new chunk, because the anchor is the chunk's first record |
| `CsvReader.ThreeChunksOfTwo` | src/csv_reader.rs:88-99 | six records with two gaps beyond a 1 s duration (1,000,000,000 ns) give three chunks of two records each, whatever the start time |

## Left out

- Opening the file and reading CSV records (src/csv_reader.rs:20-21, 28-29) are I/O through the `csv` crate, and so is the `?` error propagation. The model takes the already-parsed records as a sequence.
- Field parsing (src/csv_reader.rs:32-44) is left out. The timestamp is parsed as `f64`, then `.round() as u64`, which is floating point with a saturating cast. The `.unwrap()` panics on malformed columns are parse failures. Records enter the model with integer timestamps.
- The position and velocity fields are `f64` in the source and `real` here. The segmenter only carries them along.
- The coordinate converters `EcefCoord::to_geo` (src/coord.rs) and `ecef_to_geo` (src/main.rs) are not part of this model. They are floating-point trigonometry with an uncapped fixed-point loop.
- The terminal UI (src/tui.rs) is not part of this model. Neither are the printing `main` and the constant `process` stub (src/main.rs).
- `data/test.csv`, the fixture of the Rust test, is not part of this model. `ThreeChunksOfTwo` uses a constructed input with the shape the test asserts.
- ChunkCountBounds: the count "one plus the number of split events" is not stated as a single formula. Instead, `ChunksSplitBeyond` and `ChunksWithinAnchor` fix where every chunk after the first begins. `ChunkCountBounds` states only the bounds.
