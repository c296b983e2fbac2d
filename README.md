# startracker core in Dafny

This project models the integer and byte-level core of the `startracker` Rust crate, a camera-frame and star-detection pipeline:

- **Camera frames** (`cameraframe.dfy`): the `CameraFrameMono` sample buffer with its row-major or column-major linearisation, the checked accessors `at(i)` and `at((r,c))`, the unchecked `Index`/`IndexMut` operators, `zeros`/`new`, and the two-variant `CameraFrame` that forwards descriptor queries.
- **SER files** (`serfile.dfy`): the SER video container reader. It checks the `LUCAM-RECORDER` magic and decodes the little-endian header fields through the `ColorID` and `Endian` tables. It then slices the payload into 16-bit frames and turns the 64-bit tick trailer into frame times. A pure function `Parse` is the reference. The method `Open` reads the same bytes through a cursor with three `read_exact` steps and is proved to agree with it.
- **Star finding** (`starfinder.dfy`): `find_stars`. It makes one raster pass over the pixels, propagating labels to the right, below-left, below and below-right neighbours. It then keeps segments of at least `minsize` pixels, measures each segment's mass and centroid, and sorts by mass.
- **Frame statistics** (`framestats.dfy`): `FrameStats::new`, which computes min, max, sum, sum of squares and the median of a sorted copy.
- **k-d tree** (`kdtree.dfy`): `create_node`, which builds by median split on `depth % NDIM`, and the range query `points_in_range`. Both are over an abstract `NodeElement`.

Four supporting modules:

- `wrappers.dfy`: `Option` and `Result`.
- `bytes.dfy`: `u8`/`u16` and `from_le_bytes`, with its inverse.
- `utf8.dfy`: `std::str::from_utf8` as a UTF-8 decoder with its encoder, and `str::trim`.
- `sorting.dfy`: an in-place `sort_by`/`sort_unstable` proved sorted and a permutation, plus the unique sorted order of a sequence of integers.

The code's state-changing parts keep that form:

- `CameraFrameMono` is a class over an `array`, and `IndexMut` writes one cell.
- The SER reader advances a `FileReader` cursor object.
- The labelling pass updates a `mask` array in place, with ghost state tying it to the functional `Pass`.
- Sorting is in place on an array.
- The query appends to an accumulator.

Timestamps (`FrameTime`) are integer nanoseconds since 0001-01-01T00:00:00.

The SER file format description gives the telescope field 40 bytes, at header offsets 122..162. The code reads bytes 122..152 (30 bytes) at `src/serfile.rs:142`, and the model follows the code here.

The operations keep the code's branches, error conditions and constants, with four exceptions. These are the evidently unintended behaviours listed under "## Findings". Each is modelled twice: once as written, with a lemma that shows an input exposing it, and once corrected. The members that compose the pipeline use the corrected version, so the rows below marked "corrected" describe corrected behaviour:

- frame times from the SER tick trailer (`FrameTimes`, `Frames`, `ParseBody`, `FramesInFile`, `BodyFrames`, `Parse`, `ReadBody`, `Open`);
- the star centroid row (`Measure`, `MeasureAll`, `Stars`, `FindStars`);
- the k-d tree range query's pruning (`PointsInRangeRecursive`, `PointsInRange`).

The checked accessor `at(i)` is modelled both ways too, as `At` and `AtChecked`.

## Model

| member | source | states |
|---|---|---|
| Bytes.U32LE | src/serfile.rs:134-139 | `u32::from_le_bytes` of four bytes at an offset is below 2^32 |
| Bytes.FromLE | src/serfile.rs:134-139 | `from_le_bytes` of n bytes, least significant first, is below 256^n; FromToLE and ToFromLE state that it is a bijection |
| Bytes.ToLE | src/serfile.rs:163-165 | the n-byte little-endian encoding has n bytes; it is the inverse of FromLE (FromToLE, ToFromLE) |
| Bytes.U32LEBytes | src/serfile.rs:134-139 | the u32 at an offset is b[off] + 256·b[off+1] + 65536·b[off+2] + 2^24·b[off+3] (least significant byte first) |
| Bytes.U64LE | src/serfile.rs:163-165 | `u64::from_le_bytes` of eight bytes at an offset is below 2^64 |
| Bytes.FromToLE | src/serfile.rs:163-165 | decoding the n little-endian bytes of any v < 256^n gives back v |
| Bytes.ToFromLE | src/serfile.rs:163-165 | re-encoding a decoded byte string of length n gives the same bytes: the decoding is a bijection |
| CameraFrames.CoordsOffset | src/cameraframe.rs:112-121 | for r < rows and c < cols the offset of (r,c) is below rows·cols in either pixel order, and it maps back to (r,c) |
| CameraFrames.OffsetCoords | src/cameraframe.rs:112-121 | every linear index below rows·cols is the offset of exactly the in-range (row, col) it decodes to |
| CameraFrames.OffsetInjective | src/cameraframe.rs:114-115 | distinct in-range (r,c) pairs have distinct offsets, for both `c*rows+r` and `r*cols+c` |
| CameraFrames.Offset | src/cameraframe.rs:113-116 | the offset of (r,c): `c*rows + r` column-major, `r*cols + c` row-major; CoordsOffset, OffsetCoords and OffsetInjective state that it is a bijection onto 0..rows·cols |
| CameraFrames.Coords | src/cameraframe.rs:113-116 | the (row, col) of a linear index, the inverse of Offset (CoordsOffset, OffsetCoords) |
| CameraFrames.CameraFrameMono.Zeros | src/cameraframe.rs:206-215 | `zeros` gives rows·cols zero samples in column-major order with the given shape and time, for rows·cols below 2^64 |
| CameraFrames.CameraFrameMono.New | src/cameraframe.rs:216-226 | `new` copies `data` verbatim; the buffer matches rows·cols exactly when `data` has that length, which is not checked |
| CameraFrames.CameraFrameMono.Samples | src/cameraframe.rs:154-156 | `as_slice` exposes all of `rawdata` |
| CameraFrames.CameraFrameMono.At | src/cameraframe.rs:98-103 | as written: `at(i)` panics when the usize product rows·cols overflows; otherwise it errors exactly when i > rows·cols, reads `rawdata[i]` if i is in range and panics if not |
| CameraFrames.CameraFrameMono.AtOnePastEnd | src/cameraframe.rs:98-103 | on a well-formed buffer `at(rows*cols)` passes the guard and panics; the corrected accessor returns `IndexOutOfBounds`, unless rows·cols itself overflows |
| CameraFrames.CameraFrameMono.AtChecked | src/cameraframe.rs:98-103 | corrected `at(i)`: it panics when rows·cols overflows usize; otherwise, on a well-formed buffer, it succeeds exactly when i < rows·cols, never panics, and returns `rawdata[i]` |
| CameraFrames.CameraFrameMono.AtAgreesWithChecked | src/cameraframe.rs:98-103 | the written and the corrected `at(i)` agree on every index except rows·cols |
| CameraFrames.CameraFrameMono.AtOverflow | src/cameraframe.rs:98-99 | on a 2^32 × 2^32 frame `rows*cols` overflows, so both flat reads panic whatever the index |
| CameraFrames.CameraFrameMono.AtRC | src/cameraframe.rs:112-122 | `at((r,c))` panics when the usize offset computed before the guard overflows (offset ≥ 2^64); otherwise it returns `IndexOutOfBounds(offset)` exactly when r >= rows or c >= cols, and reads the element at the pixel-order offset; on a well-formed buffer it panics only on that overflow |
| CameraFrames.CameraFrameMono.AtRCOverflow | src/cameraframe.rs:113-118 | on a two-row column-major frame, (0, 2^63) has offset 2^64, so `at((r,c))` hits the overflow panic before its guard |
| CameraFrames.CameraFrameMono.IndexAgreesWithAt | src/cameraframe.rs:184-189 | on a well-formed buffer of at most 2^64 samples, the unchecked `Index` at an in-range (r,c) does not overflow and resolves the same offset and value as `at((r,c))`, for both pixel orders |
| CameraFrames.CameraFrameMono.Index | src/cameraframe.rs:162-169 | the unchecked `Index` at i is `rawdata[i]`, defined only for i in bounds (the code panics otherwise); SetIndex states what a write does to it |
| CameraFrames.CameraFrameMono.IndexRC | src/cameraframe.rs:180-190 | the unchecked `Index` at (r,c) is the element at its pixel-order offset, defined only when that offset neither overflows usize nor lies past the buffer; IndexAgreesWithAt relates it to `at((r,c))` |
| CameraFrames.CameraFrameMono.SetIndex | src/cameraframe.rs:175-177 | `IndexMut` at i replaces `rawdata[i]` and no other element |
| CameraFrames.CameraFrameMono.SetIndexRC | src/cameraframe.rs:195-200 | `IndexMut` at (r,c) replaces exactly the element at its offset; afterwards `at((r,c))` gives the new value and every other in-range (r2,c2) reads as before; shape, order and time are constants |
| CameraFrames.DescriptorsDelegate | src/cameraframe.rs:286-323 | `CameraFrame`'s rows, cols, bit depth, pixel order and time are those of the wrapped buffer, and its pixel format is always `MONO` |
| SerFiles.EndianFrom | src/serfile.rs:26-36 | `Endian::try_from` maps 0 to Little and 1 to Big; any other v gives `InvalidEndian(v)` |
| SerFiles.EndianRoundTrip | src/serfile.rs:26-36 | decoding an endianness's code gives it back |
| SerFiles.ColorIdFrom | src/serfile.rs:71-90 | `ColorID::try_from` accepts exactly {0,8,9,10,11,16,17,18,19,100,101}, returns the variant whose discriminant is v, and gives `InvalidColorID(v)` otherwise |
| SerFiles.ColorIdRoundTrip | src/serfile.rs:38-51 | every `ColorID` discriminant is accepted and decodes back to the same variant |
| SerFiles.PixelLayers | src/serfile.rs:144-148 | layers are 3 exactly for RGB and BGR and 1 for every other colour id |
| SerFiles.MagicEncoding | src/serfile.rs:119-132 | the magic bytes are the UTF-8 encoding of `LUCAM-RECORDER` |
| SerFiles.MagicCheck | src/serfile.rs:130-132 | bytes 0..14 decode to `LUCAM-RECORDER` exactly when they equal the magic bytes |
| SerFiles.FromUtf8 | src/serfile.rs:130 | a successful `from_utf8` returns the string whose encoding is the input; failure is `Utf8Error` |
| SerFiles.ParseHeader | src/serfile.rs:126-148 | a decoded header has the magic at 0..14, and color id, endian, width, height, bit depth and frame count are the little-endian u32s at offsets 18, 22, 26, 30, 34 and 38 |
| SerFiles.ParseHeaderErrors | src/serfile.rs:130-142 | a wrong magic fails with `InvalidHeader`, or `Utf8Error` if undecodable; an unknown colour id fails with `InvalidColorID(v)`; an endian code >= 2 fails with `InvalidEndian(v)`; a text field that is not UTF-8 fails with `Utf8Error` |
| SerFiles.ParseHeaderSucceeds | src/serfile.rs:126-142 | a header decodes exactly when the magic is right, the colour id is known, the endian code is 0 or 1 and the three text fields are UTF-8 |
| SerFiles.ParseHeaderText | src/serfile.rs:140-142 | observer, instrument and telescope are bytes 42..82, 82..122 and 122..152 decoded as UTF-8 and trimmed |
| SerFiles.FrameBytes | src/serfile.rs:144-150 | width·height·⌈bit_depth/8⌉·layers; FrameShape states the samples per frame and SizesFit its usize bound |
| SerFiles.SizesFit | src/serfile.rs:150-153 | the `usize` products `frame_bytes` and `frame_bytes * frame_count` are below 2^64, the condition under which they do not overflow |
| SerFiles.PartialProductsFit | src/serfile.rs:150 | when both products fit, so do the intermediate products `width*height` and `width*height*byte_depth`, so no earlier multiplication overflows |
| SerFiles.SizeOverflowExample | src/serfile.rs:150 | a 2^31×2^31 frame of 32-bit samples has 2^64 bytes, so `frame_bytes` overflows and parsing fails with `SizeOverflowPanic` |
| SerFiles.ChunksExact | src/serfile.rs:163-174 | `chunks_exact(n)`: every chunk has n bytes; ChunksExactCount and ChunksExactAt state how many and which bytes |
| SerFiles.ChunksExactCount | src/serfile.rs:173-176 | `chunks_exact(n)` of m·n bytes gives m chunks |
| SerFiles.ChunksExactAt | src/serfile.rs:173-176 | chunk k of `chunks_exact(n)` is bytes k·n .. k·n+n |
| SerFiles.SamplesOfBytes | src/serfile.rs:177-185 | splitting the little-endian byte pairs of a sample sequence gives back the samples |
| SerFiles.Samples16 | src/serfile.rs:180-182 | the `from_raw_parts` view of a chunk as `u16`: |chunk|/2 samples, each the little-endian pair at 2j; SamplesOfBytes and BytesOfSamples state it loses no byte |
| SerFiles.BytesOfSamples | src/serfile.rs:177-185 | reading an even-length chunk as 16-bit samples loses no byte: re-encoding gives the chunk back |
| SerFiles.TickNanosAsWritten | src/serfile.rs:163-171 | as written: the offset of tick val has val/10 whole microseconds |
| SerFiles.TickNanosAsWrittenWithinMicrosecond | src/serfile.rs:163-171 | as written, a tick's offset is within one microsecond of val·100 ns |
| SerFiles.TickNanosDiscrepancy | src/serfile.rs:166 | tick 15 gives 1150 ns as written, where 15 ticks of 100 ns are 1500 ns |
| SerFiles.TickNanos | src/serfile.rs:163-171 | corrected: the offset of tick val has val/10 whole microseconds |
| SerFiles.TickNanosExact | src/serfile.rs:163-171 | corrected: tick val is exactly val·100 ns after the epoch |
| SerFiles.FrameTimes | src/serfile.rs:163-171 | corrected: the frame times decoded from the 8-byte ticks of the trailer; FramesInFile and BodyFrames state time k is the tick at 8k |
| SerFiles.Frames | src/serfile.rs:173-185 | corrected times: one frame per chunk, fc in all, pairing the chunk's samples with its time; BodyFrames states frame k's contents |
| SerFiles.ParseBody | src/serfile.rs:152-185 | corrected times: the body fails with `UnexpectedEof` when the payload or the trailer is short and with `ZeroFrameSizePanic` when a frame has no bytes; otherwise it has fc frames |
| SerFiles.Parse | src/serfile.rs:109-202 | corrected times: a file shorter than the 178-byte header fails with `UnexpectedEof`; on success there is one frame per header frame count |
| SerFiles.ParseSucceeds | src/serfile.rs:126-176 | parsing succeeds exactly when the header decodes, the `usize` frame sizes do not overflow, and the file holds frame_bytes·frame_count payload bytes plus frame_count·8 trailer bytes, with frame_bytes > 0 |
| SerFiles.ParseCompose | src/serfile.rs:109-202 | a parse is the header decode, then the overflow check (`SizeOverflowPanic`), then the body decode, with the first error winning |
| SerFiles.ParseSplits | src/serfile.rs:109-202 | a successful parse's header and frames are what `ParseHeader` and `ParseBody` return on the two parts of the file |
| SerFiles.FramesInFile | src/serfile.rs:149-185 | corrected times: frame k's samples are file bytes 178+k·fb .. 178+k·fb+fb read as u16 pairs; its time is the corrected TickNanos of the u64 at 178+fb·fc+8k |
| SerFiles.BodyFrames | src/serfile.rs:149-185 | corrected times: on a successful body decode, frame k is the u16 samples of its chunk and the corrected time of its tick, both in bounds |
| SerFiles.FrameShape | src/serfile.rs:149-150 | for a one-layer header, a frame holds width·height 16-bit samples for bit depths 9..16 (and half that for 1..8) |
| SerFiles.FileReader.ReadExact | src/serfile.rs:126-127 | `read_exact(k)` returns the next k bytes and advances the cursor, or fails with `UnexpectedEof` when fewer remain |
| SerFiles.ReadBody | src/serfile.rs:153-185 | corrected times: reading payload and trailer through the cursor fails exactly when `ParseBody` does, with the same error; otherwise it yields fresh `Mono16` frames matching `ParseBody`'s frames one by one |
| SerFiles.MakeFrames | src/serfile.rs:173-185 | each chunk becomes a fresh `Mono16` frame with rows = width, cols = height, the header bit depth, column-major order, the chunk's u16 samples and the frame's time |
| SerFiles.Open | src/serfile.rs:109-202 | corrected times: `SERFile::new` fails exactly when `Parse` fails, with the same error; otherwise it keeps the file name and header and has `Parse`'s frames, as fresh `Mono16` buffers |
| FrameStatistics.Accumulate | src/framestats.rs:26-36 | the accumulator loop yields the sum and sum of squares, a min ≤ every sample and a max ≥ every sample, each either a sample or its start value |
| FrameStatistics.Widened | src/framestats.rs:26-38 | the widened sequence has one `into()` i64 value per sample, in order |
| FrameStatistics.Summarize | src/framestats.rs:15-51 | for non-empty samples: count, sum and sum of squares; min and max are samples bounding all others; median = sorted[count/2], a sample, and min ≤ median ≤ max |
| FrameStatistics.New | src/framestats.rs:15-51 | `FrameStats::new` on a non-empty frame gives the same results over the frame's widened samples |
| FrameStatistics.SortedMiddle | src/framestats.rs:37-40 | sorting a copy with `sort_unstable` and taking index count/2 gives the middle of the sorted order |
| FrameStatistics.AccumulatorsFitI64 | src/framestats.rs:26-29 | for up to 2^31 16-bit samples, the sum and sum of squares fit in i64 |
| FrameStatistics.SumSqBound | src/framestats.rs:26-29 | for 16-bit samples, 0 ≤ sum ≤ sum of squares ≤ n·65535² |
| Sorting.SortBy | src/framestats.rs:39 | the in-place sort leaves the array sorted under the comparison and a permutation of its old contents |
| Sorting.SortedSeq | src/framestats.rs:38-40 | the sorted copy is sorted, of the same length, and a permutation of the samples |
| Sorting.SortedUnique | src/framestats.rs:38-40 | two sorted permutations of the same samples are equal, so the median does not depend on how `sort_unstable` orders them |
| Sorting.SortedSeqAt | src/framestats.rs:37-40 | every position of the sorted copy holds a sample, and its ends bound all samples |
| StarFinder.LinPos | src/starfinder.rs:98-99 | `(idx/cols, idx%cols)` is an in-range (row, col) that maps back to idx |
| StarFinder.NeighbourBounds | src/starfinder.rs:108-148 | right (col+1 < cols), below-left (col > 0), below and below-right (col+1 < cols) with a next row exist are all indices below rows·cols |
| StarFinder.Neighbours | src/starfinder.rs:108-148 | every neighbour the pass may visit is ahead of idx and below rows·cols |
| StarFinder.Table | src/starfinder.rs:108-148 | the neighbour table holds, for each pixel, exactly the neighbours the code visits |
| StarFinder.Step | src/starfinder.rs:95-151 | one iteration of the raster loop on the mask and segments; the mask keeps its length and every label stays -1 or names a segment, and StepKeeps states the labelling invariant it keeps |
| StarFinder.Sweep | src/starfinder.rs:95-151 | the raster loop from a pixel to the end; SweepKeeps and SweepExtends state what it keeps |
| StarFinder.Pass | src/starfinder.rs:90-151 | the whole labelling pass from an unlabelled mask; PassLabels and PassUnique state its outcome |
| StarFinder.PixelAccumulators | src/starfinder.rs:65-82 | the pixel loop yields the sum and sum of squares, a min ≤ every pixel and a max ≥ every pixel, each a pixel or its i32 start value |
| StarFinder.StepKeeps | src/starfinder.rs:95-151 | one raster step keeps the labelling invariant: labelled ⇔ above threshold so far, every label listed, every listed pixel labelled with its own segment, first member least, segments in raster order |
| StarFinder.SweepKeeps | src/starfinder.rs:95-151 | the rest of the pass keeps the labelling invariant up to the last pixel |
| StarFinder.SweepExtends | src/starfinder.rs:97-148 | the pass never changes a label once it is assigned, and it only appends to segments and the segment list |
| StarFinder.PassLabels | src/starfinder.rs:95-151 | after the pass: a pixel is labelled iff above `thresh`; each labelled pixel is in its label's segment; each segment's members carry that label, are distinct and non-empty; the creator comes first and precedes all later members; segments are created in raster order |
| StarFinder.PassUnique | src/starfinder.rs:95-151 | a pixel listed in segment s is above threshold and labelled s, so it belongs to no other segment |
| StarFinder.RenderedPositions | src/starfinder.rs:98-148 | segment members are stored as in-range `(idx/cols, idx%cols)` pairs that map back to the pixel |
| StarFinder.RenderLinked | src/starfinder.rs:108-148 | linking pixel j to segment k pushes `(j/cols, j%cols)` onto that segment only |
| StarFinder.RenderCreated | src/starfinder.rs:97-105 | creating a segment appends a new segment holding only the creating pixel |
| StarFinder.Propagate | src/starfinder.rs:108-115 | linking an unlabelled bright neighbour updates the mask and segments as the model's step does |
| StarFinder.PropagateBelow | src/starfinder.rs:118-148 | with a next row, below-left, below and below-right are tried in that order |
| StarFinder.Visit | src/starfinder.rs:95-151 | one iteration of the raster loop is the model's `Step` on mask, segments and segment count |
| StarFinder.Label | src/starfinder.rs:90-151 | the in-place labelling loop ends with the mask and segments of the functional pass |
| StarFinder.Retained | src/starfinder.rs:154 | `retain` keeps only segments with at least `minsize` pixels |
| StarFinder.RetainedMembers | src/starfinder.rs:154 | a segment survives `retain` iff it was present with at least `minsize` pixels |
| StarFinder.RetainedConcat | src/starfinder.rs:154 | `retain` distributes over concatenation, so survivors keep their relative order |
| StarFinder.RetainedAll | src/starfinder.rs:154 | `retain` keeps a list whose segments are all large enough unchanged |
| StarFinder.Mass | src/starfinder.rs:172-179 | the mass is the sum of the segment's pixel values (DeviationsAsWritten, Deviations) |
| StarFinder.CentroidAsWritten | src/starfinder.rs:158-179 | as written: the column is mass-weighted and the row is the plain mean row; CentroidAsWrittenColumn and CentroidRowDiscrepancy compare it with Centroid |
| StarFinder.Centroid | src/starfinder.rs:158-179 | corrected: the mass-weighted centroid, None for no pixels or zero mass; CentroidMoments states it |
| StarFinder.Centre | src/starfinder.rs:164-168 | `crow` and `ccol` are the mean row and mean column of the segment's pixels |
| StarFinder.DeviationsAsWritten | src/starfinder.rs:170-177 | as written: the mass is the sum of member pixel values, sumx is the value-weighted column deviation, and sumy is zero |
| StarFinder.Deviations | src/starfinder.rs:170-177 | corrected: sumy is the value-weighted row deviation from `crow` |
| StarFinder.CentroidMoments | src/starfinder.rs:158-180 | the corrected centroid exists iff the segment is non-empty with non-zero mass, and centroid·mass equals the first moments in column and row |
| StarFinder.CentroidAsWrittenColumn | src/starfinder.rs:175-179 | the written centroid exists exactly when the corrected one does and agrees with it in the column |
| StarFinder.CentroidRowDiscrepancy | src/starfinder.rs:175 | for pixels [1,3] in one column, the written row centroid is 0.5 where the mass-weighted one is 0.75 |
| StarFinder.MeasureAsWritten | src/starfinder.rs:158-180 | as written: a segment's mass is the sum of its pixel values and its centroid is the written one |
| StarFinder.Measure | src/starfinder.rs:158-180 | corrected: the same mass, with the mass-weighted centroid |
| StarFinder.MeasureAll | src/starfinder.rs:158-180 | corrected centroid: every retained segment is measured in place |
| StarFinder.RenderInImage | src/starfinder.rs:154-180 | every retained segment's pixels lie in the image, so measuring them indexes in range |
| StarFinder.ByMassTotal | src/starfinder.rs:182-184 | comparing by mass is a total preorder, as `sort_by` needs |
| StarFinder.SortByMass | src/starfinder.rs:182-184 | the sort is a permutation of its input and non-decreasing in mass |
| StarFinder.StarBright | src/starfinder.rs:95-184 | every star found has at least `minsize` pixels, all in the image and above threshold |
| StarFinder.StarsBright | src/starfinder.rs:95-184 | the same for every member of the result |
| StarFinder.Stars | src/starfinder.rs:90-180 | corrected centroid: the retained, measured segments of the pass in creation order; StarBright and StarsBright state what each holds |
| StarFinder.DefaultMinimumSize | src/starfinder.rs:9-16 | with no options, the default minimum size of 2 applies: every star has at least two pixels, all in the image and above threshold |
| StarFinder.FindStars | src/starfinder.rs:53-189 | corrected centroid: the result is a permutation of the retained, measured segments of the labelling pass, non-decreasing in mass |
| KdTrees.SizeElements | src/kdtree.rs:10-17 | a tree's element multiset has as many elements as the tree has nodes |
| KdTrees.ComputeSortIdx | src/kdtree.rs:44-48 | `compute_sortidx` returns a permutation of 0..len, non-decreasing under `compare_on_dim(dim)`, with equal elements in increasing index order, as the stable `sort_by` leaves them |
| KdTrees.PickPermutation | src/kdtree.rs:62-81 | selecting elements by two permutations of the same indices gives the same multiset |
| KdTrees.PickAll | src/kdtree.rs:62-81 | selecting by a permutation of 0..len gives exactly the input elements |
| KdTrees.PickSides | src/kdtree.rs:62-81 | in a sorted index order, all before the median compare ≤ it and all after compare ≥ it |
| KdTrees.CreateNode | src/kdtree.rs:55-83 | `create_node` gives None exactly on empty input; the tree holds exactly the input multiset, is k-d ordered on `depth % NDIM` at every level, and splits n into n/2 left and n−n/2−1 right |
| KdTrees.Built | src/kdtree.rs:60-82 | a median node over ordered subtrees built from the two halves is itself ordered, complete and median-split |
| KdTrees.CreateFromVector | src/kdtree.rs:50-53 | the root holds exactly the input, is k-d ordered from depth 0 and median-split |
| KdTrees.FoundAsWritten | src/kdtree.rs:93-116 | as written: the elements the recursion pushes, pruning each child on its own coordinate; FoundAsWrittenSound and FoundAsWrittenMisses state what it returns and what it misses |
| KdTrees.Found | src/kdtree.rs:93-116 | corrected: the elements the recursion pushes, pruning on the node's split value; FoundSound, FoundComplete and FoundCounts state what it returns |
| KdTrees.FoundAsWrittenSound | src/kdtree.rs:85-116 | as written, every element the query returns is in the tree and within `range` of the point |
| KdTrees.FoundSound | src/kdtree.rs:85-116 | corrected: every element the query returns is in the tree and within `range` of the point |
| KdTrees.FoundComplete | src/kdtree.rs:93-116 | corrected: on a k-d ordered tree, every element within `range` of the point is returned |
| KdTrees.FoundCounts | src/kdtree.rs:93-116 | corrected: on a k-d ordered tree the query returns each element within range as many times as the tree holds it and nothing else |
| KdTrees.FoundNode | src/kdtree.rs:98-115 | at a node, the corrected query reports the node if near, then visits the left and right sides it cannot prune |
| KdTrees.FoundEmpty | src/kdtree.rs:86-90 | a query on an empty tree returns nothing |
| KdTrees.PointsInRangeRecursive | src/kdtree.rs:93-116 | corrected pruning: the recursion appends exactly the corrected query's results to the accumulator |
| KdTrees.PointsInRange | src/kdtree.rs:85-91 | corrected pruning: `points_in_range` returns the corrected query's results from the root |
| KdTrees.LineValid | src/kdtree.rs:1-7 | points on a line with \|a−b\| distances are a valid, metric `NodeElement` |
| KdTrees.LineTreeElements | src/kdtree.rs:55-83 | the example tree over [0, 3, 4, 10] holds those four points |
| KdTrees.LineTreeOrdered | src/kdtree.rs:55-83 | the example tree is k-d ordered |
| KdTrees.LineTreeSplit | src/kdtree.rs:62-80 | the example tree is median-split |
| KdTrees.LineTreeForced | src/kdtree.rs:50-83 | the example tree is the only median-split k-d tree over [0, 3, 4, 10], so it is the tree `create_from_vector` builds |
| KdTrees.FoundAsWrittenMisses | src/kdtree.rs:106-115 | as written, querying the example tree at 0 with range 1 returns nothing, though 0 is in the tree |
| KdTrees.FoundFinds | src/kdtree.rs:93-116 | the corrected query returns [0] there |
| Utf8.DecodeEncode | src/serfile.rs:130-142 | decoding the UTF-8 encoding of any string gives it back |
| Utf8.Decode | src/serfile.rs:130-142 | `from_utf8`: None on an invalid byte string; DecodeEncode and EncodeDecode state that it inverts the encoder |
| Utf8.EncodeDecode | src/serfile.rs:130-142 | a byte string that decodes re-encodes to the same bytes |
| Utf8.DecodeFirstOfEncoding | src/serfile.rs:130-142 | the first code point of an encoding followed by anything is the encoded character, with its length |
| Utf8.EncodingOfDecodeFirst | src/serfile.rs:130-142 | the bytes consumed by a decoded code point are its encoding |
| Utf8.EncodeAscii | src/serfile.rs:119-132 | ASCII text encodes one byte per character, equal to its code |
| Utf8.TrimStart | src/serfile.rs:195-197 | `trim_start` drops exactly the leading whitespace |
| Utf8.TrimEnd | src/serfile.rs:195-197 | `trim_end` drops exactly the trailing whitespace |
| Utf8.TrimIsInfix | src/serfile.rs:195-197 | `trim` returns the infix of s between leading and trailing whitespace, and that infix neither starts nor ends with whitespace |
| Utf8.Trim | src/serfile.rs:195-197 | `str::trim`: `trim_end` of `trim_start`; TrimStart, TrimEnd and TrimIsInfix state what it drops |
| Utf8.IsWhitespace | src/serfile.rs:195-197 | `char::is_whitespace`, the Unicode White_Space characters that `trim` drops |

## Left out

- File system access: `SERFile::new`'s path check and `File::open` (`src/serfile.rs:114-117`) are not modelled. The file is a byte-sequence parameter, and `Open` keeps the file name only.
- SerFiles.Parse: states the corrected tick-to-time conversion (see Findings), not the written `(val % 100) * 10` nanoseconds.
- SerFiles.Open: returns the corrected frame times (see Findings).
- SerFiles.BodyFrames: states the corrected frame times (see Findings).
- SerFiles.Parse: an overflowing `frame_bytes` or `frame_bytes * frame_count` is the debug-build overflow panic `SizeOverflowPanic`. The release-build wrap-around, which would then read a payload of the wrapped size, is not modelled.
- SerFiles.Open: a file that claims a payload too large to allocate fails with `UnexpectedEof` once the bytes run out. The allocation failure the code would hit first at `src/serfile.rs:153` is not modelled.
- SerFiles.MakeFrames: for bit depths 1..8 a frame holds width·height/2 samples (FrameShape), while its rows·cols is width·height, so such frames are not `Valid`. The code builds them the same way.
- SerFiles.MakeFrames: `from_raw_parts` casts each chunk's start to `*const u16` (`src/serfile.rs:181`). Chunk k starts at byte k·frame_bytes, so when frame_bytes is odd and there are two or more frames chunk 1 is misaligned. An 8-bit 3×3 file with frame_count = 2 is an example. That is undefined behaviour, and a debug build aborts in the precondition check of `from_raw_parts`. The model (`Samples16`) reads every chunk as little-endian pairs instead.
- CameraFrames.CameraFrameMono.At: models the debug-build overflow panic of the usize product `rows*cols`; the release-build wrap-around, which would compare i with the wrapped product, is not modelled.
- CameraFrames.CameraFrameMono.AtChecked: models the same overflow panic as At, and not the release-build wrap-around.
- CameraFrames.CameraFrameMono.Zeros: requires rows·cols < 2^64, because `vec![zero; rows*cols]` (`src/cameraframe.rs:212`) panics on the overflow in a debug build and builds a buffer of the wrapped, shorter size in a release build; neither is modelled.
- SerFiles.MakeFrames: the `from_raw_parts` reinterpretation of frame bytes as `u16` depends on host byte order. The model reads them as little-endian pairs, and the header's `endian` flag is decoded but, as in the code, not used.
- The floating-point threshold `mean + threshold·std` in `find_stars` (`src/starfinder.rs:85-87`) is left out. `thresh` is an integer parameter of the model, so the float statistics computed only for it are not modelled either.
- FrameStatistics.New: the `mean` and `std_dev` fields (floating point, `src/framestats.rs:41-42`) are not modelled. `FrameStats` keeps count, min, max, sum, sum of squares and median.
- FrameStatistics.New: sum and sum of squares are unbounded integers. The code's i64 accumulators overflow, a panic in debug builds, beyond what AccumulatorsFitI64 covers; a single sample of 2^32, for example, makes the sum of squares 2^64.
- FrameStatistics.New: requires a non-empty frame, because the code indexes `values[count/2]` and panics on an empty frame.
- StarFinder.Measure: centroids are exact reals rather than `f64`, so rounding is not modelled. A segment with zero mass, which gives NaN in the code, has centroid `None`.
- StarFinder.SortByMass: stability of `sort_by` is not stated, only sortedness and permutation. The `partial_cmp(...).unwrap()` panic on NaN masses cannot arise with integer masses.
- StarFinder.FindStars: requires `pix.len() == rows*cols`. With a shorter slice the code panics only when a bright pixel's neighbour lies past the end; rows = cols = 2 with pix = [0, 0, 0], for example, gives no stars. A longer slice is labelled without a panic unless a bright pixel's right neighbour lies past the end, because the test at `src/starfinder.rs:108` checks only the column. For example rows = 1, cols = 3, pix = [0, 0, 0, 0, 9] with threshold 0.0 panics at pixel 4. Pixels at or past row rows−1 link only to the right, because of the guard at `src/starfinder.rs:118`.
- StarFinder.FindStars: states the corrected centroid row (see Findings), not the written `crow - crow`.
- StarFinder.MeasureAll: measures with the corrected centroid row (see Findings).
- StarFinder.PixelAccumulators: sum and sum of squares are unbounded integers. The code's i64 `sumsq += v64 * v64` (`src/starfinder.rs:75`) overflows, a panic in debug builds, for three pixels of i32::MAX, for example; `find_stars` then panics where the model goes on.
- StarFinder.Stars: measures with the corrected centroid row (see Findings), not the written `crow - crow`.
- SerFiles.FrameTimes: uses the corrected tick conversion (see Findings), not the written `(val % 100) * 10` nanoseconds.
- SerFiles.Frames: pairs each chunk with the corrected frame time (see Findings).
- SerFiles.ParseBody: its frames carry the corrected frame times (see Findings).
- SerFiles.FramesInFile: states the corrected frame time of each tick (see Findings).
- SerFiles.ReadBody: yields the corrected frame times, as ParseBody does (see Findings).
- CameraFrames.CameraFrameMono.AtRC: models the debug-build overflow panic of the offset; the release-build wrap-around, which would report or read the wrapped offset, is not modelled.
- CameraFrames.CameraFrameMono.IndexAgreesWithAt: requires at most 2^64 samples in the buffer, which every Rust `Vec` meets.
- StarFinder.Label: `segment_count` is an unbounded counter, so i32 overflow of the labels is not modelled.
- The `rand` constructors in `src/cameraframe.rs`, all `Display` impls, and `SystemTime::now` in `zeros` are left out. The time is a parameter of `Zeros` instead.
- `src/healpix.rs` (floating-point geometry), `src/pybindings`, `src/framewriter.rs` (PNG output) and `src/lib.rs` are not part of this model.
- KdTrees: `NodeElement` is abstract, and its concrete `[f64; D]` instance (`src/kdtree.rs:119-137`) is not modelled. Distances are reals. NDIM = 0, which would divide by zero in `depth % NDIM`, is excluded by `Valid` and `e.ndim > 0`.
- KdTrees.PointsInRange: states the corrected pruning (see Findings), not the written child-coordinate test.
- KdTrees.PointsInRangeRecursive: states the corrected pruning (see Findings).
- KdTrees.CreateNode: which of several equal elements becomes the median is fixed by ComputeSortIdx's stable order, but CreateNode's contract does not name that element; it states the multiset, the k-d order and the split sizes.
- KdTrees.PointsInRange: the result is a sequence of element values, not the `Vec<&N>` of references into the tree.
- `chrono` date types: a frame time is an integer count of nanoseconds since 0001-01-01T00:00:00.
- `as_mut_slice` (`src/cameraframe.rs:157-159`) is covered only through the single-element writes `SetIndex` and `SetIndexRC`.

## Findings

| source | as written | input that shows it | evidently intended | confidence | as-written member | corrected member |
|---|---|---|---|---|---|---|
| src/cameraframe.rs:99 | the guard of `at(i)` is `i > rows*cols` | i = rows·cols on a well-formed frame passes the guard and indexes past the end (panic) | `i >= rows*cols`, returning `IndexOutOfBounds` | not executed | CameraFrames.CameraFrameMono.At (with AtOnePastEnd) | CameraFrames.CameraFrameMono.AtChecked |
| src/serfile.rs:166 | the sub-microsecond part of a 100 ns tick is `(val % 100) * 10` ns | val = 15 gives 1 µs + 150 ns = 1150 ns | `(val % 10) * 100` ns, i.e. val·100 ns in total (1500 ns) | not executed | SerFiles.TickNanosAsWritten (with TickNanosDiscrepancy) | SerFiles.TickNanos (with TickNanosExact) |
| src/starfinder.rs:175 | `sumy` accumulates `(crow - crow) * v`, which is always 0 | pixels [1, 3] in one column, segment [(0,0), (1,0)]: row centroid 0.5 | `(row - crow) * v`, giving the mass-weighted row 0.75 | not executed | StarFinder.MeasureAsWritten (with CentroidRowDiscrepancy) | StarFinder.Measure (with CentroidMoments) |
| src/kdtree.rs:106-115 | pruning compares the query point with the left/right child's coordinate instead of the node's split value | tree over [0, 3, 4, 10] on a line, query point 0, range 1: returns nothing though 0 is in the tree | prune on the node's own split coordinate, so every in-range element is returned | not executed | KdTrees.FoundAsWritten (with FoundAsWrittenMisses) | KdTrees.Found (with FoundComplete, FoundFinds) |
