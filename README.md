# AIS trajectory preprocessing, modelled in Dafny

This project models the core of a preprocessing toolchain for AIS (Automatic
Identification System) vessel reports. It proves properties of that model.
The toolchain turns the raw per-vessel report tracks into fixed-interval
trajectory segments. It has three pieces of logic:

- **Koyak outlier detection** (`trackOutlier`, module `Koyak`). Given a
  symmetric 0/1 matrix of pairwise anomalies, it repeatedly flags the
  observation with the largest remaining row sum. It then takes that
  observation's contribution out of the other unflagged row sums, until
  every row sum is zero. The model is a method over the caller's `array2`,
  with the working vectors `b` and `o` as arrays updated in place. It is
  proved equal to a recursive reference definition, `Greedy`, and the
  lemmas about `Greedy` give what the algorithm promises.
- **Bracketing interpolation** (`interpolate_`, module `Interpolation`). It
  estimates a vessel's state at time `t` from the last report at or before
  `t` and the first report after it. It refuses when there is no bracket,
  when the bracket is wider than two hours, or when the geodesic solver
  fails. It blends speed, course, heading and rate of turn linearly, and
  takes the navigational status from the nearer report. The model is a
  pure function.
- **The segmentation pipeline** (module `Segmentation`). Four stages run in
  order:
  1. cut every track at each gap longer than two hours;
  2. drop voyages with fewer than 20 reports or lasting under four hours;
  3. resample each voyage every 300 s, keeping a voyage only when every
     sample succeeds;
  4. cut each sampled track into chunks of 144 samples and keep the full
     chunks.

  Each stage is a loop in dataset_process.py and a method here. Each method is
  proved equal to a recursive specification function, and the lemmas
  about those functions state the properties of each stage.

  The pipeline is not idempotent. Run again on its own output, it gives
  nothing back, not the same segments (`RerunDropsSegment`). A segment's
  144 samples span 42 900 s. They pass stages 1 and 2 whole. But
  `range(first, last, 300)` leaves out the last timestamp
  (dataset_process.py:42), so stage 3 makes only 143 samples, and stage 4
  drops that piece as short.

The loop methods are proved equal to these specification functions:

- stage 1: `Segmentation.Voyages` for one track (dataset_process.py:12-23)
  and `Segmentation.SplitAll` for all tracks (lines 10-23);
- stage 2: `Segmentation.Keep`, the test of line 30 that `Segmentation.LongVoyages` applies;
- stage 3: `Segmentation.Resample` for one voyage (lines 41-51) and
  `Segmentation.ResampleAll` for all voyages (lines 39-51);
- stage 4: `Segmentation.Resplit` for one sampled track (lines 62-68) and
  `Segmentation.ResplitAll` for all of them (lines 59-68);
- the whole pipeline: `Segmentation.Segments`.

The status rule of `interpolate_` is `Interpolation.NearerStatus`
(data_utils.py:110-113). The lemmas in the table state the properties of
these functions.

Module `Ais` holds the report record (`Observation`, with named fields in
place of matrix columns) and `Track`. Module `Wrappers` holds `Option`.

Timestamps are integers, so bracketing, gating, the status rule, range
lengths and chunking are exact. The blended fields are `real`. The
geodesic solver is a parameter (`Geodesic`) holding two caller-supplied
operations, inverse and forward, each of which may fail (`None`). No claim
is made about the positions it returns.

## Model

| member | source | states |
|---|---|---|
| Koyak.TrackOutlier | data_utils.py:56-69 | A matrix that is not symmetric gives `NotSymmetric`. A symmetric matrix with an entry other than 0 or 1 gives `NotBinary`. Both checks come before any work. For a valid n x n matrix with n > 0, the result has n flags and equals the reference `Greedy` run from no flags. No two unflagged observations are anomalous with respect to each other, and only observations taking part in some anomaly are flagged. The caller's matrix is not modified. |
| Koyak.RowTotals | data_utils.py:60 | `b` is the vector of row sums with nothing flagged, and every entry lies between 0 and n. |
| Koyak.Eliminate | data_utils.py:62-68 | The while loop keeps `b` equal to the sums over unflagged columns, with 0 for flagged rows and every entry in 0..n. It ends in the flag state `Greedy` reaches from the initial one, with every row sum zero. It runs at most n rounds and flags one new observation per round. |
| Koyak.Discount | data_utils.py:64-68 | After row r is flagged and `b[r]` zeroed, the inner loop subtracts `A[r, j]` from every unflagged j. This turns `b` into exactly the loads of the new flag state. |
| Koyak.FirstMax | data_utils.py:63 | np.argmax returns an index holding the maximum, and no earlier index holds it. |
| Koyak.ChosenUnflagged | data_utils.py:62-65 | While some row sum is positive, the index argmax picks has not been flagged before. |
| Koyak.Greedy | data_utils.py:62-68 | The reference loop keeps the flag vector's length at n and never clears a flag. It terminates because each round flags a new observation. |
| Koyak.LoadAfterFlag | data_utils.py:64-68 | Flagging r leaves row j's load at 0 if j is flagged, and otherwise lowers it by exactly `A[r, j]`. |
| Koyak.LoadsBounds | data_utils.py:60-68 | For any flag state, every working row sum of a 0/1 matrix lies between 0 and n. |
| Koyak.GreedyAnomalyFree | data_utils.py:62-68 | On exit, `A[j, k] = 0` for every pair of unflagged j and k. |
| Koyak.GreedyFlagsInvolved | data_utils.py:62-68 | Every flagged observation is anomalous with respect to at least one observation. |
| Koyak.AllZeroNoOutliers | data_utils.py:59-62 | For an all-zero matrix the loop never runs and every flag is false. |
| Koyak.StarFlagsCenter | data_utils.py:29-35 | With at least three observations, a star matrix (one observation anomalous against all others, and those only against it) flags exactly its centre. |
| Koyak.StarOfTwoFlagsFirst | data_utils.py:63 | The two-observation star flags observation 0 whichever observation is its centre: the argmax tie goes to the lower index. |
| Interpolation.LastAtOrBefore | data_utils.py:87-92 | `bpos` is the last index whose timestamp is at most t. It is absent exactly when every report is later than t. |
| Interpolation.FirstAfter | data_utils.py:88-91 | `apos` is the first index whose timestamp exceeds t. It is absent exactly when no report is later than t. |
| Interpolation.Bracket | data_utils.py:87-92 | When both exist, the pair satisfies `ts[bpos] <= t < ts[apos]`. |
| Interpolation.BracketExists | data_utils.py:87-90 | A bracket exists exactly when some report is at or before t and some report is after t. |
| Interpolation.SortedBracket | data_utils.py:87-92 | On a sorted track, a bracket exists exactly when `ts[0] <= t < ts[last]`, and then `apos = bpos + 1`. |
| Interpolation.OutsideTrackRange | data_utils.py:120-121 | On a sorted track, a time before the first report, or at or after the last one, gives None. So does an empty track. |
| Interpolation.WideBracketRejected | data_utils.py:94-96 | Bracketing reports more than 7200 s apart give None, even when t lies strictly between them. |
| Interpolation.InterpolateSucceeds | data_utils.py:98-115 | Once bracketed, the call succeeds exactly when three conditions hold: the bracket is at most 7200 s wide, the inverse step succeeds, and the forward step succeeds when asked for the fraction `dt_interp / dt_full` of the inverse distance. Any geodesic failure gives None. |
| Interpolation.Interpolate | data_utils.py:116-119 | A result is stamped exactly t, carries the MMSI of the track's first report, and exists only when t is bracketed. |
| Interpolation.InterpolatedFields | data_utils.py:106-113 | Speed, course, heading and rate of turn each lie between the two bracketing reports' values. The status is the earlier report's when `2 * dt_interp <= dt_full`, and the later report's otherwise. |
| Interpolation.AtReportTime | data_utils.py:106-113 | At `t = ts[bpos]` the four blended fields and the status equal the earlier report's. |
| Interpolation.Blend | data_utils.py:106-109 | `b + (a - b) * f` equals b at f = 0. For 0 <= f <= 1 it lies between a and b, in either order. |
| Interpolation.Part | data_utils.py:103 | `d * f` is 0 at f = 0, and for 0 <= f <= 1 it lies between 0 and d, for d of either sign. |
| Interpolation.Fraction | data_utils.py:94-103 | `dt_interp / dt_full` lies in [0, 1), and is 0 when t is the earlier report's time. |
| Segmentation.SplitAt | dataset_process.py:20 | np.split makes one more piece than split points. Piece k is the slice from split point k - 1 (or 0) to split point k (or the end). |
| Segmentation.FlattenSplitAt | dataset_process.py:20 | Concatenating the pieces gives back the split sequence. |
| Segmentation.Cuts | dataset_process.py:14-15 | The split points are increasing and lie strictly inside the track. An index is a split point exactly when the gap before it exceeds 7200 s. |
| Segmentation.VoyagesPartition | dataset_process.py:12-23 | Concatenating one track's voyages gives back the track. A track has no voyage exactly when it is empty. |
| Segmentation.VoyagesContiguous | dataset_process.py:14-20 | Every voyage is non-empty, and inside it successive reports are at most 7200 s apart. |
| Segmentation.VoyagesSeparated | dataset_process.py:14-20 | From the last report of a voyage to the first report of the next one, the gap exceeds 7200 s. |
| Segmentation.SplitAllPartition | dataset_process.py:10-23 | Over all tracks, the voyages concatenate to the tracks concatenated: nothing is lost or reordered. |
| Segmentation.SplitAllContiguous | dataset_process.py:10-23 | Every voyage of stage 1 is non-empty and contiguous. |
| Segmentation.SplitVoyages | dataset_process.py:10-23 | The loop over tracks, appending a whole track that has no gap and otherwise each of its pieces, yields exactly the stage 1 voyages. |
| Segmentation.AppendPieces | dataset_process.py:21-23 | The loop over one track's pieces appends them all, in order. |
| Segmentation.LongVoyages | dataset_process.py:28-31 | Every survivor has at least 20 reports and lasts at least 14400 s. A voyage survives exactly when it was present and passes both tests, and survivors are unchanged. |
| Segmentation.LongVoyagesKeepsAll | dataset_process.py:28-31 | When every voyage passes both tests, none is removed and the order is kept. |
| Segmentation.DropShort | dataset_process.py:28-31 | The loop that removes each voyage failing either test yields exactly `LongVoyages`. |
| Segmentation.RangeLengthBound | dataset_process.py:42 | `first + 300 * i` is below the last timestamp exactly when `i < ceil((last - first) / 300)`. This is the length of `range(first, last, 300)`, with the last timestamp excluded. |
| Segmentation.SampleAll | dataset_process.py:42-48 | Sampling succeeds exactly when every sample time interpolates. Element i is then the interpolation at the i-th time. |
| Segmentation.ResampleShape | dataset_process.py:38-45 | A resampled voyage has `ceil((last - first) / 300)` samples. Sample i is the interpolation at `first + 300 * i`, carries that timestamp, and has the voyage's MMSI. |
| Segmentation.ResampleRegular | dataset_process.py:42-45 | Successive samples are exactly 300 s apart and belong to one vessel. |
| Segmentation.ResampleFails | dataset_process.py:43-48 | If the interpolation at any sample time fails, the voyage yields no sampled track at all. |
| Segmentation.SampleTimesBracketed | dataset_process.py:42-45 | On a sorted, contiguous voyage every sample time is bracketed by two neighbouring reports at most 7200 s apart, whatever the geodesic solver. |
| Segmentation.ResampleSucceeds | dataset_process.py:42-51 | A sorted, contiguous voyage resamples whole when the geodesic solver never fails, each sample time bracketed as `SampleTimesBracketed` states. |
| Segmentation.SampleVoyage | dataset_process.py:41-48 | The loop that stops at the first failed interpolation yields exactly the all-or-nothing `Resample`. |
| Segmentation.ResampleAllRegular | dataset_process.py:39-51 | Every sampled track kept by stage 3 is regular. |
| Segmentation.ResampleVoyages | dataset_process.py:39-51 | The loop over voyages keeps exactly the ones that sample whole, in order. |
| Segmentation.SegmentStarts | dataset_process.py:62 | `np.arange(0, len, 144)[1:]` contains the multiples `144 * (k + 1)` strictly below len, increasing, and there are `ceil(len / 144) - 1` of them. |
| Segmentation.FullSegments | dataset_process.py:64-68 | Every kept piece has at least 144 samples, and no more pieces come out than went in. |
| Segmentation.FullSegmentsKeeps | dataset_process.py:64-68 | A piece is kept exactly when it has at least 144 samples. |
| Segmentation.SegmentPieces | dataset_process.py:62-63 | Every piece but the last is a whole chunk of 144 samples. The last piece holds the remaining 1 to 144 samples. |
| Segmentation.ResplitChunks | dataset_process.py:55-68 | Re-splitting keeps exactly `floor(len / 144)` chunks. Chunk k is samples `144 * k` up to `144 * (k + 1)`, so each has exactly 144 samples. Together they are the prefix of the sampled track of length `144 * floor(len / 144)`. |
| Segmentation.ResplitShape | dataset_process.py:62-68 | Every chunk of a regular sampled track is a regular run of exactly 144 samples. |
| Segmentation.ResplitAllShape | dataset_process.py:59-68 | The same holds over all sampled tracks. |
| Segmentation.KeepFull | dataset_process.py:64-68 | The loop over one track's pieces appends exactly the full ones, in order. |
| Segmentation.ResplitTracks | dataset_process.py:59-68 | The loop over sampled tracks yields exactly the stage 4 output. |
| Segmentation.SegmentsShape | dataset_process.py:10-68 | Every output segment of the whole pipeline is exactly 144 samples of one vessel, 300 s apart: 144 five-minute slots. Its first and last samples are 42 900 s apart. |
| Segmentation.RegularStamp | dataset_process.py:42-45 | In a regular sampled track, sample i lies `300 * i` s after the first. |
| Segmentation.NoGapNoCuts | dataset_process.py:14-18 | A track with no gap above 7200 s has no split points, so stage 1 keeps it whole. |
| Segmentation.RerunKeepsSegment | dataset_process.py:10-31 | A pipeline segment fed back in passes stages 1 and 2 unchanged: it has no gap above 7200 s, has 144 reports and lasts 42 900 s. |
| Segmentation.RerunResamplesShort | dataset_process.py:39-68 | Stage 3 makes at most 143 samples of such a segment, as `range` leaves out its last timestamp, and stage 4 then yields nothing. |
| Segmentation.RerunDropsSegment | dataset_process.py:10-68 | The whole pipeline rerun on one of its own segments gives no segments. It is not idempotent. |
| Segmentation.Process | dataset_process.py:10-68 | Running the four stage loops in order yields exactly `Segments`. |

## Left out

- The WGS84 geodesy of `pyproj.Geod` (data_utils.py:7-8, 99-105) is not computed. `Interpolate` receives it as a `Geodesic` value with two operations that may fail, and nothing is claimed about the positions they return. The bare `except:` of `interpolate_` catches any failure there; this is modelled as either operation returning None.
- Floating-point arithmetic: the blended fields and the fraction are `real`, and timestamps are `int`. The `int()` casts of timestamps in stage 3 are the identity on integer timestamps.
- The column-index mismatch is not modelled; a report is a record with named fields. `interpolate_` indexes columns with `HEADING`, `ROT` and `NAV_STT`, which are never defined. Inside the `try` that raises `NameError`, which the bare `except:` catches, so as written `interpolate_` returns None for every bracketed t. Its 9-element result rows also meet an 8-column buffer in stage 3. The model follows the evidently intended column layout.
- The imports, the unused constants (`AVG_EARTH_RADIUS`, `SPEED_MAX`, `FIG_DPI`), the progress messages, the progress bars and the final count print are left out. The input dictionary `traj_data` is a parameter: the sequence of tracks in key order.
- The dictionaries `voyages`, `Vs` and `Data`, keyed by an incrementing counter, are modelled as sequences built by appending. Removing a voyage with `pop` is modelled as not keeping it.
- The code pasted inside the `trackOutlier` docstring (data_utils.py:43-54) does not run and is not modelled.
- The stage 2 message says "smaller than 50", while the code tests 20; the model follows the code. The stage 4 comments speak of a day and of four hours, while the code keeps pieces of 144 samples (144 five-minute slots); the model follows the code.
- Koyak.TrackOutlier: an n x n matrix with n = 0 gives `EmptyMatrix`, because `np.max` of an empty vector raises. The model refuses every non-square matrix with `NotSymmetric`, as the documented input is n x n (data_utils.py:39). The model does not capture how trackOutlier treats a 1 x m or m x 1 matrix whose entries are all equal. There numpy broadcasting makes the comparison with the transpose succeed. When the entries are all 0, or all 1 in a 1 x m matrix, trackOutlier returns `A.shape[0]` flags. An m x 1 all-one matrix raises IndexError. When the shared entry is neither 0 nor 1, the binary assertion fails, where the model reports `NotSymmetric`.
- Koyak.FirstMax: ties go to the lowest index, as with np.argmax. StarOfTwoFlagsFirst shows that the tie-break decides which observation of a two-observation star is flagged, so a star flags its centre for every choice of centre only from three observations on.
- Segmentation.DropShort requires non-empty voyages. Stage 2 reads the first and last report of each voyage, which fails on an empty one, and stage 1 never produces one (SplitAllContiguous).
- Segmentation.ResampleAll and Segmentation.ResampleVoyages likewise require non-empty voyages, because a voyage's sample times run from its first report to its last.
