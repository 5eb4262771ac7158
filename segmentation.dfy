/**
 * The dataset-building pipeline: tracks are cut into contiguous voyages,
 * short voyages are dropped, each voyage is resampled every Resolution
 * seconds by interpolation, and the sampled tracks are re-split into
 * segments of exactly SegmentLength samples.
 */
module Segmentation {
  import opened Wrappers
  import opened Ais
  import opened Interpolation

  /** Successive reports further apart than this (seconds) belong to different voyages. */
  const MaxVoyageGap: int := 2 * 3600
  /** Fewest reports a voyage may have. */
  const MinReports: nat := 20
  /** Shortest duration (seconds) a voyage may have. */
  const MinDuration: int := 4 * 3600
  /** Sampling period (seconds). */
  const Resolution: nat := 300
  /** Samples per output segment: twelve hours at twelve samples an hour. */
  const SegmentLength: nat := 144

  /** Concatenation of a list of tracks. */
  function Flatten(vs: seq<Track>): Track
  {
    if |vs| == 0 then [] else Flatten(vs[..|vs| - 1]) + vs[|vs| - 1]
  }

  // ---------------------------------------------------------------------
  // np.split(v, idx) for strictly increasing split points

  /** Split points strictly increasing and at most n. */
  ghost predicate Increasing(idx: seq<nat>, n: nat)
  {
    (forall k :: 0 <= k < |idx| ==> idx[k] <= n) &&
    (forall j, k :: 0 <= j < k < |idx| ==> idx[j] < idx[k])
  }

  /** First index of the k-th piece. */
  function PieceStart(idx: seq<nat>, k: nat): nat
    requires k <= |idx|
  {
    if k == 0 then 0 else idx[k - 1]
  }

  /** One past the last index of the k-th piece. */
  function PieceEnd(idx: seq<nat>, n: nat, k: nat): nat
    requires k <= |idx|
  {
    if k == |idx| then n else idx[k]
  }

  /**
   * np.split(v, idx): the pieces between consecutive split points, one
   * more piece than split points.
   */
  function SplitAt(v: Track, idx: seq<nat>): (pieces: seq<Track>)
    requires Increasing(idx, |v|)
    ensures |pieces| == |idx| + 1
    ensures forall k :: 0 <= k < |pieces| ==>
      PieceStart(idx, k) <= PieceEnd(idx, |v|, k) <= |v| &&
      pieces[k] == v[PieceStart(idx, k)..PieceEnd(idx, |v|, k)]
    decreases |idx|
  {
    if |idx| == 0 then [v]
    else
      var c := idx[|idx| - 1];
      var front := idx[..|idx| - 1];
      var prev := SplitAt(v[..c], front);
      SnocPiece(v, idx, prev);
      prev + [v[c..]]
  }

  /** The pieces of v[..c] at the earlier split points, followed by v[c..], are the pieces of v. */
  lemma SnocPiece(v: Track, idx: seq<nat>, prev: seq<Track>)
    requires Increasing(idx, |v|) && |idx| > 0
    requires var c, front := idx[|idx| - 1], idx[..|idx| - 1];
      |prev| == |front| + 1 &&
      forall k :: 0 <= k < |prev| ==>
        PieceStart(front, k) <= PieceEnd(front, c, k) <= c &&
        prev[k] == v[..c][PieceStart(front, k)..PieceEnd(front, c, k)]
    ensures var pieces := prev + [v[idx[|idx| - 1]..]];
      forall k :: 0 <= k < |pieces| ==>
        PieceStart(idx, k) <= PieceEnd(idx, |v|, k) <= |v| &&
        pieces[k] == v[PieceStart(idx, k)..PieceEnd(idx, |v|, k)]
  {
    var c, front := idx[|idx| - 1], idx[..|idx| - 1];
    var pieces := prev + [v[c..]];
    forall k | 0 <= k < |pieces|
      ensures PieceStart(idx, k) <= PieceEnd(idx, |v|, k) <= |v|
      ensures pieces[k] == v[PieceStart(idx, k)..PieceEnd(idx, |v|, k)]
    {
      if k < |prev| {
        var lo, hi := PieceStart(front, k), PieceEnd(front, c, k);
        assert lo == PieceStart(idx, k) && hi == PieceEnd(idx, |v|, k);
        assert pieces[k] == prev[k] == v[..c][lo..hi];
        assert v[..c][lo..hi] == v[lo..hi];
      } else {
        assert PieceStart(idx, k) == c && PieceEnd(idx, |v|, k) == |v|;
      }
    }
  }

  /** Splitting loses and reorders nothing. */
  lemma {:induction false} FlattenSplitAt(v: Track, idx: seq<nat>)
    requires Increasing(idx, |v|)
    ensures Flatten(SplitAt(v, idx)) == v
    decreases |idx|
  {
    if |idx| == 0 {
      assert Flatten([v]) == Flatten([]) + v;
    } else {
      var c := idx[|idx| - 1];
      var front := idx[..|idx| - 1];
      var pieces := SplitAt(v, idx);
      assert pieces[..|pieces| - 1] == SplitAt(v[..c], front);
      FlattenSplitAt(v[..c], front);
      assert v[..c] + v[c..] == v;
    }
  }

  // ---------------------------------------------------------------------
  // Stage 1: cutting tracks into contiguous voyages

  /** The gap between report i - 1 and report i exceeds MaxVoyageGap. */
  predicate GapBefore(track: Track, i: nat)
    requires 0 < i < |track|
  {
    track[i].timestamp - track[i - 1].timestamp > MaxVoyageGap
  }

  /** The split points of a track: every i whose preceding gap exceeds MaxVoyageGap. */
  function Cuts(track: Track): (idx: seq<nat>)
    ensures Increasing(idx, |track|)
    ensures forall k :: 0 <= k < |idx| ==> 0 < idx[k] < |track| && GapBefore(track, idx[k])
    ensures forall i :: 0 < i < |track| && GapBefore(track, i) ==> i in idx
  {
    if |track| <= 1 then []
    else
      var n := |track| - 1;
      var prefix := track[..n];
      assert forall i :: 0 < i < n ==> GapBefore(prefix, i) == GapBefore(track, i);
      var prev := Cuts(prefix);
      if GapBefore(track, n) then IncreasingSnoc(prev, n); prev + [n] else prev
  }

  /** A track with no gap above MaxVoyageGap is not cut at all. */
  lemma {:induction false} NoGapNoCuts(track: Track)
    requires forall i :: 0 < i < |track| ==> !GapBefore(track, i)
    ensures Cuts(track) == []
  {
    if |track| > 1 {
      var prefix := track[..|track| - 1];
      assert forall i :: 0 < i < |prefix| ==> GapBefore(prefix, i) == GapBefore(track, i);
      NoGapNoCuts(prefix);
    }
  }

  /** An increasing sequence below n stays increasing when n is appended. */
  lemma IncreasingSnoc(idx: seq<nat>, n: nat)
    requires Increasing(idx, n) && forall k :: 0 <= k < |idx| ==> idx[k] < n
    ensures Increasing(idx + [n], n)
  {
    var r := idx + [n];
    assert forall k :: 0 <= k < |idx| ==> r[k] == idx[k];
  }

  /** The voyages of one track; an empty track has none. */
  function Voyages(track: Track): seq<Track>
  {
    if |track| == 0 then [] else SplitAt(track, Cuts(track))
  }

  /** No gap inside the track exceeds MaxVoyageGap. */
  ghost predicate Contiguous(v: Track)
  {
    forall i :: 0 < i < |v| ==> v[i].timestamp - v[i - 1].timestamp <= MaxVoyageGap
  }

  /** Concatenating the voyages gives back the track; there are none exactly for the empty track. */
  lemma VoyagesPartition(track: Track)
    ensures Flatten(Voyages(track)) == track
    ensures |Voyages(track)| == 0 <==> |track| == 0
  {
    if |track| > 0 {
      FlattenSplitAt(track, Cuts(track));
    }
  }

  /** Every voyage is non-empty and contiguous. */
  lemma VoyagesContiguous(track: Track)
    ensures forall k :: 0 <= k < |Voyages(track)| ==>
      |Voyages(track)[k]| > 0 && Contiguous(Voyages(track)[k])
  {
    if |track| > 0 {
      forall k | 0 <= k < |Voyages(track)|
        ensures |Voyages(track)[k]| > 0 && Contiguous(Voyages(track)[k])
      {
        VoyageContiguous(track, k);
      }
    }
  }

  /** The k-th voyage is non-empty and holds no split point strictly inside it. */
  lemma {:induction false} VoyageContiguous(track: Track, k: nat)
    requires |track| > 0 && k <= |Cuts(track)|
    ensures |SplitAt(track, Cuts(track))[k]| > 0 && Contiguous(SplitAt(track, Cuts(track))[k])
  {
    var idx := Cuts(track);
    var lo, hi := PieceStart(idx, k), PieceEnd(idx, |track|, k);
    assert SplitAt(track, idx)[k] == track[lo..hi];
    PieceNonEmpty(idx, |track|, k);
    forall p | lo < p < hi
      ensures !GapBefore(track, p)
    {
      NoSplitInside(idx, |track|, k, p);
    }
    SliceContiguous(track, lo, hi);
  }

  /** With split points strictly between 0 and n, every piece is non-empty. */
  lemma PieceNonEmpty(idx: seq<nat>, n: nat, k: nat)
    requires Increasing(idx, n) && k <= |idx| && n > 0
    requires forall j :: 0 <= j < |idx| ==> 0 < idx[j] < n
    ensures PieceStart(idx, k) < PieceEnd(idx, n, k)
  {
    if 0 < k < |idx| {
      assert idx[k - 1] < idx[k];
    }
  }

  /** No split point lies strictly inside a piece. */
  lemma NoSplitInside(idx: seq<nat>, n: nat, k: nat, p: nat)
    requires Increasing(idx, n) && k <= |idx|
    requires PieceStart(idx, k) < p < PieceEnd(idx, n, k)
    ensures p !in idx
  {
    forall j | 0 <= j < |idx|
      ensures idx[j] != p
    {
      if j < k {
        assert j == k - 1 || idx[j] < idx[k - 1];
      } else {
        assert j == k || idx[k] < idx[j];
      }
    }
  }

  /** A stretch of a track with no large gap inside it is contiguous. */
  lemma SliceContiguous(track: Track, lo: nat, hi: nat)
    requires lo <= hi <= |track|
    requires forall p :: lo < p < hi ==> !GapBefore(track, p)
    ensures Contiguous(track[lo..hi])
  {
    var piece := track[lo..hi];
    forall i | 0 < i < |piece|
      ensures piece[i].timestamp - piece[i - 1].timestamp <= MaxVoyageGap
    {
      assert piece[i] == track[lo + i] && piece[i - 1] == track[lo + i - 1];
      assert !GapBefore(track, lo + i);
    }
  }

  /** From the last report of voyage a to the first one of voyage b the gap exceeds MaxVoyageGap. */
  ghost predicate Separated(a: Track, b: Track)
  {
    |a| > 0 && |b| > 0 && b[0].timestamp - a[|a| - 1].timestamp > MaxVoyageGap
  }

  /** Between two successive voyages the gap exceeds MaxVoyageGap. */
  lemma VoyagesSeparated(track: Track)
    ensures forall j, k :: 0 <= j && k == j + 1 && k < |Voyages(track)| ==>
      Separated(Voyages(track)[j], Voyages(track)[k])
  {
    if |track| > 0 {
      var vs: seq<Track> := Voyages(track);
      forall j, k | 0 <= j && k == j + 1 && k < |vs|
        ensures Separated(vs[j], vs[k])
      {
        VoyageBoundary(track, j);
      }
    }
  }

  /** Voyage j ends just before cut j and voyage j + 1 starts at it. */
  lemma VoyageBoundary(track: Track, j: nat)
    requires |track| > 0 && j + 1 < |Voyages(track)|
    ensures Separated(Voyages(track)[j], Voyages(track)[j + 1])
  {
    var idx := Cuts(track);
    assert Voyages(track) == SplitAt(track, idx);
    PieceNonEmpty(idx, |track|, j);
    PieceNonEmpty(idx, |track|, j + 1);
    SplitBoundary(track, idx, j);
  }

  /**
   * Around split point j, piece j ends just before it and piece j + 1 starts
   * at it, so a gap there separates the two pieces.
   */
  lemma SplitBoundary(v: Track, idx: seq<nat>, j: nat)
    requires Increasing(idx, |v|) && j < |idx|
    requires PieceStart(idx, j) < idx[j] < PieceEnd(idx, |v|, j + 1) && GapBefore(v, idx[j])
    ensures Separated(SplitAt(v, idx)[j], SplitAt(v, idx)[j + 1])
  {
    var c, lo, hi := idx[j], PieceStart(idx, j), PieceEnd(idx, |v|, j + 1);
    var pieces := SplitAt(v, idx);
    assert PieceEnd(idx, |v|, j) == c && PieceStart(idx, j + 1) == c;
    var a, b := pieces[j], pieces[j + 1];
    assert a == v[lo..c] && b == v[c..hi];
    assert |a| == c - lo && a[c - lo - 1] == v[c - 1];
    assert b[0] == v[c];
  }

  /** Stage 1 over all tracks, in order. */
  function SplitAll(tracks: seq<Track>): seq<Track>
  {
    if |tracks| == 0 then []
    else SplitAll(tracks[..|tracks| - 1]) + Voyages(tracks[|tracks| - 1])
  }

  /** Every voyage of stage 1 is non-empty and contiguous. */
  lemma {:induction false} SplitAllContiguous(tracks: seq<Track>)
    ensures forall k :: 0 <= k < |SplitAll(tracks)| ==>
      |SplitAll(tracks)[k]| > 0 && Contiguous(SplitAll(tracks)[k])
  {
    if |tracks| > 0 {
      SplitAllContiguous(tracks[..|tracks| - 1]);
      VoyagesContiguous(tracks[|tracks| - 1]);
    }
  }

  /** Concatenating all voyages gives back all tracks, concatenated. */
  lemma {:induction false} SplitAllPartition(tracks: seq<Track>)
    ensures Flatten(SplitAll(tracks)) == Flatten(tracks)
  {
    if |tracks| > 0 {
      var front, last := tracks[..|tracks| - 1], tracks[|tracks| - 1];
      SplitAllPartition(front);
      VoyagesPartition(last);
      FlattenAppend(SplitAll(front), Voyages(last));
    }
  }

  lemma {:induction false} FlattenAppend(xs: seq<Track>, ys: seq<Track>)
    ensures Flatten(xs + ys) == Flatten(xs) + Flatten(ys)
    decreases |ys|
  {
    if |ys| == 0 {
      assert xs + ys == xs;
    } else {
      var front, y := ys[..|ys| - 1], ys[|ys| - 1];
      var zs := xs + ys;
      assert zs[..|zs| - 1] == xs + front && zs[|zs| - 1] == y;
      assert Flatten(zs) == Flatten(xs + front) + y;
      FlattenAppend(xs, front);
      assert Flatten(ys) == Flatten(front) + y;
      assert (Flatten(xs) + Flatten(front)) + y == Flatten(xs) + (Flatten(front) + y);
    }
  }

  /** Stage 1 as dataset_process.py runs it: a loop over the tracks appending each voyage. */
  method SplitVoyages(tracks: seq<Track>) returns (voyages: seq<Track>)
    ensures voyages == SplitAll(tracks)
  {
    voyages := [];
    for i := 0 to |tracks|
      invariant voyages == SplitAll(tracks[..i])
    {
      var v := tracks[i];
      assert tracks[..i + 1][..i] == tracks[..i];
      if |v| > 0 {
        var idx := Cuts(v);
        if |idx| == 0 {
          voyages := voyages + [v];
        } else {
          voyages := AppendPieces(voyages, SplitAt(v, idx));
        }
      }
    }
    assert tracks[..|tracks|] == tracks;
  }

  /** The loop over one track's pieces, appending each. */
  method AppendPieces(voyages: seq<Track>, pieces: seq<Track>) returns (r: seq<Track>)
    ensures r == voyages + pieces
  {
    r := voyages;
    for j := 0 to |pieces|
      invariant r == voyages + pieces[..j]
    {
      assert pieces[..j + 1] == pieces[..j] + [pieces[j]];
      r := r + [pieces[j]];
    }
    assert pieces[..|pieces|] == pieces;
  }

  // ---------------------------------------------------------------------
  // Stage 2: dropping short voyages

  /** A voyage is kept when it has at least MinReports reports and lasts at least MinDuration. */
  predicate Keep(v: Track)
  {
    |v| >= MinReports && v[|v| - 1].timestamp - v[0].timestamp >= MinDuration
  }

  /** The voyages that pass Keep, in their original order. */
  function LongVoyages(vs: seq<Track>): (r: seq<Track>)
    ensures |r| <= |vs|
    ensures forall k :: 0 <= k < |r| ==> Keep(r[k])
    ensures forall v :: v in r <==> v in vs && Keep(v)
  {
    if |vs| == 0 then []
    else
      var v := vs[|vs| - 1];
      var front := vs[..|vs| - 1];
      assert vs == front + [v];
      LongVoyages(front) + (if Keep(v) then [v] else [])
  }

  /** Voyages that all pass Keep are left as they are. */
  lemma {:induction false} LongVoyagesKeepsAll(vs: seq<Track>)
    requires forall k :: 0 <= k < |vs| ==> Keep(vs[k])
    ensures LongVoyages(vs) == vs
  {
    if |vs| > 0 {
      LongVoyagesKeepsAll(vs[..|vs| - 1]);
    }
  }

  /**
   * Stage 2 as dataset_process.py runs it: every voyage in turn is tested and
   * the ones failing either test are removed. Its duration is read from
   * the voyage's first and last reports, so a voyage must not be empty.
   */
  method DropShort(voyages: seq<Track>) returns (kept: seq<Track>)
    requires forall k :: 0 <= k < |voyages| ==> |voyages[k]| > 0
    ensures kept == LongVoyages(voyages)
  {
    kept := [];
    for i := 0 to |voyages|
      invariant kept == LongVoyages(voyages[..i])
    {
      var v := voyages[i];
      assert voyages[..i + 1][..i] == voyages[..i];
      var duration := v[|v| - 1].timestamp - v[0].timestamp;
      if !(|v| < MinReports || duration < MinDuration) {
        kept := kept + [v];
      }
    }
    assert voyages[..|voyages|] == voyages;
  }

  // ---------------------------------------------------------------------
  // Stage 3: resampling every Resolution seconds

  /** len(range(start, stop, step)) for a positive step. */
  function RangeLength(start: int, stop: int, step: nat): nat
    requires step > 0
  {
    if stop <= start then 0 else (stop - start + step - 1) / step
  }

  /** The k-th element start + step * k lies below stop exactly when k < len(range(start, stop, step)). */
  lemma RangeLengthBound(start: int, stop: int, step: nat, k: nat)
    requires step > 0
    ensures start + step * k < stop <==> k < RangeLength(start, stop, step)
  {
    if start < stop {
      var d := stop - start;
      var q := (d + step - 1) / step;
      DivBounds(d + step - 1, step);
      if k < q {
        MulMonotone(step, k, q - 1);
      } else {
        MulMonotone(step, q, k);
      }
    } else {
      MulMonotone(step, 0, k);
    }
  }

  lemma DivBounds(x: int, step: nat)
    requires step > 0
    ensures step * (x / step) <= x < step * (x / step) + step
  {
  }

  lemma MulMonotone(step: nat, a: int, b: int)
    requires a <= b
    ensures step * a <= step * b
  {
    assert step * b - step * a == step * (b - a);
  }

  /** range(start, stop, step) for a positive step. */
  function Range(start: int, stop: int, step: nat): (r: seq<int>)
    requires step > 0
    ensures |r| == RangeLength(start, stop, step)
  {
    seq(RangeLength(start, stop, step), k => start + step * k)
  }

  /** Successive elements of a range are step apart. */
  lemma RangeStep(start: int, stop: int, step: nat, i: nat)
    requires step > 0 && 0 < i < RangeLength(start, stop, step)
    ensures Range(start, stop, step)[i] == Range(start, stop, step)[i - 1] + step
  {
    MulSucc(step, i - 1);
  }

  lemma MulSucc(step: nat, i: nat)
    ensures step * (i + 1) == step * i + step
  {
  }

  /** The sample times of a voyage: from its first report's time, every Resolution seconds, before its last report's time. */
  function SampleTimes(v: Track): seq<int>
    requires |v| > 0
  {
    Range(v[0].timestamp, v[|v| - 1].timestamp, Resolution)
  }

  /** The samples at the given times, in order, or None as soon as one of them fails. */
  function SampleAll(sample: int -> Option<Observation>, times: seq<int>): (r: Option<Track>)
    ensures r.Some? <==> forall i :: 0 <= i < |times| ==> sample(times[i]).Some?
    ensures r.Some? ==> |r.value| == |times|
    ensures r.Some? ==> forall i :: 0 <= i < |times| ==> sample(times[i]) == Some(r.value[i])
  {
    if |times| == 0 then Some([])
    else
      var front := times[..|times| - 1];
      assert forall i :: 0 <= i < |front| ==> front[i] == times[i];
      match SampleAll(sample, front)
      case None => None
      case Some(s) =>
        match sample(times[|times| - 1])
        case None => None
        case Some(o) => Some(s + [o])
  }

  /** Interpolation on voyage v, as a function of the time. */
  function Sampler(g: Geodesic, v: Track): int -> Option<Observation>
  {
    t => Interpolate(g, t, v)
  }

  /** The voyage resampled, or None when any of its samples fails. */
  function Resample(g: Geodesic, v: Track): Option<Track>
    requires |v| > 0
  {
    SampleAll(Sampler(g, v), SampleTimes(v))
  }

  /** A sampled track runs in steps of exactly Resolution seconds and holds one vessel's reports. */
  ghost predicate Regular(s: Track)
  {
    forall i :: 0 < i < |s| ==>
      s[i].timestamp == s[i - 1].timestamp + Resolution && s[i].mmsi == s[i - 1].mmsi
  }

  /**
   * A resampled voyage has one sample per element of range(first, last,
   * Resolution): sample i is the interpolation at first + Resolution * i,
   * so it carries that stamp and the voyage's vessel.
   */
  lemma ResampleShape(g: Geodesic, v: Track)
    requires |v| > 0 && Resample(g, v).Some?
    ensures
      var s, first, last := Resample(g, v).value, v[0].timestamp, v[|v| - 1].timestamp;
      |s| == RangeLength(first, last, Resolution) &&
      forall i :: 0 <= i < |s| ==>
        Interpolate(g, first + Resolution * i, v) == Some(s[i]) &&
        s[i].timestamp == first + Resolution * i && s[i].mmsi == v[0].mmsi
  {
    var s, times, first := Resample(g, v).value, SampleTimes(v), v[0].timestamp;
    forall i | 0 <= i < |s|
      ensures Interpolate(g, first + Resolution * i, v) == Some(s[i])
      ensures s[i].timestamp == first + Resolution * i && s[i].mmsi == v[0].mmsi
    {
      var t := times[i];
      assert t == first + Resolution * i;
      assert Sampler(g, v)(t) == Some(s[i]);
      assert Interpolate(g, t, v) == Some(s[i]);
    }
  }

  /** A resampled voyage is regular. */
  lemma ResampleRegular(g: Geodesic, v: Track)
    requires |v| > 0 && Resample(g, v).Some?
    ensures Regular(Resample(g, v).value)
  {
    ResampleShape(g, v);
    var s := Resample(g, v).value;
    forall i | 0 < i < |s|
      ensures s[i].timestamp == s[i - 1].timestamp + Resolution
    {
      MulSucc(Resolution, i - 1);
    }
  }

  /** A voyage whose sampling fails at any one time yields no sampled track at all. */
  lemma ResampleFails(g: Geodesic, v: Track, i: nat)
    requires |v| > 0 && i < RangeLength(v[0].timestamp, v[|v| - 1].timestamp, Resolution)
    requires Interpolate(g, v[0].timestamp + Resolution * i, v).None?
    ensures Resample(g, v).None?
  {
    var times := SampleTimes(v);
    assert times[i] == v[0].timestamp + Resolution * i;
    assert Sampler(g, v)(times[i]).None?;
  }

  /**
   * On a sorted contiguous voyage every sample time is bracketed by two
   * neighbouring reports at most MaxBracketGap apart, whatever the
   * geodesic solver.
   */
  lemma SampleTimesBracketed(v: Track)
    requires |v| > 0 && Sorted(v) && Contiguous(v)
    ensures forall i :: 0 <= i < |SampleTimes(v)| ==> BracketedWithin(v, SampleTimes(v)[i])
  {
    var times := SampleTimes(v);
    forall i | 0 <= i < |times|
      ensures BracketedWithin(v, times[i])
    {
      var t := times[i];
      RangeLengthBound(v[0].timestamp, v[|v| - 1].timestamp, Resolution, i);
      assert v[0].timestamp <= t < v[|v| - 1].timestamp;
      SortedBracket(v, t);
      var (bpos, apos) := Bracket(v, t).value;
      assert v[apos].timestamp - v[apos - 1].timestamp <= MaxVoyageGap;
    }
  }

  /**
   * So with a geodesic solver that never fails a sorted contiguous voyage
   * resamples whole.
   */
  lemma ResampleSucceeds(g: Geodesic, v: Track)
    requires |v| > 0 && Sorted(v) && Contiguous(v)
    requires forall a, b, c, d :: g.inverse(a, b, c, d).Some? && g.forward(a, b, c, d).Some?
    ensures forall i :: 0 <= i < |SampleTimes(v)| ==> BracketedWithin(v, SampleTimes(v)[i])
    ensures Resample(g, v).Some?
  {
    SampleTimesBracketed(v);
    var times := SampleTimes(v);
    forall i | 0 <= i < |times|
      ensures Sampler(g, v)(times[i]).Some?
    {
      assert BracketedWithin(v, times[i]);
      InterpolateSucceeds(g, times[i], v);
    }
  }

  /** t is bracketed by two neighbouring reports at most MaxBracketGap apart. */
  ghost predicate BracketedWithin(v: Track, t: int)
  {
    Bracket(v, t).Some? &&
    var (bpos, apos) := Bracket(v, t).value;
    apos == bpos + 1 && v[apos].timestamp - v[bpos].timestamp <= MaxBracketGap
  }

  /** Sampling one more time extends a successful sampling by that sample. */
  lemma SampleAllStep(sample: int -> Option<Observation>, times: seq<int>, i: nat)
    requires i < |times| && SampleAll(sample, times[..i]).Some? && sample(times[i]).Some?
    ensures SampleAll(sample, times[..i + 1]) ==
      Some(SampleAll(sample, times[..i]).value + [sample(times[i]).value])
  {
    assert times[..i + 1][..i] == times[..i];
  }

  /** Stage 3 for one voyage as dataset_process.py runs it: a loop over the sample times that stops at the first failure. */
  method SampleVoyage(g: Geodesic, v: Track) returns (sampling: Option<Track>)
    requires |v| > 0
    ensures sampling == Resample(g, v)
  {
    var first, last := v[0].timestamp, v[|v| - 1].timestamp;
    ghost var times := SampleTimes(v);
    var acc: Track := [];
    sampling := Some(acc);
    var t := first;
    ghost var i: nat := 0;
    RangeLengthBound(first, last, Resolution, 0);
    while t < last
      invariant t == first + Resolution * i && i <= |times|
      invariant SampleAll(Sampler(g, v), times[..i]) == Some(acc) && sampling == Some(acc)
      decreases last - t
    {
      RangeLengthBound(first, last, Resolution, i);
      assert times[i] == t;
      var tmp := Interpolate(g, t, v);
      assert Sampler(g, v)(times[i]) == tmp;
      if tmp.None? {
        sampling := None;
        break;
      }
      SampleAllStep(Sampler(g, v), times, i);
      acc := acc + [tmp.value];
      sampling := Some(acc);
      MulSucc(Resolution, i);
      t := t + Resolution;
      i := i + 1;
    }
    if sampling.Some? {
      RangeLengthBound(first, last, Resolution, i);
      assert times[..i] == times;
    }
  }

  /** Stage 3 over all voyages: the ones that resample, in order. */
  function ResampleAll(g: Geodesic, vs: seq<Track>): seq<Track>
    requires forall k :: 0 <= k < |vs| ==> |vs[k]| > 0
  {
    if |vs| == 0 then []
    else
      var front := vs[..|vs| - 1];
      ResampleAll(g, front) +
        (match Resample(g, vs[|vs| - 1]) case None => [] case Some(s) => [s])
  }

  /** Every sampled track of stage 3 is regular. */
  lemma {:induction false} ResampleAllRegular(g: Geodesic, vs: seq<Track>)
    requires forall k :: 0 <= k < |vs| ==> |vs[k]| > 0
    ensures forall k :: 0 <= k < |ResampleAll(g, vs)| ==> Regular(ResampleAll(g, vs)[k])
  {
    if |vs| > 0 {
      var v := vs[|vs| - 1];
      ResampleAllRegular(g, vs[..|vs| - 1]);
      if Resample(g, v).Some? {
        ResampleRegular(g, v);
      }
    }
  }

  /** Stage 3 as dataset_process.py runs it: each voyage that samples whole is appended. */
  method ResampleVoyages(g: Geodesic, voyages: seq<Track>) returns (sampled: seq<Track>)
    requires forall k :: 0 <= k < |voyages| ==> |voyages[k]| > 0
    ensures sampled == ResampleAll(g, voyages)
  {
    sampled := [];
    for i := 0 to |voyages|
      invariant sampled == ResampleAll(g, voyages[..i])
    {
      assert voyages[..i + 1][..i] == voyages[..i];
      var s := SampleVoyage(g, voyages[i]);
      if s.Some? {
        sampled := sampled + [s.value];
      }
    }
    assert voyages[..|voyages|] == voyages;
  }

  // ---------------------------------------------------------------------
  // Stage 4: re-splitting into segments of SegmentLength samples

  /** np.arange(0, n, SegmentLength)[1:]: the multiples of SegmentLength strictly between 0 and n. */
  function SegmentStarts(n: nat): (idx: seq<nat>)
    ensures Increasing(idx, n)
    ensures |idx| == (if n == 0 then 0 else RangeLength(0, n, SegmentLength) - 1)
    ensures forall k :: 0 <= k < |idx| ==> idx[k] == SegmentLength * (k + 1)
  {
    var m := RangeLength(0, n, SegmentLength);
    var idx: seq<nat> := if m == 0 then [] else seq(m - 1, k => SegmentLength * (k + 1));
    assert Increasing(idx, n) by {
      forall k | 0 <= k < |idx|
        ensures idx[k] <= n
      {
        RangeLengthBound(0, n, SegmentLength, k + 1);
      }
      forall j, k | 0 <= j < k < |idx|
        ensures idx[j] < idx[k]
      {
        MulMonotone(SegmentLength, j + 1, k);
        MulSucc(SegmentLength, k);
      }
    }
    idx
  }

  /** The pieces of at least SegmentLength samples, in order. */
  function FullSegments(pieces: seq<Track>): (r: seq<Track>)
    ensures |r| <= |pieces|
    ensures forall k :: 0 <= k < |r| ==> |r[k]| >= SegmentLength
  {
    if |pieces| == 0 then []
    else
      var p := pieces[|pieces| - 1];
      FullSegments(pieces[..|pieces| - 1]) + (if |p| >= SegmentLength then [p] else [])
  }

  /** A piece is kept exactly when it has at least SegmentLength samples. */
  lemma {:induction false} FullSegmentsKeeps(pieces: seq<Track>)
    ensures forall p :: p in FullSegments(pieces) <==> p in pieces && |p| >= SegmentLength
  {
    if |pieces| > 0 {
      var p := pieces[|pieces| - 1];
      var front := pieces[..|pieces| - 1];
      assert pieces == front + [p];
      FullSegmentsKeeps(front);
    }
  }

  /** The full-length segments of one sampled track. */
  function Resplit(v: Track): seq<Track>
  {
    FullSegments(SplitAt(v, SegmentStarts(|v|)))
  }

  /** When the full pieces are exactly the first q, those are what is kept. */
  lemma {:induction false} FullSegmentsPrefix(pieces: seq<Track>, q: nat)
    requires q <= |pieces|
    requires forall k :: 0 <= k < q ==> |pieces[k]| >= SegmentLength
    requires forall k :: q <= k < |pieces| ==> |pieces[k]| < SegmentLength
    ensures FullSegments(pieces) == pieces[..q]
  {
    if |pieces| > 0 {
      var front := pieces[..|pieces| - 1];
      if q == |pieces| {
        FullSegmentsPrefix(front, q - 1);
        assert front[..q - 1] + [pieces[q - 1]] == pieces[..q];
      } else {
        FullSegmentsPrefix(front, q);
        assert front[..q] == pieces[..q];
      }
    }
  }

  lemma DivUnique(n: nat, step: nat, q: nat)
    requires step > 0 && step * q <= n < step * q + step
    ensures n / step == q
  {
    DivBounds(n, step);
    var d := n / step;
    if d < q {
      MulMonotone(step, d + 1, q);
      MulSucc(step, d);
    } else if d > q {
      MulMonotone(step, q + 1, d);
      MulSucc(step, q);
    }
  }

  /**
   * The pieces np.split makes of a non-empty track at SegmentStarts: all
   * but the last are whole segments, and the last holds the remaining
   * one to SegmentLength samples.
   */
  lemma SegmentPieces(v: Track)
    requires |v| > 0
    ensures
      var pieces, m := SplitAt(v, SegmentStarts(|v|)), RangeLength(0, |v|, SegmentLength);
      var lo := SegmentLength * (m - 1);
      |pieces| == m > 0 && lo < |v| <= lo + SegmentLength &&
      pieces[m - 1] == v[lo..] && ChunksOf(v, pieces[..m - 1])
  {
    var n := |v|;
    var idx := SegmentStarts(n);
    var pieces := SplitAt(v, idx);
    var m := RangeLength(0, n, SegmentLength);
    RangeLengthBound(0, n, SegmentLength, m - 1);
    RangeLengthBound(0, n, SegmentLength, m);
    MulSucc(SegmentLength, m - 1);
    forall k | 0 <= k < m - 1
      ensures SegmentLength * k + SegmentLength <= n
      ensures pieces[k] == v[SegmentLength * k..SegmentLength * k + SegmentLength]
    {
      MulSucc(SegmentLength, k);
      MulMonotone(SegmentLength, k + 1, m - 1);
      assert PieceStart(idx, k) == SegmentLength * k by {
        if k > 0 {
          MulSucc(SegmentLength, k - 1);
        }
      }
    }
    assert PieceStart(idx, m - 1) == SegmentLength * (m - 1) by {
      if m > 1 {
        MulSucc(SegmentLength, m - 2);
      }
    }
    var front := pieces[..m - 1];
    forall k | 0 <= k < |front|
      ensures SegmentLength * k + SegmentLength <= n
      ensures front[k] == v[SegmentLength * k..SegmentLength * k + SegmentLength]
    {
      assert front[k] == pieces[k];
    }
  }

  /** Element k of the chunks is samples SegmentLength * k up to SegmentLength * (k + 1) of v. */
  ghost predicate ChunksOf(v: Track, r: seq<Track>)
  {
    forall k :: 0 <= k < |r| ==>
      SegmentLength * k + SegmentLength <= |v| &&
      r[k] == v[SegmentLength * k..SegmentLength * k + SegmentLength]
  }

  /** Chunks followed by a last whole segment that ends the track are chunks. */
  lemma ChunksOfSnoc(v: Track, r: seq<Track>)
    requires |r| > 0 && ChunksOf(v, r[..|r| - 1])
    requires var lo := SegmentLength * (|r| - 1);
      lo + SegmentLength == |v| && r[|r| - 1] == v[lo..]
    ensures ChunksOf(v, r)
  {
    var q := |r| - 1;
    forall k | 0 <= k < |r|
      ensures SegmentLength * k + SegmentLength <= |v|
      ensures r[k] == v[SegmentLength * k..SegmentLength * k + SegmentLength]
    {
      if k < q {
        assert r[k] == r[..q][k];
      }
    }
  }

  /** Of the pieces of a non-empty track, re-splitting keeps the first len / SegmentLength. */
  lemma {:induction false} ResplitPrefix(v: Track)
    requires |v| > 0
    ensures
      var pieces, q := SplitAt(v, SegmentStarts(|v|)), |v| / SegmentLength;
      q <= |pieces| && Resplit(v) == pieces[..q] && ChunksOf(v, pieces[..q])
  {
    var pieces := SplitAt(v, SegmentStarts(|v|));
    var m := RangeLength(0, |v|, SegmentLength);
    SegmentPieces(v);
    MulSucc(SegmentLength, m - 1);
    assert |v| <= SegmentLength * m;
    if |v| == SegmentLength * m {
      ResplitWhole(v);
      assert pieces[..|pieces|] == pieces;
    } else {
      ResplitShort(v);
    }
  }

  /** When the last piece is whole, every piece is kept. */
  lemma {:induction false} ResplitWhole(v: Track)
    requires |v| > 0
    requires |v| == SegmentLength * RangeLength(0, |v|, SegmentLength)
    ensures
      var pieces := SplitAt(v, SegmentStarts(|v|));
      |v| / SegmentLength == |pieces| && Resplit(v) == pieces && ChunksOf(v, pieces)
  {
    var n := |v|;
    var pieces := SplitAt(v, SegmentStarts(n));
    var m := RangeLength(0, n, SegmentLength);
    WholePieces(v);
    forall k | 0 <= k < m
      ensures |pieces[k]| >= SegmentLength
    {
    }
    FullSegmentsPrefix(pieces, m);
    assert pieces[..m] == pieces;
    DivUnique(n, SegmentLength, m);
  }

  /** When the last piece is whole, every piece is a whole segment. */
  lemma {:induction false} WholePieces(v: Track)
    requires |v| > 0
    requires |v| == SegmentLength * RangeLength(0, |v|, SegmentLength)
    ensures
      var pieces := SplitAt(v, SegmentStarts(|v|));
      |pieces| == RangeLength(0, |v|, SegmentLength) && ChunksOf(v, pieces)
  {
    var m := RangeLength(0, |v|, SegmentLength);
    SegmentPieces(v);
    MulSucc(SegmentLength, m - 1);
    ChunksOfSnoc(v, SplitAt(v, SegmentStarts(|v|)));
  }

  /** When the last piece is short, it alone is dropped. */
  lemma {:induction false} ResplitShort(v: Track)
    requires |v| > 0
    requires |v| < SegmentLength * RangeLength(0, |v|, SegmentLength)
    ensures
      var pieces := SplitAt(v, SegmentStarts(|v|));
      |v| / SegmentLength == |pieces| - 1 && Resplit(v) == pieces[..|pieces| - 1] &&
      ChunksOf(v, pieces[..|pieces| - 1])
  {
    var n := |v|;
    var pieces := SplitAt(v, SegmentStarts(n));
    SegmentPieces(v);
    var m := RangeLength(0, n, SegmentLength);
    MulSucc(SegmentLength, m - 1);
    assert ChunksOf(v, pieces[..m - 1]);
    DivUnique(n, SegmentLength, m - 1);
    FullSegmentsPrefix(pieces, m - 1);
  }

  /** Chunks taken in order from the front of v flatten to the prefix they cover. */
  lemma {:induction false} FlattenChunks(v: Track, r: seq<Track>)
    requires ChunksOf(v, r)
    ensures SegmentLength * |r| <= |v| && Flatten(r) == v[..SegmentLength * |r|]
  {
    if |r| == 0 {
      assert SegmentLength * 0 == 0;
    } else {
      var q := |r| - 1;
      assert ChunksOf(v, r[..q]);
      FlattenChunks(v, r[..q]);
      MulSucc(SegmentLength, q);
      assert v[..SegmentLength * q] + v[SegmentLength * q..SegmentLength * q + SegmentLength]
        == v[..SegmentLength * |r|];
    }
  }

  /**
   * Re-splitting keeps exactly len / SegmentLength segments: the k-th is
   * samples SegmentLength * k up to SegmentLength * (k + 1), so together
   * they are the track's longest prefix of whole segments, and the
   * shorter remainder is dropped.
   */
  lemma ResplitChunks(v: Track)
    ensures |Resplit(v)| == |v| / SegmentLength
    ensures ChunksOf(v, Resplit(v))
    ensures SegmentLength * |Resplit(v)| <= |v| &&
      Flatten(Resplit(v)) == v[..SegmentLength * |Resplit(v)|]
  {
    if |v| == 0 {
      var pieces := SplitAt(v, SegmentStarts(0));
      assert pieces == [[]];
      assert FullSegments(pieces) == FullSegments([]) + [];
    } else {
      ResplitPrefix(v);
    }
    FlattenChunks(v, Resplit(v));
  }

  /** Stage 4 over all sampled tracks, in order. */
  function ResplitAll(vs: seq<Track>): seq<Track>
  {
    if |vs| == 0 then [] else ResplitAll(vs[..|vs| - 1]) + Resplit(vs[|vs| - 1])
  }

  /** The loop over one track's pieces, appending the full ones. */
  method KeepFull(pieces: seq<Track>) returns (full: seq<Track>)
    ensures full == FullSegments(pieces)
  {
    full := [];
    for j := 0 to |pieces|
      invariant full == FullSegments(pieces[..j])
    {
      assert pieces[..j + 1][..j] == pieces[..j];
      if |pieces[j]| >= SegmentLength {
        full := full + [pieces[j]];
      }
    }
    assert pieces[..|pieces|] == pieces;
  }

  /** Stage 4 as dataset_process.py runs it: every piece of every track is tested and the full ones appended. */
  method ResplitTracks(vs: seq<Track>) returns (data: seq<Track>)
    ensures data == ResplitAll(vs)
  {
    data := [];
    for i := 0 to |vs|
      invariant data == ResplitAll(vs[..i])
    {
      var v := vs[i];
      assert vs[..i + 1][..i] == vs[..i];
      var idx := SegmentStarts(|v|);
      var pieces := SplitAt(v, idx);
      var full := KeepFull(pieces);
      data := data + full;
    }
    assert vs[..|vs|] == vs;
  }

  /** A stretch of a regular track is regular. */
  lemma RegularSlice(v: Track, lo: nat, hi: nat)
    requires Regular(v) && lo <= hi <= |v|
    ensures Regular(v[lo..hi])
  {
    forall i | 0 < i < hi - lo
      ensures v[lo..hi][i].timestamp == v[lo..hi][i - 1].timestamp + Resolution
      ensures v[lo..hi][i].mmsi == v[lo..hi][i - 1].mmsi
    {
      assert v[lo..hi][i] == v[lo + i] && v[lo..hi][i - 1] == v[lo + i - 1];
    }
  }

  /** Every segment of a regular track is a regular run of exactly SegmentLength samples. */
  lemma ResplitShape(v: Track)
    requires Regular(v)
    ensures forall k :: 0 <= k < |Resplit(v)| ==>
      |Resplit(v)[k]| == SegmentLength && Regular(Resplit(v)[k])
  {
    ResplitChunks(v);
    var r := Resplit(v);
    forall k | 0 <= k < |r|
      ensures |r[k]| == SegmentLength && Regular(r[k])
    {
      var lo := SegmentLength * k;
      assert lo + SegmentLength <= |v| && r[k] == v[lo..lo + SegmentLength];
      RegularSlice(v, lo, lo + SegmentLength);
    }
  }

  /** Re-splitting regular tracks gives regular segments of exactly SegmentLength samples. */
  lemma {:induction false} ResplitAllShape(vs: seq<Track>)
    requires forall k :: 0 <= k < |vs| ==> Regular(vs[k])
    ensures forall k :: 0 <= k < |ResplitAll(vs)| ==>
      |ResplitAll(vs)[k]| == SegmentLength && Regular(ResplitAll(vs)[k])
  {
    if |vs| > 0 {
      ResplitAllShape(vs[..|vs| - 1]);
      ResplitShape(vs[|vs| - 1]);
    }
  }

  // ---------------------------------------------------------------------
  // The whole pipeline

  /** The segments the four stages produce from the vessels' tracks. */
  function Segments(g: Geodesic, tracks: seq<Track>): seq<Track>
  {
    SplitAllContiguous(tracks);
    ResplitAll(ResampleAll(g, LongVoyages(SplitAll(tracks))))
  }

  /**
   * Every output segment fills twelve hours of five-minute slots:
   * SegmentLength samples of one vessel, Resolution seconds apart.
   */
  lemma SegmentsShape(g: Geodesic, tracks: seq<Track>)
    ensures forall k :: 0 <= k < |Segments(g, tracks)| ==>
      |Segments(g, tracks)[k]| == SegmentLength && Regular(Segments(g, tracks)[k])
    ensures forall k :: 0 <= k < |Segments(g, tracks)| ==>
      Segments(g, tracks)[k][SegmentLength - 1].timestamp - Segments(g, tracks)[k][0].timestamp ==
        Resolution * (SegmentLength - 1)
  {
    var kept := LongVoyages(SplitAll(tracks));
    ResampleAllRegular(g, kept);
    ResplitAllShape(ResampleAll(g, kept));
    forall k | 0 <= k < |Segments(g, tracks)|
      ensures Segments(g, tracks)[k][SegmentLength - 1].timestamp - Segments(g, tracks)[k][0].timestamp ==
        Resolution * (SegmentLength - 1)
    {
      RegularStamp(Segments(g, tracks)[k], SegmentLength - 1);
    }
  }

  /** In a regular track sample i lies Resolution * i seconds after the first. */
  lemma {:induction false} RegularStamp(s: Track, i: nat)
    requires Regular(s) && i < |s|
    ensures s[i].timestamp == s[0].timestamp + Resolution * i
  {
    if i > 0 {
      RegularStamp(s, i - 1);
      MulSucc(Resolution, i - 1);
    }
  }

  /**
   * A rerun on the pipeline's own output gives nothing back. A segment
   * passes stages 1 and 2 whole, but range() stops before its last
   * sample's time, so stage 3 makes only SegmentLength - 1 samples of it
   * and stage 4 drops them.
   */
  lemma RerunDropsSegment(g: Geodesic, s: Track)
    requires |s| == SegmentLength && Regular(s)
    ensures Segments(g, [s]) == []
  {
    RerunKeepsSegment(s);
    RerunResamplesShort(g, s);
  }

  /** Stages 1 and 2 leave a segment whole. */
  lemma RerunKeepsSegment(s: Track)
    requires |s| == SegmentLength && Regular(s)
    ensures LongVoyages(SplitAll([s])) == [s]
  {
    forall i | 0 < i < |s|
      ensures !GapBefore(s, i)
    {
    }
    NoGapNoCuts(s);
    assert SplitAll([s]) == [s] by {
      assert [s][..0] == [];
    }
    RegularStamp(s, SegmentLength - 1);
    LongVoyagesKeepsAll([s]);
  }

  /** Stage 3 samples a segment one short, and stage 4 drops what it made. */
  lemma RerunResamplesShort(g: Geodesic, s: Track)
    requires |s| == SegmentLength && Regular(s)
    ensures ResplitAll(ResampleAll(g, [s])) == []
  {
    assert ResampleAll(g, [s]) == ResampleAll(g, []) +
      (match Resample(g, s) case None => [] case Some(t) => [t]) by {
      assert [s][..0] == [];
    }
    if Resample(g, s).Some? {
      var t := Resample(g, s).value;
      RegularStamp(s, SegmentLength - 1);
      assert |t| == |SampleTimes(s)| == SegmentLength - 1;
      ResplitChunks(t);
      assert ResplitAll([t]) == ResplitAll([]) + Resplit(t) by {
        assert [t][..0] == [];
      }
    }
  }


  /** The four stages run in order. */
  method Process(g: Geodesic, tracks: seq<Track>) returns (data: seq<Track>)
    ensures data == Segments(g, tracks)
  {
    var voyages := SplitVoyages(tracks);
    SplitAllContiguous(tracks);
    voyages := DropShort(voyages);
    var sampled := ResampleVoyages(g, voyages);
    data := ResplitTracks(sampled);
  }
}
