/**
 * Estimating a vessel's state at a timestamp t from the two reports that
 * bracket it (interpolate_). The position is carried along the geodesic
 * between the two reports; speed, course, heading and rate of turn are
 * blended linearly; the navigational status is taken from the report
 * nearer in time.
 */
module Interpolation {
  import opened Wrappers
  import opened Ais

  /** Two bracketing reports further apart than this (seconds) are not interpolated. */
  const MaxBracketGap: int := 2 * 3600

  /** Result of the geodesic inverse problem: azimuth, back azimuth and distance. */
  datatype InverseSolution = InverseSolution(azimuth: real, backAzimuth: real, distance: real)

  /** Result of the geodesic forward problem: destination and back azimuth. */
  datatype ForwardSolution = ForwardSolution(lon: real, lat: real, backAzimuth: real)

  /**
   * The WGS84 geodesic solver interpolate_ calls. Its two operations are
   * supplied by the caller and may fail (None), as the library may raise.
   *   inverse(lon1, lat1, lon2, lat2), forward(lon, lat, azimuth, distance)
   */
  datatype Geodesic = Geodesic(
    inverse: (real, real, real, real) -> Option<InverseSolution>,
    forward: (real, real, real, real) -> Option<ForwardSolution>)

  /** The last report at or before t (the last index of before_p). */
  function LastAtOrBefore(track: Track, t: int): (r: Option<nat>)
    ensures r.Some? ==> r.value < |track| && track[r.value].timestamp <= t
    ensures r.Some? ==> forall k :: r.value < k < |track| ==> track[k].timestamp > t
    ensures r.None? <==> forall k :: 0 <= k < |track| ==> track[k].timestamp > t
  {
    if |track| == 0 then None
    else if track[|track| - 1].timestamp <= t then Some(|track| - 1)
    else LastAtOrBefore(track[..|track| - 1], t)
  }

  /** The first report after t (the first index of after_p). */
  function FirstAfter(track: Track, t: int): (r: Option<nat>)
    ensures r.Some? ==> r.value < |track| && track[r.value].timestamp > t
    ensures r.Some? ==> forall k :: 0 <= k < r.value ==> track[k].timestamp <= t
    ensures r.None? <==> forall k :: 0 <= k < |track| ==> track[k].timestamp <= t
  {
    if |track| == 0 then None
    else if track[0].timestamp > t then Some(0)
    else
      match FirstAfter(track[1..], t)
      case None => None
      case Some(i) => Some(i + 1)
  }

  /** The bracketing pair (bpos, apos), when both exist. */
  function Bracket(track: Track, t: int): (r: Option<(nat, nat)>)
    ensures r.Some? ==>
      r.value.0 < |track| && r.value.1 < |track| &&
      track[r.value.0].timestamp <= t < track[r.value.1].timestamp
  {
    match (LastAtOrBefore(track, t), FirstAfter(track, t))
    case (Some(b), Some(a)) => Some((b, a))
    case _ => None
  }

  /** (after - before) * f + before, the linear blend of interpolate_. */
  function Blend(before: real, after: real, f: real): (v: real)
    ensures f == 0.0 ==> v == before
    ensures 0.0 <= f <= 1.0 && before <= after ==> before <= v <= after
    ensures 0.0 <= f <= 1.0 && after <= before ==> after <= v <= before
  {
    Part(after - before, f) + before
  }

  /** d * f: the fraction f of d, which for 0 <= f <= 1 lies between 0 and d. */
  function Part(d: real, f: real): (r: real)
    ensures f == 0.0 ==> r == 0.0
    ensures 0.0 <= f <= 1.0 && 0.0 <= d ==> 0.0 <= r <= d
    ensures 0.0 <= f <= 1.0 && d <= 0.0 ==> d <= r <= 0.0
  {
    var r := d * f;
    FractionOfBounds(d, f, r);
    r
  }

  /** For 0 <= f <= 1, d * f lies between 0 and d. */
  lemma FractionOfBounds(d: real, f: real, r: real)
    requires r == d * f
    ensures f == 0.0 ==> r == 0.0
    ensures 0.0 <= f <= 1.0 && 0.0 <= d ==> 0.0 <= r <= d
    ensures 0.0 <= f <= 1.0 && d <= 0.0 ==> d <= r <= 0.0
  {
    if 0.0 <= f <= 1.0 {
      NonNegativeProduct(if 0.0 <= d then d else -d, f);
      NonNegativeProduct(if 0.0 <= d then d else -d, 1.0 - f);
      assert d * (1.0 - f) == d - d * f;
      assert (-d) * f == -(d * f) && (-d) * (1.0 - f) == -(d * (1.0 - f));
    }
  }

  lemma NonNegativeProduct(x: real, y: real)
    requires 0.0 <= x && 0.0 <= y
    ensures 0.0 <= x * y
  {
  }

  /** Status of the report nearer in time; a tie goes to the earlier one. */
  function NearerStatus(before: Observation, after: Observation, dtInterp: int, dtFull: int): int
  {
    if 2 * dtInterp > dtFull then after.nav else before.nav
  }

  /** dt_interp / dt_full, the fraction of the bracket that lies before t. */
  function Fraction(dtInterp: int, dtFull: int): (f: real)
    requires 0 <= dtInterp < dtFull
    ensures 0.0 <= f < 1.0
    ensures dtInterp == 0 ==> f == 0.0
  {
    dtInterp as real / dtFull as real
  }

  /**
   * interpolate_(t, track). None when t cannot be bracketed, when the
   * bracket is wider than MaxBracketGap, or when either geodesic step
   * fails; otherwise a new report stamped t for the track's vessel.
   */
  function Interpolate(geod: Geodesic, t: int, track: Track): (r: Option<Observation>)
    ensures r.Some? ==> |track| > 0 && r.value.timestamp == t && r.value.mmsi == track[0].mmsi
    ensures r.Some? ==> Bracket(track, t).Some?
  {
    match Bracket(track, t)
    case None => None
    case Some((bpos, apos)) =>
      var before, after := track[bpos], track[apos];
      // dtFull is positive (after is later than t, before is not), so the
      // abs() that interpolate_ applies leaves it unchanged.
      var dtFull := after.timestamp - before.timestamp;
      if dtFull > MaxBracketGap then None
      else
        var dtInterp := t - before.timestamp;
        var f := Fraction(dtInterp, dtFull);
        match geod.inverse(before.lon, before.lat, after.lon, after.lat)
        case None => None
        case Some(inv) =>
          match geod.forward(before.lon, before.lat, inv.azimuth, Part(inv.distance, f))
          case None => None
          case Some(fwd) =>
            Some(Observation(
              lat := fwd.lat,
              lon := fwd.lon,
              sog := Blend(before.sog, after.sog, f),
              cog := Blend(before.cog, after.cog, f),
              heading := Blend(before.heading, after.heading, f),
              rot := Blend(before.rot, after.rot, f),
              nav := NearerStatus(before, after, dtInterp, dtFull),
              timestamp := t,
              mmsi := track[0].mmsi))
  }

  // ---------------------------------------------------------------------
  // Properties

  /** The bracket exists exactly when some report is at or before t and some report is after t. */
  lemma BracketExists(track: Track, t: int)
    ensures Bracket(track, t).Some? <==>
      (exists k :: 0 <= k < |track| && track[k].timestamp <= t) &&
      (exists k :: 0 <= k < |track| && track[k].timestamp > t)
  {
  }

  /**
   * On a sorted track the bracket exists exactly when the first report is
   * at or before t and the last is after t, and then the two bracketing
   * reports are neighbours.
   */
  lemma SortedBracket(track: Track, t: int)
    requires Sorted(track) && |track| > 0
    ensures Bracket(track, t).Some? <==> track[0].timestamp <= t < track[|track| - 1].timestamp
    ensures Bracket(track, t).Some? ==> Bracket(track, t).value.1 == Bracket(track, t).value.0 + 1
  {
    var lb, fa := LastAtOrBefore(track, t), FirstAfter(track, t);
    if track[0].timestamp <= t < track[|track| - 1].timestamp {
      assert lb.Some? && fa.Some?;
    }
    if lb.Some? && fa.Some? {
      var b, a := lb.value, fa.value;
      assert track[a].timestamp <= track[|track| - 1].timestamp;
      assert track[b + 1].timestamp > t;
      assert forall k :: 0 <= k <= b ==> track[k].timestamp <= t;
    }
  }

  /** A sorted track yields nothing before its first report or at or after its last one. */
  lemma OutsideTrackRange(geod: Geodesic, t: int, track: Track)
    requires Sorted(track)
    requires |track| == 0 || t < track[0].timestamp || t >= track[|track| - 1].timestamp
    ensures Interpolate(geod, t, track) == None
  {
    if |track| > 0 {
      SortedBracket(track, t);
    }
  }

  /** Reports more than MaxBracketGap apart are not interpolated between. */
  lemma WideBracketRejected(geod: Geodesic, t: int, track: Track)
    requires Bracket(track, t).Some?
    requires track[Bracket(track, t).value.1].timestamp - track[Bracket(track, t).value.0].timestamp > MaxBracketGap
    ensures Interpolate(geod, t, track) == None
  {
  }

  /**
   * Once t is bracketed, the call succeeds exactly when the bracket is no
   * wider than MaxBracketGap and both geodesic steps succeed, the forward
   * step being asked for the fraction f = dt_interp / dt_full of the
   * inverse step's distance. Any geodesic failure makes the call fail.
   */
  lemma InterpolateSucceeds(geod: Geodesic, t: int, track: Track)
    requires Bracket(track, t).Some?
    ensures
      var (bpos, apos) := Bracket(track, t).value;
      var before, after := track[bpos], track[apos];
      var dtFull, dtInterp := after.timestamp - before.timestamp, t - before.timestamp;
      var f := dtInterp as real / dtFull as real;
      var inv := geod.inverse(before.lon, before.lat, after.lon, after.lat);
      Interpolate(geod, t, track).Some? <==>
        dtFull <= MaxBracketGap && inv.Some? &&
        geod.forward(before.lon, before.lat, inv.value.azimuth, Part(inv.value.distance, f)).Some?
  {
    var (bpos, apos) := Bracket(track, t).value;
    var before, after := track[bpos], track[apos];
    var dtFull, dtInterp := after.timestamp - before.timestamp, t - before.timestamp;
    if dtFull <= MaxBracketGap {
      var f := Fraction(dtInterp, dtFull);
      assert f == dtInterp as real / dtFull as real;
      var inv := geod.inverse(before.lon, before.lat, after.lon, after.lat);
      if inv.Some? {
        var fwd := geod.forward(before.lon, before.lat, inv.value.azimuth, Part(inv.value.distance, f));
        assert Interpolate(geod, t, track).Some? <==> fwd.Some?;
      } else {
        assert Interpolate(geod, t, track).None?;
      }
    }
  }

  /** The blended fields lie between the two bracketing reports' values; the status follows the nearer report. */
  lemma InterpolatedFields(geod: Geodesic, t: int, track: Track)
    requires Interpolate(geod, t, track).Some?
    ensures
      var (bpos, apos) := Bracket(track, t).value;
      var before, after, o := track[bpos], track[apos], Interpolate(geod, t, track).value;
      Between(o.sog, before.sog, after.sog) && Between(o.cog, before.cog, after.cog) &&
      Between(o.heading, before.heading, after.heading) && Between(o.rot, before.rot, after.rot) &&
      o.nav == (if 2 * (t - before.timestamp) <= after.timestamp - before.timestamp
                then before.nav else after.nav)
  {
    var (bpos, apos) := Bracket(track, t).value;
    var before, after := track[bpos], track[apos];
    var f := Fraction(t - before.timestamp, after.timestamp - before.timestamp);
    var o := Interpolate(geod, t, track).value;
    assert o.sog == Blend(before.sog, after.sog, f);
    assert Between(o.sog, before.sog, after.sog);
    assert o.nav == NearerStatus(before, after, t - before.timestamp, after.timestamp - before.timestamp);
  }

  ghost predicate Between(v: real, x: real, y: real) {
    (x <= v <= y) || (y <= v <= x)
  }

  /** At a report's own timestamp the blended fields and the status are that report's. */
  lemma AtReportTime(geod: Geodesic, t: int, track: Track)
    requires Interpolate(geod, t, track).Some?
    requires t == track[Bracket(track, t).value.0].timestamp
    ensures
      var before, o := track[Bracket(track, t).value.0], Interpolate(geod, t, track).value;
      o.sog == before.sog && o.cog == before.cog && o.heading == before.heading &&
      o.rot == before.rot && o.nav == before.nav
  {
  }
}
