/**
 * One AIS position report and the per-vessel track it belongs to.
 * data_utils.py and dataset_process.py address the fields of a report by column index into a
 * numeric table; here each column is a named field.
 */
module Ais {
  /** A vessel state sample. Timestamps are whole seconds. */
  datatype Observation = Observation(
    lat: real,       // latitude, degrees
    lon: real,       // longitude, degrees
    sog: real,       // speed over ground, knots
    cog: real,       // course over ground, degrees
    heading: real,   // heading, degrees
    rot: real,       // rate of turn
    nav: int,        // navigational status code (categorical)
    timestamp: int,  // seconds
    mmsi: int)       // vessel identifier

  /** The reports of one vessel (or one piece of its history), in table order. */
  type Track = seq<Observation>

  /** Non-decreasing timestamps, as a raw track is stored. */
  predicate Sorted(track: Track) {
    forall i, j :: 0 <= i <= j < |track| ==> track[i].timestamp <= track[j].timestamp
  }
}
