/**
 * `GNSSAHRSFusion::updateFusionStatus`: each source is usable when its own
 * validity flag is set and its last update is less than 2000 ms old by the
 * wrapping 32-bit clock; fusion is active when both are.
 */
module Freshness {
  import opened ArduinoRuntime
  import opened FusionTypes

  const FreshnessWindowMs: nat := 2000

  /** A source is fresh when valid and updated less than the window ago, measured modulo 2^32. */
  predicate Fresh(valid: bool, lastUpdate: U32, now: U32): (b: bool)
    ensures b ==> valid
    ensures lastUpdate == now ==> (b <==> valid)
  {
    valid && WrappingSub(now, lastUpdate) < FreshnessWindowMs
  }

  /**
   * The status after the gate runs at time `now`: the two freshness flags, the
   * fusion flag and the mirrored quality are recomputed; timestamps, the sent
   * flag and the counters are carried over.
   */
  function RecomputeStatus(st: FusionState, now: U32): (r: FusionStatus)
    ensures r.gnssValid <==> st.gnss.valid && WrappingSub(now, st.status.lastGnssUpdate) < FreshnessWindowMs
    ensures r.mtdata2Valid <==> st.mt.valid && WrappingSub(now, st.status.lastMtdata2Update) < FreshnessWindowMs
    ensures r.fusionActive <==> r.gnssValid && r.mtdata2Valid
    ensures r.gnssQuality == st.gnss.quality
    ensures r.lastGnssUpdate == st.status.lastGnssUpdate
    ensures r.lastMtdata2Update == st.status.lastMtdata2Update
    ensures r.lastFusionSend == st.status.lastFusionSend
    ensures r.mavlinkSent == st.status.mavlinkSent
    ensures r.fusionCount == st.status.fusionCount
    ensures r.mavlinkSendCount == st.status.mavlinkSendCount
  {
    var gnssValid := Fresh(st.gnss.valid, st.status.lastGnssUpdate, now);
    var mtdata2Valid := Fresh(st.mt.valid, st.status.lastMtdata2Update, now);
    st.status.(
      gnssValid := gnssValid,
      mtdata2Valid := mtdata2Valid,
      fusionActive := gnssValid && mtdata2Valid,
      gnssQuality := st.gnss.quality)
  }

  /** Running the gate twice at the same time gives the same status as running it once. */
  lemma GateIdempotent(st: FusionState, now: U32)
    ensures RecomputeStatus(st.(status := RecomputeStatus(st, now)), now) == RecomputeStatus(st, now)
  {
  }

  /**
   * A source updated `d` milliseconds ago (with `d` under one clock turn) is
   * fresh exactly when it is valid and `d < 2000`, whether or not `millis()`
   * rolled over in between.
   */
  lemma FreshIffWithinWindow(valid: bool, t: U32, d: nat)
    requires d < TwoTo32
    ensures Fresh(valid, t, (t + d) % TwoTo32) <==> valid && d < FreshnessWindowMs
  {
    ElapsedAcrossRollover(t, d);
  }

  /**
   * The wrapping clock cannot tell a delay from the same delay plus a full
   * turn (about 49.7 days): a valid source last updated `TwoTo32 + d`
   * milliseconds ago, with `d < 2000`, reads as fresh again.
   */
  lemma StaleSourceAliasesAfterFullTurn(t: U32, d: nat)
    requires d < FreshnessWindowMs
    ensures Fresh(true, t, (t + TwoTo32 + d) % TwoTo32)
  {
    assert (t + TwoTo32 + d) % TwoTo32 == (t + d) % TwoTo32;
    ElapsedAcrossRollover(t, d);
  }
}
