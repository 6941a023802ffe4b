/**
 * What each public operation of `GNSSAHRSFusion` does to the object's state,
 * as functions from the old state to the new one, with the consistency
 * invariant the operations keep and the properties they promise.
 */
module FusionSpec {
  import opened Optional
  import opened ArduinoRuntime
  import opened Nmea
  import opened FusionTypes
  import opened Freshness
  import opened Odometry

  /** Position fields from an accepted GGA sentence, stamped with `now`. */
  function ApplyGga(g: GnssData, fix: GgaFix, now: U32): (r: GnssData)
    ensures r.(latitude := g.latitude, longitude := g.longitude, altitude := g.altitude,
               quality := g.quality, valid := g.valid, timestamp := g.timestamp) == g
    ensures r.valid <==> r.quality > 0
    ensures r.timestamp == now
  {
    g.(latitude := fix.latitude, longitude := fix.longitude, altitude := fix.altitude,
       quality := fix.quality, valid := fix.quality > 0, timestamp := now)
  }

  /** Speed, course and the velocity components from an accepted RMC sentence. */
  function ApplyRmc(g: GnssData, fix: RmcFix, lib: Numerics): (r: GnssData)
    ensures r.(speed := g.speed, course := g.course, velocityNorth := g.velocityNorth,
               velocityEast := g.velocityEast, velocityDown := g.velocityDown) == g
    ensures r.speed == fix.speed && r.course == fix.course && r.velocityDown == 0.0
  {
    var courseRad := fix.course * Pi / 180.0;
    g.(speed := fix.speed, course := fix.course,
       velocityNorth := fix.speed * lib.cos(courseRad),
       velocityEast := fix.speed * lib.sin(courseRad),
       velocityDown := 0.0)
  }

  /** The state after the sentence is decoded, before the gate runs. */
  function DecodeSentence(st: FusionState, s: string, now: U32, lib: Numerics, unwritten: nat): (r: FusionState)
    ensures KindOf(s) == Unrecognised ==> r == st
    ensures KindOf(s) == Rmc ==> r.status == st.status
    ensures r.mt == st.mt
    ensures r.status == st.status.(lastGnssUpdate := r.status.lastGnssUpdate)
  {
    match KindOf(s)
    case Gga =>
      (match ParseGga(s, lib, unwritten)
       case Some(fix) => st.(gnss := ApplyGga(st.gnss, fix, now), status := st.status.(lastGnssUpdate := now))
       case None => st)
    case Rmc =>
      (match ParseRmc(s, lib, unwritten)
       case Some(fix) => st.(gnss := ApplyRmc(st.gnss, fix, lib))
       case None => st)
    case Unrecognised => st
  }

  /** A GGA sentence is decoded by ParseGga alone: a fix is applied and stamped, or nothing changes. */
  lemma GgaSentenceDecodes(st: FusionState, s: string, now: U32, lib: Numerics, unwritten: nat)
    requires KindOf(s) == Gga
    ensures ParseGga(s, lib, unwritten).None? ==> DecodeSentence(st, s, now, lib, unwritten) == st
    ensures ParseGga(s, lib, unwritten).Some? ==>
      DecodeSentence(st, s, now, lib, unwritten)
      == st.(gnss := ApplyGga(st.gnss, ParseGga(s, lib, unwritten).value, now),
             status := st.status.(lastGnssUpdate := now))
  {
  }

  /** An RMC sentence is decoded by ParseRmc alone: speed, course and velocity are applied, or nothing changes. */
  lemma RmcSentenceDecodes(st: FusionState, s: string, now: U32, lib: Numerics, unwritten: nat)
    requires KindOf(s) == Rmc
    ensures ParseRmc(s, lib, unwritten).None? ==> DecodeSentence(st, s, now, lib, unwritten) == st
    ensures ParseRmc(s, lib, unwritten).Some? ==>
      DecodeSentence(st, s, now, lib, unwritten) == st.(gnss := ApplyRmc(st.gnss, ParseRmc(s, lib, unwritten).value, lib))
  {
  }

  /**
   * `updateGNSSData`: a sentence shorter than 10 characters is dropped without
   * any effect; any longer one, recognised or not, is decoded and then the gate
   * runs at `now`.
   */
  function IngestSentence(st: FusionState, s: string, now: U32, lib: Numerics, unwritten: nat): (r: FusionState)
    ensures |s| < MinSentenceLength ==> r == st
    ensures |s| >= MinSentenceLength ==> r.status == RecomputeStatus(r, now)
    ensures r.mt == st.mt
    ensures r.status.fusionCount == st.status.fusionCount
    ensures r.status.mavlinkSendCount == st.status.mavlinkSendCount
    ensures r.status.mavlinkSent == st.status.mavlinkSent
    ensures r.status.lastFusionSend == st.status.lastFusionSend
    ensures r.status.lastMtdata2Update == st.status.lastMtdata2Update
  {
    if |s| < MinSentenceLength then st
    else
      var decoded := DecodeSentence(st, s, now, lib, unwritten);
      decoded.(status := RecomputeStatus(decoded, now))
  }

  /**
   * `updateMTData2`: the sample replaces the attitude data wholesale, is marked
   * valid, the attitude source is stamped with `now`, and the gate runs; the
   * attitude source is therefore fresh afterwards, whatever the GNSS source is.
   */
  function IngestAttitude(st: FusionState, quat: Quaternion, omg: Vector3, acc: Vector3, ori: Vector3,
                          timestamp: U32, now: U32): (r: FusionState)
    ensures r.mt == MtData2(quat, omg, acc, ori, timestamp, true)
    ensures r.gnss == st.gnss
    ensures r.status == RecomputeStatus(r, now)
    ensures r.status.mtdata2Valid
    ensures r.status.lastMtdata2Update == now && r.status.lastGnssUpdate == st.status.lastGnssUpdate
    ensures r.status.fusionCount == st.status.fusionCount
    ensures r.status.mavlinkSendCount == st.status.mavlinkSendCount
    ensures r.status.mavlinkSent == st.status.mavlinkSent
    ensures r.status.lastFusionSend == st.status.lastFusionSend
  {
    var stored := st.(mt := MtData2(quat, omg, acc, ori, timestamp, true),
                      status := st.status.(lastMtdata2Update := now));
    stored.(status := RecomputeStatus(stored, now))
  }

  /**
   * `processFusion`: refused unless the cached fusion flag is set (the gate is
   * not rerun); on success only the fusion counter moves, by one.
   */
  function FusionStep(st: FusionState): (r: (bool, FusionState))
    ensures r.0 == st.status.fusionActive
    ensures r.0 ==> r.1 == st.(status := st.status.(fusionCount := st.status.fusionCount + 1))
    ensures !r.0 ==> r.1 == st
  {
    if !st.status.fusionActive then (false, st)
    else (true, st.(status := st.status.(fusionCount := st.status.fusionCount + 1)))
  }

  /**
   * `sendMAVLinkOdometry`: after a successful fusion step the odometry record
   * is built from the fix and the attitude sample and emitted, the sent flag is
   * set, the send counter moves by one and the send is stamped with `now`.
   * A refused step emits nothing and changes nothing.
   */
  function EmitOdometry(st: FusionState, now: U32): (r: (Option<OdometryRecord>, FusionState))
    ensures r.0.Some? <==> st.status.fusionActive
    ensures !st.status.fusionActive ==> r.1 == st
    ensures st.status.fusionActive ==> r.0 == Some(BuildOdometry(st.gnss, st.mt))
    ensures st.status.fusionActive ==>
      r.1 == st.(status := st.status.(fusionCount := st.status.fusionCount + 1,
                                      mavlinkSendCount := st.status.mavlinkSendCount + 1,
                                      mavlinkSent := true,
                                      lastFusionSend := now))
  {
    var (ready, fused) := FusionStep(st);
    if !ready then (None, st)
    else
      var record := BuildOdometry(fused.gnss, fused.mt);
      (Some(record), fused.(status := fused.status.(
          mavlinkSent := true,
          mavlinkSendCount := fused.status.mavlinkSendCount + 1,
          lastFusionSend := now)))
  }

  /**
   * The invariant every operation keeps: the fusion flag is the conjunction of
   * the two freshness flags, a fresh flag implies the source's own validity,
   * the mirrored quality matches the fix, the fix is valid exactly when its
   * quality code is positive, no more records were sent than fusion steps
   * taken, and the sent flag records whether any was sent.
   */
  ghost predicate Consistent(st: FusionState)
  {
    && (st.status.fusionActive <==> st.status.gnssValid && st.status.mtdata2Valid)
    && (st.status.gnssValid ==> st.gnss.valid)
    && (st.status.mtdata2Valid ==> st.mt.valid)
    && st.status.gnssQuality == st.gnss.quality
    && (st.gnss.valid <==> st.gnss.quality > 0)
    && st.status.mavlinkSendCount <= st.status.fusionCount
    && (st.status.mavlinkSent <==> st.status.mavlinkSendCount > 0)
  }

  /** The constructed state: all flags false, timestamps, quality and counters zero. */
  lemma InitialStateConsistent()
    ensures Consistent(InitialState)
    ensures !InitialState.status.fusionActive && !InitialState.gnss.valid && !InitialState.mt.valid
  {
  }

  lemma {:induction false} IngestSentenceKeepsConsistent(st: FusionState, s: string, now: U32, lib: Numerics, unwritten: nat)
    requires Consistent(st)
    ensures Consistent(IngestSentence(st, s, now, lib, unwritten))
  {
  }

  lemma {:induction false} IngestAttitudeKeepsConsistent(st: FusionState, quat: Quaternion, omg: Vector3, acc: Vector3,
                                                        ori: Vector3, timestamp: U32, now: U32)
    requires Consistent(st)
    ensures Consistent(IngestAttitude(st, quat, omg, acc, ori, timestamp, now))
  {
  }

  lemma {:induction false} FusionStepKeepsConsistent(st: FusionState)
    requires Consistent(st)
    ensures Consistent(FusionStep(st).1)
  {
  }

  lemma {:induction false} EmitOdometryKeepsConsistent(st: FusionState, now: U32)
    requires Consistent(st)
    ensures Consistent(EmitOdometry(st, now).1)
  {
  }

  /** The status query: the gate recomputed at `now`, nothing else changed. */
  function QueryStatus(st: FusionState, now: U32): (r: (FusionStatus, FusionState))
    ensures r.1 == st.(status := r.0)
    ensures r.0 == RecomputeStatus(st, now)
  {
    var status := RecomputeStatus(st, now);
    (status, st.(status := status))
  }

  /** Querying twice at the same time returns identical snapshots. */
  lemma QueryTwiceSameSnapshot(st: FusionState, now: U32)
    ensures QueryStatus(QueryStatus(st, now).1, now) == QueryStatus(st, now)
  {
    GateIdempotent(st, now);
  }
}
