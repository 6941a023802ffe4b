/**
 * The `GNSSAHRSFusion` object itself: its four members, updated in place by
 * its methods. Each public state-changing method is proved to move the
 * object's state exactly as its FusionSpec function says and to keep Valid();
 * SetDebugMode leaves the state alone, UpdateFusionStatus is proved against
 * RecomputeStatus and IsDataReady returns the cached flag. The helpers
 * DecodeGga and DecodeRmc are proved against the cases of DecodeSentence, and
 * StoreGgaFix and StoreRmcFix against ApplyGga and ApplyRmc.
 */
module Fusion {
  import opened Optional
  import opened ArduinoRuntime
  import opened Nmea
  import opened FusionTypes
  import opened Freshness
  import opened Odometry
  import opened FusionSpec

  class GnssAhrsFusion {
    var gnssData: GnssData
    var mtdata2Data: MtData2
    var status: FusionStatus
    var debugEnabled: bool

    /** The three structs as one value, for the specification functions. */
    function State(): FusionState
      reads this
    {
      FusionState(gnssData, mtdata2Data, status)
    }

    ghost predicate Valid()
      reads this
    {
      Consistent(State())
    }

    /**
     * The member initialisers, then the constructor body, which assigns the
     * same defaults to every status field again.
     */
    constructor ()
      ensures Valid() && State() == InitialState && !debugEnabled
      ensures !status.gnssValid && !status.mtdata2Valid && !status.fusionActive && !status.mavlinkSent
      ensures status.lastGnssUpdate == 0 && status.lastMtdata2Update == 0 && status.lastFusionSend == 0
      ensures status.gnssQuality == 0 && status.fusionCount == 0 && status.mavlinkSendCount == 0
      ensures !gnssData.valid && gnssData.quality == 0 && gnssData.timestamp == 0
      ensures mtdata2Data.quaternion == [1.0, 0.0, 0.0, 0.0] && !mtdata2Data.valid && mtdata2Data.timestamp == 0
    {
      gnssData := DefaultGnssData;
      mtdata2Data := DefaultMtData2;
      debugEnabled := false;
      status := DefaultStatus;
      new;
      status := status.(gnssValid := false, mtdata2Valid := false, fusionActive := false, mavlinkSent := false);
      status := status.(lastGnssUpdate := 0, lastMtdata2Update := 0, lastFusionSend := 0);
      status := status.(gnssQuality := 0, fusionCount := 0, mavlinkSendCount := 0);
    }

    /** `setDebugMode`: only the debug flag changes; the announcement is text output. */
    method SetDebugMode(enabled: bool)
      modifies this
      ensures debugEnabled == enabled
      ensures State() == old(State())
    {
      debugEnabled := enabled;
    }

    /**
     * `updateGNSSData`: drop short sentences; decode GGA or RMC field by field
     * into `gnssData`, stamping the GNSS source on an accepted GGA; then run
     * the gate for every sentence that was long enough.
     */
    method UpdateGnssData(sentence: string, now: U32, lib: Numerics, unwritten: nat)
      requires Valid()
      modifies this
      ensures Valid()
      ensures State() == IngestSentence(old(State()), sentence, now, lib, unwritten)
      ensures debugEnabled == old(debugEnabled)
    {
      if |sentence| < MinSentenceLength {
        return;
      }
      if KindOf(sentence) == Gga {
        DecodeGga(sentence, now, lib, unwritten);
      } else if KindOf(sentence) == Rmc {
        DecodeRmc(sentence, now, lib, unwritten);
      }
      UpdateFusionStatus(now);
      IngestSentenceKeepsConsistent(old(State()), sentence, now, lib, unwritten);
    }

    /** The GGA branch of `updateGNSSData`: scan the commas, cut the fields, decode when long enough. */
    method DecodeGga(sentence: string, now: U32, lib: Numerics, unwritten: nat)
      requires KindOf(sentence) == Gga
      modifies this
      ensures State() == DecodeSentence(old(State()), sentence, now, lib, unwritten)
      ensures debugEnabled == old(debugEnabled)
    {
      GgaSentenceDecodes(State(), sentence, now, lib, unwritten);
      var commaCount, commaPositions := ScanCommas(sentence, GgaCapacity, unwritten);
      ParseGgaReadsBuffer(sentence, lib, unwritten, commaCount, commaPositions);
      if commaCount >= GgaMinCommas {
        var latText := Field(sentence, commaPositions, 1);
        var latDir := Field(sentence, commaPositions, 2);
        var lonText := Field(sentence, commaPositions, 3);
        var lonDir := Field(sentence, commaPositions, 4);
        var qualityText := Field(sentence, commaPositions, 5);
        var altText := Field(sentence, commaPositions, 8);
        if |latText| > 4 && |lonText| > 5 {
          StoreGgaFix(latText, latDir, lonText, lonDir, qualityText, altText, now, lib);
        }
      }
    }

    /** The GGA conversions, written member by member into `gnssData`, then the GNSS stamp. */
    method StoreGgaFix(latText: string, latDir: string, lonText: string, lonDir: string,
                       qualityText: string, altText: string, now: U32, lib: Numerics)
      requires |latText| > 4 && |lonText| > 5
      modifies this
      ensures GgaFromFields(lib, latText, latDir, lonText, lonDir, qualityText, altText).Some?
      ensures gnssData == ApplyGga(old(gnssData), GgaFromFields(lib, latText, latDir, lonText, lonDir, qualityText, altText).value, now)
      ensures status == old(status).(lastGnssUpdate := now)
      ensures mtdata2Data == old(mtdata2Data) && debugEnabled == old(debugEnabled)
    {
      var latDeg := lib.toDouble(Substring(latText, 0, 2));
      var latMin := lib.toDouble(Substring(latText, 2, |latText|));
      gnssData := gnssData.(latitude := latDeg + latMin / 60.0);
      if latDir == "S" {
        gnssData := gnssData.(latitude := -gnssData.latitude);
      }
      var lonDeg := lib.toDouble(Substring(lonText, 0, 3));
      var lonMin := lib.toDouble(Substring(lonText, 3, |lonText|));
      gnssData := gnssData.(longitude := lonDeg + lonMin / 60.0);
      if lonDir == "W" {
        gnssData := gnssData.(longitude := -gnssData.longitude);
      }
      gnssData := gnssData.(altitude := lib.toDouble(altText));
      gnssData := gnssData.(quality := lib.toInt(qualityText));
      gnssData := gnssData.(valid := gnssData.quality > 0);
      gnssData := gnssData.(timestamp := now);
      status := status.(lastGnssUpdate := now);
    }

    /** The RMC branch of `updateGNSSData`: scan the commas, cut speed and course, decode when both are present. */
    method DecodeRmc(sentence: string, now: U32, lib: Numerics, unwritten: nat)
      requires KindOf(sentence) == Rmc
      modifies this
      ensures State() == DecodeSentence(old(State()), sentence, now, lib, unwritten)
      ensures debugEnabled == old(debugEnabled)
    {
      RmcSentenceDecodes(State(), sentence, now, lib, unwritten);
      var commaCount, commaPositions := ScanCommas(sentence, RmcCapacity, unwritten);
      ParseRmcReadsBuffer(sentence, lib, unwritten, commaCount, commaPositions);
      if commaCount >= RmcMinCommas {
        var speedText := Field(sentence, commaPositions, 6);
        var courseText := Field(sentence, commaPositions, 7);
        if |speedText| > 0 && |courseText| > 0 {
          StoreRmcFix(speedText, courseText, lib);
        }
      }
    }

    /** The RMC conversions: speed in m/s, course, and the velocity split by course; no stamp. */
    method StoreRmcFix(speedText: string, courseText: string, lib: Numerics)
      requires |speedText| > 0 && |courseText| > 0
      modifies this
      ensures RmcFromFields(lib, speedText, courseText).Some?
      ensures gnssData == ApplyRmc(old(gnssData), RmcFromFields(lib, speedText, courseText).value, lib)
      ensures status == old(status) && mtdata2Data == old(mtdata2Data) && debugEnabled == old(debugEnabled)
    {
      gnssData := gnssData.(speed := lib.toDouble(speedText) * KnotsToMetresPerSecond);
      gnssData := gnssData.(course := lib.toDouble(courseText));
      var courseRad := gnssData.course * Pi / 180.0;
      gnssData := gnssData.(velocityNorth := gnssData.speed * lib.cos(courseRad));
      gnssData := gnssData.(velocityEast := gnssData.speed * lib.sin(courseRad));
      gnssData := gnssData.(velocityDown := 0.0);
    }

    /**
     * `updateMTData2`: copy the quaternion and the three vectors element by
     * element, store the device timestamp, mark the sample valid, stamp the
     * attitude source with `now`, and run the gate.
     */
    method UpdateMtData2(quat: Quaternion, omg: Vector3, acc: Vector3, ori: Vector3, timestamp: U32, now: U32)
      requires Valid()
      modifies this
      ensures Valid()
      ensures State() == IngestAttitude(old(State()), quat, omg, acc, ori, timestamp, now)
      ensures debugEnabled == old(debugEnabled)
    {
      for i := 0 to 4
        invariant forall j :: 0 <= j < i ==> mtdata2Data.quaternion[j] == quat[j]
        invariant mtdata2Data.(quaternion := old(mtdata2Data).quaternion) == old(mtdata2Data)
        invariant gnssData == old(gnssData) && status == old(status) && debugEnabled == old(debugEnabled)
      {
        mtdata2Data := mtdata2Data.(quaternion := mtdata2Data.quaternion[i := quat[i]]);
      }
      assert mtdata2Data.quaternion == quat;
      for i := 0 to 3
        invariant mtdata2Data.quaternion == quat
        invariant forall j :: 0 <= j < i ==> mtdata2Data.angularVelocity[j] == omg[j]
        invariant forall j :: 0 <= j < i ==> mtdata2Data.acceleration[j] == acc[j]
        invariant forall j :: 0 <= j < i ==> mtdata2Data.orientation[j] == ori[j]
        invariant mtdata2Data.timestamp == old(mtdata2Data).timestamp && mtdata2Data.valid == old(mtdata2Data).valid
        invariant gnssData == old(gnssData) && status == old(status) && debugEnabled == old(debugEnabled)
      {
        mtdata2Data := mtdata2Data.(angularVelocity := mtdata2Data.angularVelocity[i := omg[i]]);
        mtdata2Data := mtdata2Data.(acceleration := mtdata2Data.acceleration[i := acc[i]]);
        mtdata2Data := mtdata2Data.(orientation := mtdata2Data.orientation[i := ori[i]]);
      }
      assert mtdata2Data.angularVelocity == omg && mtdata2Data.acceleration == acc && mtdata2Data.orientation == ori;
      mtdata2Data := mtdata2Data.(timestamp := timestamp);
      mtdata2Data := mtdata2Data.(valid := true);
      status := status.(lastMtdata2Update := now);
      UpdateFusionStatus(now);
      IngestAttitudeKeepsConsistent(old(State()), quat, omg, acc, ori, timestamp, now);
    }

    /** `updateFusionStatus` (private): the gate, run at `now` on the current data. */
    method UpdateFusionStatus(now: U32)
      modifies this
      ensures status == RecomputeStatus(old(State()), now)
      ensures gnssData == old(gnssData) && mtdata2Data == old(mtdata2Data) && debugEnabled == old(debugEnabled)
    {
      var currentTime := now;
      status := status.(gnssValid := gnssData.valid && WrappingSub(currentTime, status.lastGnssUpdate) < FreshnessWindowMs);
      status := status.(mtdata2Valid := mtdata2Data.valid && WrappingSub(currentTime, status.lastMtdata2Update) < FreshnessWindowMs);
      status := status.(fusionActive := status.gnssValid && status.mtdata2Valid);
      status := status.(gnssQuality := gnssData.quality);
    }

    /** `isDataReady` (private): the cached fusion flag, not a fresh gate run. */
    method IsDataReady() returns (ready: bool)
      ensures ready <==> status.fusionActive
    {
      ready := status.fusionActive;
    }

    /** `processFusion`: refuse unless the cached flag is set, else count one fusion cycle. */
    method ProcessFusion() returns (ok: bool)
      requires Valid()
      modifies this
      ensures Valid()
      ensures (ok, State()) == FusionStep(old(State()))
      ensures debugEnabled == old(debugEnabled)
    {
      var ready := IsDataReady();
      if !ready {
        return false;
      }
      status := status.(fusionCount := status.fusionCount + 1);
      ok := true;
    }

    /**
     * `sendMAVLinkOdometry`: after a successful fusion step, build the odometry
     * record and emit it (the encoding and the serial write are the caller's
     * side of `emitted`), then mark the send, count it and stamp it.
     */
    method SendMavlinkOdometry(now: U32) returns (sent: bool, emitted: Option<OdometryRecord>)
      requires Valid()
      modifies this
      ensures Valid()
      ensures sent <==> emitted.Some?
      ensures (emitted, State()) == EmitOdometry(old(State()), now)
      ensures debugEnabled == old(debugEnabled)
    {
      var fused := ProcessFusion();
      if !fused {
        return false, None;
      }
      var odom := BuildOdometry(gnssData, mtdata2Data);
      emitted := Some(odom);
      status := status.(mavlinkSent := true);
      status := status.(mavlinkSendCount := status.mavlinkSendCount + 1);
      status := status.(lastFusionSend := now);
      sent := true;
    }

    /** `getFusionStatus`: run the gate at `now` and return a copy of the status. */
    method GetFusionStatus(now: U32) returns (snapshot: FusionStatus)
      requires Valid()
      modifies this
      ensures Valid()
      ensures (snapshot, State()) == QueryStatus(old(State()), now)
      ensures debugEnabled == old(debugEnabled)
    {
      UpdateFusionStatus(now);
      snapshot := status;
    }

    /**
     * `printDetailedStatus`: besides its text output it runs the gate at `now`,
     * so it changes the status exactly as a status query does.
     */
    method PrintDetailedStatus(now: U32)
      requires Valid()
      modifies this
      ensures Valid()
      ensures State() == QueryStatus(old(State()), now).1
      ensures debugEnabled == old(debugEnabled)
    {
      UpdateFusionStatus(now);
    }

    /** `runDiagnostics`: the detailed status report, then text only; the state change is the gate's. */
    method RunDiagnostics(now: U32)
      requires Valid()
      modifies this
      ensures Valid()
      ensures State() == QueryStatus(old(State()), now).1
      ensures debugEnabled == old(debugEnabled)
    {
      PrintDetailedStatus(now);
    }
  }
}
