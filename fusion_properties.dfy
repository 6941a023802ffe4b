/**
 * Properties of the fusion operations, stated on the raw sentence text where
 * they concern parsing: what an accepted GGA or RMC sentence writes, what a
 * rejected one leaves alone, the behaviours the source has that a reader might
 * not expect, and the end-to-end path from fresh inputs to an emitted record.
 */
module FusionProperties {
  import opened Optional
  import opened ArduinoRuntime
  import opened Nmea
  import opened FusionTypes
  import opened Freshness
  import opened Odometry
  import opened FusionSpec

  /** The recorded slots of a comma buffer are the sentence's first commas, in order, inside the sentence. */
  lemma {:induction false} BufferSlotsAreCommas(s: string, capacity: nat, unwritten: nat, n: nat)
    requires n <= |FirstCommas(s, capacity)|
    ensures forall k :: 0 <= k < n ==> CommaBuffer(s, capacity, unwritten)[k] == CommaIndices(s)[k]
    ensures forall k :: 0 <= k < n ==> CommaIndices(s)[k] < |s| && s[CommaIndices(s)[k]] == ','
    ensures forall k :: 0 <= k < n - 1 ==> CommaIndices(s)[k] < CommaIndices(s)[k + 1]
  {
    CommaIndicesExact(s);
  }

  /**
   * FieldIsCommaFreeSlice restated on the sentence's own comma positions rather
   * than the buffer: field k is the raw text between the k-th and (k+1)-th comma.
   */
  lemma {:induction false} FieldIsRawSlice(s: string, capacity: nat, unwritten: nat, k: nat)
    requires k + 1 < |FirstCommas(s, capacity)|
    ensures var c := CommaIndices(s);
      k + 1 < |c| && c[k] < c[k + 1] < |s|
      && Field(s, CommaBuffer(s, capacity, unwritten), k) == s[c[k] + 1..c[k + 1]]
  {
    BufferSlotsAreCommas(s, capacity, unwritten, k + 2);
    FieldIsCommaFreeSlice(s, capacity, unwritten, k);
  }

  /**
   * A GGA sentence is accepted exactly when it has at least 10 commas, its
   * latitude field (between commas 2 and 3) is longer than 4 characters and
   * its longitude field (between commas 4 and 5) longer than 5; the field
   * between the commas at indices a and b has b - a - 1 characters.
   */
  lemma {:induction false} GgaAcceptance(s: string, lib: Numerics, unwritten: nat)
    ensures var c := CommaIndices(s);
      ParseGga(s, lib, unwritten).Some? <==>
        |c| >= GgaMinCommas && c[1] + 5 < c[2] && c[3] + 6 < c[4]
  {
    var c := CommaIndices(s);
    if |c| >= GgaMinCommas {
      FieldIsRawSlice(s, GgaCapacity, unwritten, 1);
      FieldIsRawSlice(s, GgaCapacity, unwritten, 3);
    } else {
      assert |FirstCommas(s, GgaCapacity)| == |c|;
    }
  }

  /**
   * A GGA sentence the parser rejects (too few commas, or a latitude or
   * longitude field too short) leaves every field of the fix and the GNSS
   * freshness stamp unchanged; a sentence of 10 or more characters still
   * runs the gate, and nothing else happens.
   */
  lemma RejectedGgaLeavesFix(st: FusionState, s: string, now: U32, lib: Numerics, unwritten: nat)
    requires KindOf(s) == Gga && ParseGga(s, lib, unwritten).None?
    ensures var r := IngestSentence(st, s, now, lib, unwritten);
      r.gnss == st.gnss && r.status.lastGnssUpdate == st.status.lastGnssUpdate
    ensures |s| >= MinSentenceLength ==>
      IngestSentence(st, s, now, lib, unwritten) == st.(status := RecomputeStatus(st, now))
  {
  }

  /** GgaFromFields on long enough latitude and longitude texts, spelled out on the texts themselves. */
  lemma GgaFieldValues(lib: Numerics, latText: string, latDir: string, lonText: string, lonDir: string,
                       qualityText: string, altText: string)
    requires |latText| > 4 && |lonText| > 5
    ensures var r := GgaFromFields(lib, latText, latDir, lonText, lonDir, qualityText, altText);
      var latValue := lib.toDouble(latText[..2]) + lib.toDouble(latText[2..]) / 60.0;
      var lonValue := lib.toDouble(lonText[..3]) + lib.toDouble(lonText[3..]) / 60.0;
      && r.Some?
      && r.value.latitude == (if latDir == "S" then -latValue else latValue)
      && r.value.longitude == (if lonDir == "W" then -lonValue else lonValue)
      && r.value.altitude == lib.toDouble(altText)
      && r.value.quality == lib.toInt(qualityText)
  {
    assert DegreesMinutes(lib, latText, 2) == lib.toDouble(latText[..2]) + lib.toDouble(latText[2..]) / 60.0;
    assert DegreesMinutes(lib, lonText, 3) == lib.toDouble(lonText[..3]) + lib.toDouble(lonText[3..]) / 60.0;
  }

  /**
   * What an accepted GGA sentence does to the state: the decoded position,
   * altitude and quality are stored, the fix is valid exactly when the
   * quality is positive, the fix and the GNSS freshness stamp both read `now`,
   * the mirrored quality follows, and speed, course and velocity are untouched.
   */
  lemma AcceptedGgaSentence(st: FusionState, s: string, now: U32, lib: Numerics, unwritten: nat, fix: GgaFix)
    requires |s| >= MinSentenceLength && KindOf(s) == Gga
    requires ParseGga(s, lib, unwritten) == Some(fix)
    ensures var r := IngestSentence(st, s, now, lib, unwritten);
      && r.gnss.latitude == fix.latitude && r.gnss.longitude == fix.longitude
      && r.gnss.altitude == fix.altitude && r.gnss.quality == fix.quality
      && (r.gnss.valid <==> fix.quality > 0)
      && r.gnss.timestamp == now && r.status.lastGnssUpdate == now
      && r.status.gnssQuality == fix.quality
      && r.gnss.speed == st.gnss.speed && r.gnss.course == st.gnss.course
      && r.gnss.velocityNorth == st.gnss.velocityNorth && r.gnss.velocityEast == st.gnss.velocityEast
      && r.gnss.velocityDown == st.gnss.velocityDown
    ensures var r := IngestSentence(st, s, now, lib, unwritten);
      && (r.status.gnssValid <==> fix.quality > 0)
      && (r.status.fusionActive <==> fix.quality > 0 && Fresh(st.mt.valid, st.status.lastMtdata2Update, now))
  {
    assert WrappingSub(now, now) == 0;
  }

  /**
   * An RMC sentence, accepted or not, never touches position, altitude,
   * quality, validity, the fix timestamp or the GNSS freshness stamp: only GGA
   * keeps the GNSS source fresh.
   */
  lemma RmcNeverRefreshesPosition(st: FusionState, s: string, now: U32, lib: Numerics, unwritten: nat)
    requires KindOf(s) == Rmc
    ensures var r := IngestSentence(st, s, now, lib, unwritten);
      && r.gnss.latitude == st.gnss.latitude && r.gnss.longitude == st.gnss.longitude
      && r.gnss.altitude == st.gnss.altitude && r.gnss.quality == st.gnss.quality
      && r.gnss.valid == st.gnss.valid && r.gnss.timestamp == st.gnss.timestamp
      && r.status.lastGnssUpdate == st.status.lastGnssUpdate
  {
  }

  /**
   * An accepted RMC sentence with a ninth comma, read off the raw text: speed is
   * field 7 in knots times 0.514444, course is field 8, the north and east
   * components are speed times the cosine and sine of the course in radians,
   * and the down component is zero.
   */
  lemma {:induction false} AcceptedRmcSentence(st: FusionState, s: string, now: U32, lib: Numerics, unwritten: nat)
    requires |s| >= MinSentenceLength && KindOf(s) == Rmc
    requires |CommaIndices(s)| >= 9
    requires ParseRmc(s, lib, unwritten).Some?
    ensures var c := CommaIndices(s);
      var r := IngestSentence(st, s, now, lib, unwritten);
      && c[6] < c[7] < c[8] < |s|
      && var speed := lib.toDouble(s[c[6] + 1..c[7]]) * 0.514444;
      && var course := lib.toDouble(s[c[7] + 1..c[8]]);
      && r.gnss.speed == speed && r.gnss.course == course
      && r.gnss.velocityNorth == speed * lib.cos(course * Pi / 180.0)
      && r.gnss.velocityEast == speed * lib.sin(course * Pi / 180.0)
      && r.gnss.velocityDown == 0.0
  {
    FieldIsRawSlice(s, RmcCapacity, unwritten, 6);
    FieldIsRawSlice(s, RmcCapacity, unwritten, 7);
  }

  /**
   * What an accepted RMC sentence does to the state: speed and course are
   * stored, the north and east components are the speed times the cosine and
   * sine of the course in radians, the down component is zero, and nothing
   * else in the fix, nor the GNSS freshness stamp, changes.
   */
  lemma AcceptedRmcUpdate(st: FusionState, s: string, now: U32, lib: Numerics, unwritten: nat, fix: RmcFix)
    requires |s| >= MinSentenceLength && KindOf(s) == Rmc
    requires ParseRmc(s, lib, unwritten) == Some(fix)
    ensures var r := IngestSentence(st, s, now, lib, unwritten);
      && r.gnss == st.gnss.(speed := fix.speed, course := fix.course,
                            velocityNorth := fix.speed * lib.cos(fix.course * Pi / 180.0),
                            velocityEast := fix.speed * lib.sin(fix.course * Pi / 180.0),
                            velocityDown := 0.0)
      && r.status.lastGnssUpdate == st.status.lastGnssUpdate
  {
  }

  /** GGA reads only slots 0 to 9 of its buffer. */
  lemma GgaReadsFirstTenSlots(s: string, lib: Numerics, b1: seq<nat>, b2: seq<nat>)
    requires |b1| == |b2| == GgaCapacity && b1[..10] == b2[..10]
    ensures GgaFromFields(lib, Field(s, b1, 1), Field(s, b1, 2), Field(s, b1, 3), Field(s, b1, 4),
                          Field(s, b1, 5), Field(s, b1, 8))
         == GgaFromFields(lib, Field(s, b2, 1), Field(s, b2, 2), Field(s, b2, 3), Field(s, b2, 4),
                          Field(s, b2, 5), Field(s, b2, 8))
  {
    assert forall k :: 0 <= k < 10 ==> b1[k] == b1[..10][k] == b2[k];
    FieldCongruent(s, b1, b2, 1);
    FieldCongruent(s, b1, b2, 2);
    FieldCongruent(s, b1, b2, 3);
    FieldCongruent(s, b1, b2, 4);
    FieldCongruent(s, b1, b2, 5);
    FieldCongruent(s, b1, b2, 8);
  }

  /** GGA needs 10 recorded commas before it reads anything, so the unwritten slots never matter to it. */
  lemma GgaIgnoresUnwrittenSlots(s: string, lib: Numerics, u1: nat, u2: nat)
    ensures ParseGga(s, lib, u1) == ParseGga(s, lib, u2)
  {
    var c := FirstCommas(s, GgaCapacity);
    if |c| >= GgaMinCommas {
      var b1 := CommaBuffer(s, GgaCapacity, u1);
      var b2 := CommaBuffer(s, GgaCapacity, u2);
      assert b1[..10] == b2[..10] by {
        assert b1[..|c|] == c == b2[..|c|];
      }
      GgaReadsFirstTenSlots(s, lib, b1, b2);
    }
  }

  /** With a ninth comma recorded, RMC too reads only recorded slots. */
  lemma RmcWithNineCommasIgnoresUnwrittenSlots(s: string, lib: Numerics, u1: nat, u2: nat)
    requires |FirstCommas(s, RmcCapacity)| >= 9
    ensures ParseRmc(s, lib, u1) == ParseRmc(s, lib, u2)
  {
    var c := FirstCommas(s, RmcCapacity);
    var b1 := CommaBuffer(s, RmcCapacity, u1);
    var b2 := CommaBuffer(s, RmcCapacity, u2);
    assert forall k :: 0 <= k < 9 ==> b1[k] == c[k] == b2[k];
    assert Field(s, b1, 6) == Field(s, b2, 6) && Field(s, b1, 7) == Field(s, b2, 7);
  }

  /**
   * With exactly 8 commas RMC is accepted but its course field ends at buffer
   * slot 8, which the scan never wrote: the outcome depends on whatever that
   * slot held. If it holds the position just after the eighth comma the course
   * text is empty and the sentence is dropped; if it holds the sentence length
   * the course is the text after the eighth comma.
   */
  lemma {:induction false} RmcWithEightCommasReadsUnwrittenSlot(s: string, lib: Numerics)
    requires |CommaIndices(s)| == 8
    ensures var c := CommaIndices(s);
      && c[7] < |s|
      && ParseRmc(s, lib, c[7] + 1) == None
      && (c[6] + 1 < c[7] && c[7] + 1 < |s| ==>
            ParseRmc(s, lib, |s|) == Some(RmcFix(lib.toDouble(s[c[6] + 1..c[7]]) * KnotsToMetresPerSecond,
                                                 lib.toDouble(s[c[7] + 1..]))))
  {
    var c := CommaIndices(s);
    BufferSlotsAreCommas(s, RmcCapacity, 0, 8);
    assert FirstCommas(s, RmcCapacity) == c;
    var b1 := CommaBuffer(s, RmcCapacity, c[7] + 1);
    assert b1[7] == c[7] && b1[8] == c[7] + 1;
    var b2 := CommaBuffer(s, RmcCapacity, |s|);
    assert b2[6] == c[6] && b2[7] == c[7] && b2[8] == |s|;
  }

  /** A sentence of 10 or more characters with neither tag still runs the gate. */
  lemma UnrecognisedSentenceRunsGate(st: FusionState, s: string, now: U32, lib: Numerics, unwritten: nat)
    requires |s| >= MinSentenceLength && KindOf(s) == Unrecognised
    ensures IngestSentence(st, s, now, lib, unwritten) == st.(status := RecomputeStatus(st, now))
  {
  }

  /**
   * Fusion is never active right after one source updates while the other is
   * stale: a sentence cannot revive a stale attitude source, nor an attitude
   * sample a stale GNSS source.
   */
  lemma OneFreshSourceIsNotEnough(st: FusionState, s: string, quat: Quaternion, omg: Vector3, acc: Vector3,
                                  ori: Vector3, timestamp: U32, now: U32, lib: Numerics, unwritten: nat)
    requires |s| >= MinSentenceLength
    ensures !Fresh(st.mt.valid, st.status.lastMtdata2Update, now) ==>
      !IngestSentence(st, s, now, lib, unwritten).status.fusionActive
    ensures !Fresh(st.gnss.valid, st.status.lastGnssUpdate, now) ==>
      !IngestAttitude(st, quat, omg, acc, ori, timestamp, now).status.fusionActive
  {
  }

  /**
   * Once 2000 ms or more have passed since the GNSS or the attitude source's
   * last update (less than a full clock turn), a status query reports that
   * source stale and fusion inactive,
   * and changes no stored data.
   */
  lemma QueryAfterWindowReportsStale(st: FusionState, d: nat)
    requires FreshnessWindowMs <= d < TwoTo32
    ensures var (snapshot, r) := QueryStatus(st, (st.status.lastGnssUpdate + d) % TwoTo32);
      !snapshot.gnssValid && !snapshot.fusionActive && r.gnss == st.gnss && r.mt == st.mt
    ensures var (snapshot, r) := QueryStatus(st, (st.status.lastMtdata2Update + d) % TwoTo32);
      !snapshot.mtdata2Valid && !snapshot.fusionActive && r.gnss == st.gnss && r.mt == st.mt
  {
    FreshIffWithinWindow(st.gnss.valid, st.status.lastGnssUpdate, d);
    FreshIffWithinWindow(st.mt.valid, st.status.lastMtdata2Update, d);
  }

  /**
   * A send trusts the cached fusion flag: with the flag set it emits even when
   * the gate, rerun at the time of the send, would find the GNSS source stale.
   */
  lemma SendDoesNotRecheckFreshness(st: FusionState, now: U32)
    requires st.status.fusionActive
    requires WrappingSub(now, st.status.lastGnssUpdate) >= FreshnessWindowMs
    ensures EmitOdometry(st, now).0.Some?
    ensures !RecomputeStatus(st, now).fusionActive
  {
  }

  /**
   * A send leaves the cached fusion flag set, so a second send with no input
   * in between also emits, the same record, and both counters rise again.
   */
  lemma {:induction false} SendKeepsFusionActive(st: FusionState, t1: U32, t2: U32)
    requires st.status.fusionActive
    ensures var (first, mid) := EmitOdometry(st, t1);
      var (second, r) := EmitOdometry(mid, t2);
      && mid.status.fusionActive
      && first.Some? && second == first
      && r.status.fusionCount == st.status.fusionCount + 2
      && r.status.mavlinkSendCount == st.status.mavlinkSendCount + 2
      && r.status.lastFusionSend == t2
  {
    var mid := EmitOdometry(st, t1).1;
    assert mid.gnss == st.gnss && mid.mt == st.mt;
  }

  /**
   * Attitude and send after a fresh fix: if the GNSS source is valid and was
   * stamped less than 2000 ms before `now`, an attitude sample at `now` makes
   * fusion active and the send that follows emits the record built from the
   * fix and that sample.
   */
  lemma {:induction false} AttitudeThenSend(st: FusionState, quat: Quaternion, omg: Vector3, acc: Vector3,
                                           ori: Vector3, timestamp: U32, now: U32)
    requires st.gnss.valid && WrappingSub(now, st.status.lastGnssUpdate) < FreshnessWindowMs
    ensures var (emitted, r) := EmitOdometry(IngestAttitude(st, quat, omg, acc, ori, timestamp, now), now);
      && emitted == Some(BuildOdometry(st.gnss, MtData2(quat, omg, acc, ori, timestamp, true)))
      && r.status.fusionCount == st.status.fusionCount + 1
      && r.status.mavlinkSendCount == st.status.mavlinkSendCount + 1
  {
    assert WrappingSub(now, now) == 0;
  }

  /**
   * A GGA fix with positive quality, an RMC velocity and then an attitude
   * sample taken less than 2000 ms after the fix make the next send succeed,
   * and the record it emits carries the fix, the velocity and the sample field
   * for field, with the position variance chosen by the fix's quality.
   */
  lemma {:induction false} FreshInputsReachTheRecord(
    st0: FusionState, gga: string, rmc: string, lib: Numerics, unwritten: nat, fix: GgaFix, vel: RmcFix,
    quat: Quaternion, omg: Vector3, acc: Vector3, ori: Vector3, timestamp: U32, t1: U32, t2: U32, t3: U32)
    requires |gga| >= MinSentenceLength && KindOf(gga) == Gga && ParseGga(gga, lib, unwritten) == Some(fix)
    requires fix.quality > 0
    requires |rmc| >= MinSentenceLength && KindOf(rmc) == Rmc && ParseRmc(rmc, lib, unwritten) == Some(vel)
    requires WrappingSub(t3, t1) < FreshnessWindowMs
    ensures var st2 := IngestSentence(IngestSentence(st0, gga, t1, lib, unwritten), rmc, t2, lib, unwritten);
      var (emitted, st4) := EmitOdometry(IngestAttitude(st2, quat, omg, acc, ori, timestamp, t3), t3);
      && emitted.Some?
      && var rec := emitted.value;
      && rec.x == fix.latitude && rec.y == fix.longitude && rec.z == -fix.altitude
      && rec.vx == vel.speed * lib.cos(vel.course * Pi / 180.0)
      && rec.vy == vel.speed * lib.sin(vel.course * Pi / 180.0)
      && rec.vz == 0.0
      && rec.q == quat && [rec.rollspeed, rec.pitchspeed, rec.yawspeed] == omg
      && rec.timeUsec == timestamp * 100
      && rec.poseCovariance[0] == PositionVariance(fix.quality)
      && st4.status.fusionCount == st0.status.fusionCount + 1
      && st4.status.mavlinkSendCount == st0.status.mavlinkSendCount + 1
  {
    var st1 := IngestSentence(st0, gga, t1, lib, unwritten);
    AcceptedGgaSentence(st0, gga, t1, lib, unwritten, fix);
    var st2 := IngestSentence(st1, rmc, t2, lib, unwritten);
    AcceptedRmcUpdate(st1, rmc, t2, lib, unwritten, vel);
    AttitudeThenSend(st2, quat, omg, acc, ori, timestamp, t3);
    var g := st2.gnss;
    assert g.latitude == fix.latitude && g.longitude == fix.longitude && g.altitude == fix.altitude;
    assert g.quality == fix.quality;
  }
}
