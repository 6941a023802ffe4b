/**
 * The record-building part of `GNSSAHRSFusion::sendMAVLinkOdometry`: the
 * MAVLink ODOMETRY message (message #331 of the MAVLink common message set)
 * filled from the current GNSS fix and attitude sample.
 */
module Odometry {
  import opened ArduinoRuntime
  import opened FusionTypes

  /** MAV_FRAME_GLOBAL and MAV_FRAME_LOCAL_NED. */
  const MavFrameGlobal: nat := 0
  const MavFrameLocalNed: nat := 1

  /** MAV_ESTIMATOR_TYPE_GPS. */
  const MavEstimatorTypeGps: nat := 4

  /** Entries in each of the two covariance arrays: the upper triangle of a 6x6 matrix. */
  const CovarianceLength: nat := 21

  /** The GGA quality code the source treats as RTK, and the position variances it picks. */
  const RtkQuality: int := 2
  const RtkPositionVariance: real := 1.0
  const StandardPositionVariance: real := 5.0
  const VelocityVariance: real := 0.1

  /** The three covariance slots the source writes. */
  const FirstSlot: nat := 0
  const SecondSlot: nat := 7
  const ThirdSlot: nat := 14

  /** The fields of `mavlink_odometry_t` that the source sets (the record starts zeroed). */
  datatype OdometryRecord = OdometryRecord(
    timeUsec: nat,
    frameId: nat,
    childFrameId: nat,
    x: real,
    y: real,
    z: real,
    vx: real,
    vy: real,
    vz: real,
    q: Quaternion,
    rollspeed: real,
    pitchspeed: real,
    yawspeed: real,
    poseCovariance: seq<real>,
    velocityCovariance: seq<real>,
    resetCounter: nat,
    estimatorType: nat)

  /** A zeroed covariance array with `variance` written to slots 0, 7 and 14. */
  function CovarianceSlots(variance: real): (r: seq<real>)
    ensures |r| == CovarianceLength
    ensures forall i :: 0 <= i < |r| ==>
      r[i] == (if i == FirstSlot || i == SecondSlot || i == ThirdSlot then variance else 0.0)
  {
    seq(CovarianceLength, _ => 0.0)[FirstSlot := variance][SecondSlot := variance][ThirdSlot := variance]
  }

  /** The position variance: low for the RTK quality code, high otherwise. */
  function PositionVariance(quality: int): (v: real)
    ensures v == RtkPositionVariance <==> quality == RtkQuality
    ensures v == StandardPositionVariance <==> quality != RtkQuality
  {
    if quality == RtkQuality then RtkPositionVariance else StandardPositionVariance
  }

  /**
   * The odometry record for a fix and an attitude sample: position from the
   * fix with altitude negated for NED, velocity from the fix, attitude and
   * body rates copied from the sample, the sample's timestamp times 100, and
   * covariances chosen by the fix's quality code.
   */
  function BuildOdometry(g: GnssData, m: MtData2): (r: OdometryRecord)
    ensures r.timeUsec == m.timestamp * 100 && r.timeUsec < TwoTo64
    ensures r.frameId == MavFrameGlobal && r.childFrameId == MavFrameLocalNed
    ensures r.x == g.latitude && r.y == g.longitude && r.z == -g.altitude
    ensures r.vx == g.velocityNorth && r.vy == g.velocityEast && r.vz == g.velocityDown
    ensures r.q == m.quaternion
    ensures [r.rollspeed, r.pitchspeed, r.yawspeed] == m.angularVelocity
    ensures r.resetCounter == 0 && r.estimatorType == MavEstimatorTypeGps
  {
    OdometryRecord(
      timeUsec := m.timestamp * 100,
      frameId := MavFrameGlobal,
      childFrameId := MavFrameLocalNed,
      x := g.latitude,
      y := g.longitude,
      z := -g.altitude,
      vx := g.velocityNorth,
      vy := g.velocityEast,
      vz := g.velocityDown,
      q := [m.quaternion[0], m.quaternion[1], m.quaternion[2], m.quaternion[3]],
      rollspeed := m.angularVelocity[0],
      pitchspeed := m.angularVelocity[1],
      yawspeed := m.angularVelocity[2],
      poseCovariance := CovarianceSlots(PositionVariance(g.quality)),
      velocityCovariance := CovarianceSlots(VelocityVariance),
      resetCounter := 0,
      estimatorType := MavEstimatorTypeGps)
  }

  /**
   * Covariance contents of the record: slots 0, 7 and 14 of the pose array hold
   * 1.0 exactly when the quality code is 2 (else 5.0), the same slots of the
   * velocity array hold 0.1, and every other entry of both arrays is zero.
   */
  lemma CovarianceByQuality(g: GnssData, m: MtData2, i: nat)
    requires i < CovarianceLength
    ensures var r := BuildOdometry(g, m);
      && |r.poseCovariance| == CovarianceLength && |r.velocityCovariance| == CovarianceLength
      && (i == 0 || i == 7 || i == 14 ==>
            (r.poseCovariance[i] == 1.0 <==> g.quality == 2)
            && (r.poseCovariance[i] == 5.0 <==> g.quality != 2)
            && r.velocityCovariance[i] == 0.1)
      && (i != 0 && i != 7 && i != 14 ==> r.poseCovariance[i] == 0.0 && r.velocityCovariance[i] == 0.0)
  {
  }

  /**
   * Index of entry (row, col), row <= col, of a symmetric 6x6 matrix in
   * MAVLink's 21-entry covariance layout: the upper triangle, row by row.
   */
  function UpperTriangleIndex(row: nat, col: nat): (i: nat)
    requires row <= col < 6
    ensures i == [0, 6, 11, 15, 18, 20][row] + col - row
    ensures i < CovarianceLength
    decreases row
  {
    if row == 0 then col else 7 - row + UpperTriangleIndex(row - 1, col - 1)
  }

  /**
   * The slots the source fills are not the diagonal of that layout: slot 7 is
   * the (1, 2) entry and slot 14 the (2, 5) entry, so the record reports zero
   * variance on the y and z diagonal entries (1, 1) and (2, 2), for position
   * and for velocity alike.
   */
  lemma {:induction false} CovarianceSlotsAreOffDiagonal(g: GnssData, m: MtData2)
    ensures UpperTriangleIndex(0, 0) == FirstSlot
    ensures UpperTriangleIndex(1, 2) == SecondSlot
    ensures UpperTriangleIndex(2, 5) == ThirdSlot
    ensures var r := BuildOdometry(g, m);
      && r.poseCovariance[UpperTriangleIndex(1, 1)] == 0.0
      && r.poseCovariance[UpperTriangleIndex(2, 2)] == 0.0
      && r.velocityCovariance[UpperTriangleIndex(1, 1)] == 0.0
      && r.velocityCovariance[UpperTriangleIndex(2, 2)] == 0.0
  {
    assert UpperTriangleIndex(1, 1) == 6 by {
      assert UpperTriangleIndex(0, 0) == 0;
    }
    assert UpperTriangleIndex(2, 2) == 11 by {
      assert UpperTriangleIndex(1, 1) == 6 by { assert UpperTriangleIndex(0, 0) == 0; }
    }
    assert UpperTriangleIndex(1, 2) == 7 by {
      assert UpperTriangleIndex(0, 1) == 1;
    }
    assert UpperTriangleIndex(2, 5) == 14 by {
      assert UpperTriangleIndex(1, 4) == 9 by { assert UpperTriangleIndex(0, 3) == 3; }
    }
  }

  /**
   * The record reads nothing else: two states that agree on the fix's
   * position, velocity and quality and on the sample's quaternion, angular
   * velocity and timestamp produce the same record, whatever their speed,
   * course, acceleration, orientation and validity flags.
   */
  lemma RecordDependsOnlyOnMappedFields(g1: GnssData, m1: MtData2, g2: GnssData, m2: MtData2)
    requires g1.latitude == g2.latitude && g1.longitude == g2.longitude && g1.altitude == g2.altitude
    requires g1.velocityNorth == g2.velocityNorth && g1.velocityEast == g2.velocityEast
    requires g1.velocityDown == g2.velocityDown && g1.quality == g2.quality
    requires m1.quaternion == m2.quaternion && m1.angularVelocity == m2.angularVelocity
    requires m1.timestamp == m2.timestamp
    ensures BuildOdometry(g1, m1) == BuildOdometry(g2, m2)
  {
  }
}
