/**
 * The state declared in `gnss_ahrs_fusion.h`: the three plain structs the
 * fusion object owns (`FusionStatus`, `GNSSData`, `MTData2`) with their member
 * initialisers. Floating-point members are modelled as reals; the embedded C
 * arrays of `MTData2` are fixed-length sequences, since they are stored by
 * value inside the struct.
 */
module FusionTypes {
  import opened ArduinoRuntime

  /** `float quaternion[4]`, scalar first. */
  type Quaternion = q: seq<real> | |q| == 4 witness [1.0, 0.0, 0.0, 0.0]

  /** `float v[3]`, the shape of angular velocity, acceleration and orientation. */
  type Vector3 = v: seq<real> | |v| == 3 witness [0.0, 0.0, 0.0]

  datatype FusionStatus = FusionStatus(
    gnssValid: bool,
    mtdata2Valid: bool,
    fusionActive: bool,
    mavlinkSent: bool,
    lastGnssUpdate: U32,
    lastMtdata2Update: U32,
    lastFusionSend: U32,
    gnssQuality: int,
    fusionCount: nat,
    mavlinkSendCount: nat)

  datatype GnssData = GnssData(
    latitude: real,
    longitude: real,
    altitude: real,
    velocityNorth: real,
    velocityEast: real,
    velocityDown: real,
    course: real,
    speed: real,
    quality: int,
    valid: bool,
    timestamp: U32)

  datatype MtData2 = MtData2(
    quaternion: Quaternion,
    angularVelocity: Vector3,
    acceleration: Vector3,
    orientation: Vector3,
    timestamp: U32,
    valid: bool)

  /** The three structs together: everything the fusion object's methods read or write. */
  datatype FusionState = FusionState(gnss: GnssData, mt: MtData2, status: FusionStatus)

  const DefaultStatus: FusionStatus :=
    FusionStatus(false, false, false, false, 0, 0, 0, 0, 0, 0)

  const DefaultGnssData: GnssData :=
    GnssData(0.0, 0.0, 0.0, 0.0, 0.0, 0.0, 0.0, 0.0, 0, false, 0)

  const DefaultMtData2: MtData2 :=
    MtData2([1.0, 0.0, 0.0, 0.0], [0.0, 0.0, 0.0], [0.0, 0.0, 0.0], [0.0, 0.0, 0.0], 0, false)

  const InitialState: FusionState := FusionState(DefaultGnssData, DefaultMtData2, DefaultStatus)
}
