# GNSS/AHRS fusion: a verified model

This project models `GNSSAHRSFusion`, the sensor-fusion component of an Arduino
flight-electronics firmware. It receives two kinds of input:

- NMEA 0183 position sentences (GGA) and course/speed sentences (RMC) from a
  GNSS receiver;
- attitude samples (MTDATA2: a quaternion, angular velocity, acceleration and
  Euler orientation) from an AHRS unit.

Each input passes through a freshness gate. A source counts only when its own
validity flag is set and it was updated less than 2000 ms ago on the wrapping
32-bit `millis()` clock; fusion is active only when both sources count. While
fusion is active, each send builds a MAVLink ODOMETRY record (message #331 of
the MAVLink common message set) from the stored fix and sample, and moves the
fusion and send counters.

The project is organised as follows:

- `runtime.dfy`: the pieces of the Arduino runtime the code relies on.
  - `U32` models `unsigned long`, and `WrappingSub` models subtraction on it.
  - `StartsWith` and `Substring` model the Arduino `String` methods, including
    the bound swapping and clamping of `substring`.
  - A `Numerics` value carries `toDouble`, `toInt`, `cos` and `sin`
    uninterpreted: every result holds for any choice of those four functions.
- `nmea.dfy`: the sentence side of `updateGNSSData`.
  - Tag dispatch.
  - The comma scan into a fixed-size buffer, as a method with a loop proved
    against `CommaBuffer`. Slots the scan never writes keep an `unwritten`
    value, because the C array is uninitialised.
  - Positional field cutting with Arduino `substring` semantics.
  - GGA and RMC decoding.
- `fusion_types.dfy`: the three structs and their default values.
- `freshness.dfy`: the freshness gate as a function on the state.
- `odometry.dfy`: the ODOMETRY record built from the fix and the sample.
- `fusion_spec.dfy`:
  - one function per public operation, from the old state to the new one;
  - the `Consistent` invariant;
  - the lemmas showing every operation keeps it.
- `fusion_properties.dfy`: the properties the code promises, and the
  behaviours it has that a reader might not expect, stated on the raw text of
  the sentences.
- `fusion.dfy`: the class `GnssAhrsFusion`.
  - Its fields `gnssData`, `mtdata2Data`, `status` and `debugEnabled` are
    updated in place, in the order the C++ methods update them.
  - The constructor and the public methods that change fusion state
    (`UpdateGnssData`, `UpdateMtData2`, `ProcessFusion`, `SendMavlinkOdometry`,
    `GetFusionStatus`, `PrintDetailedStatus`, `RunDiagnostics`) are proved to
    leave `State()` equal to their `FusionSpec` function and to keep `Valid()`.
  - `SetDebugMode` leaves `State()` unchanged. The private `UpdateFusionStatus`
    is proved against `Freshness.RecomputeStatus`. The private `IsDataReady`
    returns the cached fusion flag.
  - The helpers `DecodeGga` and `DecodeRmc` are proved against the GGA and RMC
    cases of `DecodeSentence`. `StoreGgaFix` and `StoreRmcFix` are proved
    against `ApplyGga` and `ApplyRmc` on the fix, plus the status they leave.

The clock `millis()` is a parameter `now` of each operation that reads it. The
serial port of `sendMAVLinkOdometry` is replaced by the record the method
returns.

## Model

| member | source | states |
|---|---|---|
| ArduinoRuntime.WrappingSub | gnss_ahrs_fusion.cpp:168-169 | `now - last` on `unsigned long` is the difference modulo 2^32. Adding it back to `last` gives `now`. It is the plain difference when `last <= now`, and the difference plus 2^32 otherwise. |
| ArduinoRuntime.ElapsedAcrossRollover | gnss_ahrs_fusion.cpp:168-169 | The age the gate measures is the true delay for any delay below one clock turn, even when `millis()` rolled over in between. |
| ArduinoRuntime.StartsWith | gnss_ahrs_fusion.cpp:37 | `startsWith(prefix)` holds iff the prefix fits in the string and equals its first characters. |
| ArduinoRuntime.Substring | gnss_ahrs_fusion.cpp:54-65 | `substring(l, r)` is the slice `[l, r)` when `l <= r <= length`. With reversed bounds it is the slice `[r, l)`, and `[r, end)` when only `l` is past the end. It is empty when both bounds are past the end, and clamped to the end when only `r` is. It is never longer than the string. |
| Nmea.KindOf | gnss_ahrs_fusion.cpp:37-97 | A sentence is GGA iff it starts with `$GNGGA` or `$GPGGA`. It is RMC iff it has neither GGA tag and starts with `$GNRMC` or `$GPRMC`. |
| Nmea.CommaIndicesExact | gnss_ahrs_fusion.cpp:45-50 | The scan's reference list of comma positions is exact. Every entry indexes a `','`, the entries strictly increase, and no comma is missed. |
| Nmea.ScanCommas | gnss_ahrs_fusion.cpp:41-50 | The comma-scan loop stops at the end of the sentence or when the buffer is full. It records the first `capacity` commas (15 for GGA, 12 for RMC) in order, and its count is their number, at most `capacity`. The slots it did not write keep their prior contents. |
| Nmea.FieldIsCommaFreeSlice | gnss_ahrs_fusion.cpp:54-65 | Between two recorded neighbouring commas, the extracted field is exactly the raw text between them, and that text holds no comma. |
| Nmea.DegreesMinutes | gnss_ahrs_fusion.cpp:69-77 | For a text at least as long as its degree digits, the value is the leading digits read as degrees plus the rest read as minutes over 60. |
| Nmea.Hemisphere | gnss_ahrs_fusion.cpp:72-78 | The coordinate keeps its magnitude. A positive magnitude becomes negative iff the hemisphere field equals the negative letter exactly. |
| Nmea.GgaFromFields | gnss_ahrs_fusion.cpp:67-82 | The extracted fields are accepted iff the latitude text is longer than 4 characters and the longitude text longer than 5. An accepted fix has the converted altitude and quality texts. `FusionProperties.GgaFieldValues` gives latitude and longitude. |
| Nmea.ParseGga | gnss_ahrs_fusion.cpp:52-84 | A decoded GGA sentence has at least 10 commas. With 10 commas recorded, it is accepted iff fields 2 and 4 pass the length guards. `FusionProperties.GgaAcceptance` states the same on raw comma positions. |
| Nmea.RmcFromFields | gnss_ahrs_fusion.cpp:115-117 | The extracted fields are accepted iff speed and course are both non-empty. Speed is the knots value times 0.514444 and course is the converted course text. |
| Nmea.ParseRmc | gnss_ahrs_fusion.cpp:110-117 | A decoded RMC sentence has at least 8 commas. With 8 commas recorded, it is accepted iff the fields at buffer gaps 6 and 7 are both non-empty. |
| Nmea.ParseGgaReadsBuffer | gnss_ahrs_fusion.cpp:52-65 | GGA is rejected with fewer than 10 commas. Otherwise the decoded fix is determined by buffer fields 1 to 5 and 8 alone. |
| Nmea.ParseRmcReadsBuffer | gnss_ahrs_fusion.cpp:110-113 | RMC is rejected with fewer than 8 commas. Otherwise the decoded fix is determined by buffer fields 6 and 7 alone. |
| Freshness.Fresh | gnss_ahrs_fusion.cpp:168-169 | A fresh source is a valid one. A source stamped at `now` is fresh iff it is valid. `FreshIffWithinWindow` gives the 2000 ms window. |
| Freshness.RecomputeStatus | gnss_ahrs_fusion.cpp:164-173 | Each freshness flag holds iff the source is valid and its wrapping age is below 2000. `fusion_active` holds iff both flags hold. `gnss_quality` mirrors the fix. Timestamps, the sent flag and both counters are carried over unchanged. |
| Freshness.GateIdempotent | gnss_ahrs_fusion.cpp:164-173 | Running the gate twice at the same time gives the same status as running it once. |
| Freshness.FreshIffWithinWindow | gnss_ahrs_fusion.cpp:168-169 | A source updated `d` ms ago, with `d` under one clock turn, is fresh iff it is valid and `d < 2000`, across a clock rollover too. |
| Freshness.StaleSourceAliasesAfterFullTurn | gnss_ahrs_fusion.cpp:168-169 | A valid source last updated 2^32 + d ms ago, with d < 2000, is reported fresh again. The wrapping clock cannot tell such a source from a recent one. |
| Odometry.CovarianceSlots | gnss_ahrs_fusion.cpp:242-249 | A covariance array has 21 entries. Slots 0, 7 and 14 hold the variance and every other slot holds zero. |
| Odometry.PositionVariance | gnss_ahrs_fusion.cpp:237 | The position variance is 1.0 iff the quality code is 2 (RTK), and 5.0 iff it is not. |
| Odometry.BuildOdometry | gnss_ahrs_fusion.cpp:206-253 | The record's fields: `time_usec` is the sample timestamp times 100, which fits in 64 bits. The frames are GLOBAL and LOCAL_NED. Position is lat, lon and negated altitude, and velocity is the fix's N/E/D components. The quaternion and body rates are copied positionally. `reset_counter` is 0 and the estimator is GPS. |
| Odometry.CovarianceByQuality | gnss_ahrs_fusion.cpp:237-249 | Pose slots 0, 7 and 14 are 1.0 iff the quality code is 2, and 5.0 iff it is not. The same velocity slots are 0.1. Every other entry of both arrays is zero. |
| Odometry.UpperTriangleIndex | gnss_ahrs_fusion.cpp:242-249 | Gives the index of entry (row, col) in MAVLink's 21-entry row-major upper-triangle covariance layout, as a closed form, always below 21. The written slots are compared against this layout. |
| Odometry.CovarianceSlotsAreOffDiagonal | gnss_ahrs_fusion.cpp:242-249 | Slots 0, 7 and 14 are entries (0,0), (1,2) and (2,5) of the layout, not the diagonal. The record carries zero on the diagonal entries (1,1) and (2,2) of both arrays. |
| Odometry.RecordDependsOnlyOnMappedFields | gnss_ahrs_fusion.cpp:206-253 | The record reads only position, velocity and quality from the fix, and only the quaternion, angular velocity and timestamp from the sample. |
| FusionSpec.ApplyGga | gnss_ahrs_fusion.cpp:71-86 | An accepted GGA fix changes only position, altitude, quality, validity and the fix timestamp. The fix is valid iff its quality is positive, and its timestamp is `now`. |
| FusionSpec.ApplyRmc | gnss_ahrs_fusion.cpp:116-123 | An accepted RMC fix changes only speed, course and the three velocity components. Speed and course are the decoded ones and the down component is 0. |
| FusionSpec.DecodeSentence | gnss_ahrs_fusion.cpp:37-131 | Decoding never touches the attitude sample, and it changes at most `last_gnss_update` in the status. An RMC sentence leaves the status alone and an unrecognised one changes nothing. `GgaSentenceDecodes` and `RmcSentenceDecodes` give the GGA and RMC cases. |
| FusionSpec.GgaSentenceDecodes | gnss_ahrs_fusion.cpp:52-86 | A GGA sentence either changes nothing (rejected) or applies the whole decoded fix and stamps the GNSS source. There are no partial writes. |
| FusionSpec.RmcSentenceDecodes | gnss_ahrs_fusion.cpp:110-123 | An RMC sentence either changes nothing (rejected) or applies speed, course and velocity. There are no partial writes. |
| FusionSpec.IngestSentence | gnss_ahrs_fusion.cpp:33-134 | A sentence shorter than 10 characters changes nothing, not even the status. After any longer sentence, GGA, RMC or unrecognised, the status is the gate's result on the new data at `now`. No sentence touches the attitude sample, the counters, the sent flag or the send and attitude stamps. |
| FusionSpec.IngestAttitude | gnss_ahrs_fusion.cpp:137-161 | The stored sample becomes the given one, marked valid. The attitude stamp is `now`. The status is then the gate's result at `now`, so the attitude source is fresh whatever the GNSS source is. The GNSS data, the GNSS stamp, the counters and the sent flag are unchanged. |
| FusionSpec.FusionStep | gnss_ahrs_fusion.cpp:187-197 | The step succeeds iff the cached `fusion_active` flag is set. On success only `fusion_count` changes, by +1. On refusal nothing changes. |
| FusionSpec.EmitOdometry | gnss_ahrs_fusion.cpp:200-279 | A record is emitted iff fusion is active, and a refusal changes nothing. When emitted, the record is built from the stored fix and sample. Both counters then rise by exactly 1, `mavlink_sent` is set and `last_fusion_send` is `now`. Nothing else changes, including the cached freshness and fusion flags. |
| FusionSpec.InitialStateConsistent | src/core/gnss_ahrs_fusion.h:9-45 | The default-initialised state satisfies the invariant. In it fusion is inactive and neither source is valid. |
| FusionSpec.IngestSentenceKeepsConsistent | gnss_ahrs_fusion.cpp:33-134 | Sentence ingestion keeps the invariant. `fusion_active` is the conjunction of the fresh flags, and each fresh flag implies its source is valid. The quality is mirrored, and the fix is valid iff its quality is positive. `mavlink_send_count <= fusion_count`, and `mavlink_sent` holds iff the send count is positive. |
| FusionSpec.IngestAttitudeKeepsConsistent | gnss_ahrs_fusion.cpp:137-161 | Attitude ingestion keeps the invariant. |
| FusionSpec.FusionStepKeepsConsistent | gnss_ahrs_fusion.cpp:187-197 | A fusion step keeps the invariant, including `mavlink_send_count <= fusion_count`. |
| FusionSpec.EmitOdometryKeepsConsistent | gnss_ahrs_fusion.cpp:200-279 | A send keeps the invariant, including `mavlink_send_count <= fusion_count` and `mavlink_sent` iff at least one record was sent. |
| FusionSpec.QueryStatus | gnss_ahrs_fusion.cpp:282-285 | The snapshot is the gate's result at `now`, and the stored status becomes that snapshot. Nothing else changes. |
| FusionSpec.QueryTwiceSameSnapshot | gnss_ahrs_fusion.cpp:282-285 | Querying twice at the same time returns the same snapshot and state as querying once. |
| FusionProperties.BufferSlotsAreCommas | gnss_ahrs_fusion.cpp:41-50 | The recorded buffer slots are the sentence's commas, in strictly increasing order, each inside the sentence and indexing a `','`. |
| FusionProperties.FieldIsRawSlice | gnss_ahrs_fusion.cpp:54-65 | Field k cut from the buffer is the raw text between comma k and comma k+1. |
| FusionProperties.GgaAcceptance | gnss_ahrs_fusion.cpp:52-67 | A GGA sentence is accepted iff three conditions hold: it has at least 10 commas, its latitude field is longer than 4 characters, and its longitude field is longer than 5. The lengths are measured on the raw comma positions. |
| FusionProperties.RejectedGgaLeavesFix | gnss_ahrs_fusion.cpp:52-133 | A rejected GGA sentence leaves every field of the fix and `last_gnss_update` unchanged. When it has 10 or more characters, its only effect is the gate rerun at `now`. |
| FusionProperties.GgaFieldValues | gnss_ahrs_fusion.cpp:67-84 | Latitude is the first 2 characters as degrees plus the rest over 60, negated iff the hemisphere field is exactly `S`. Longitude is the same with 3 degree digits and `W`. Altitude and quality are the converted field texts. |
| FusionProperties.AcceptedGgaSentence | gnss_ahrs_fusion.cpp:69-133 | An accepted GGA sentence stores the decoded position, altitude and quality. The fix is valid iff quality > 0, and the fix timestamp and `last_gnss_update` are both `now`. Speed, course and velocity are untouched. The gate then reports GNSS fresh iff quality > 0, and fusion active iff that holds and the attitude source is fresh. |
| FusionProperties.RmcNeverRefreshesPosition | gnss_ahrs_fusion.cpp:110-123 | Accepted or not, an RMC sentence never changes latitude, longitude, altitude, quality, validity, the fix timestamp or `last_gnss_update`. Only GGA keeps the GNSS source fresh. |
| FusionProperties.AcceptedRmcSentence | gnss_ahrs_fusion.cpp:112-123 | With nine commas, speed is field 7 of the raw text times 0.514444 and course is field 8. The north and east components are speed times the cosine and sine of the course in radians, and the down component is 0. |
| FusionProperties.AcceptedRmcUpdate | gnss_ahrs_fusion.cpp:115-123 | An accepted RMC sentence changes only speed, course and the three velocity components of the fix, and not `last_gnss_update`. |
| FusionProperties.GgaReadsFirstTenSlots | gnss_ahrs_fusion.cpp:54-65 | GGA decoding reads only comma slots 0 to 9. |
| FusionProperties.GgaIgnoresUnwrittenSlots | gnss_ahrs_fusion.cpp:41-65 | The GGA outcome never depends on the uninitialised buffer slots. |
| FusionProperties.RmcWithNineCommasIgnoresUnwrittenSlots | gnss_ahrs_fusion.cpp:100-113 | With a ninth comma recorded, the RMC outcome does not depend on the uninitialised buffer slots. |
| FusionProperties.RmcWithEightCommasReadsUnwrittenSlot | gnss_ahrs_fusion.cpp:110-113 | With exactly 8 commas, RMC is accepted but the end of its course field is the never-written slot 8. One garbage value drops the sentence. Another decodes the text after the eighth comma as the course. |
| FusionProperties.UnrecognisedSentenceRunsGate | gnss_ahrs_fusion.cpp:133 | A sentence of 10 or more characters with neither tag still reruns the freshness gate, and changes nothing else. |
| FusionProperties.OneFreshSourceIsNotEnough | gnss_ahrs_fusion.cpp:164-172 | Fusion is never active right after one source updates while the other is stale. |
| FusionProperties.QueryAfterWindowReportsStale | gnss_ahrs_fusion.cpp:164-173 | Querying 2000 ms or more (under one clock turn) after the last GNSS update reports GNSS invalid and fusion inactive. The same holds for the attitude source after its last update. Neither query changes stored data. |
| FusionProperties.SendDoesNotRecheckFreshness | gnss_ahrs_fusion.cpp:182-201 | With the cached flag set, a send emits a record even when the gate, rerun at the send time, would find the GNSS source stale. |
| FusionProperties.SendKeepsFusionActive | gnss_ahrs_fusion.cpp:187-267 | A send leaves the cached fusion flag set. A second send with no input in between emits the same record, and both counters rise by 2 in all. |
| FusionProperties.AttitudeThenSend | gnss_ahrs_fusion.cpp:137-201 | After a fresh valid fix, an attitude sample makes the next send succeed. It emits the record built from the fix and that sample, and both counters rise by 1. |
| FusionProperties.FreshInputsReachTheRecord | gnss_ahrs_fusion.cpp:33-253 | Take a GGA fix with positive quality, an RMC velocity, then an attitude sample within 2000 ms of the fix. The next send succeeds. Its record carries the fix, the velocity and the sample field for field, with the pose variance chosen by the quality. Both counters rise by 1. |
| Fusion.GnssAhrsFusion.constructor | gnss_ahrs_fusion.cpp:4-15 | A new object holds the default fix, the identity-quaternion sample and an all-false, all-zero status. Debug output is off and the invariant holds. |
| Fusion.GnssAhrsFusion.SetDebugMode | gnss_ahrs_fusion.cpp:18-23 | Sets the debug flag and leaves the fusion state unchanged. |
| Fusion.GnssAhrsFusion.UpdateGnssData | gnss_ahrs_fusion.cpp:33-134 | The new state is `IngestSentence` of the old one, and the invariant is kept. |
| Fusion.GnssAhrsFusion.DecodeGga | gnss_ahrs_fusion.cpp:37-94 | The comma scan, the field cuts and the length guard bring the state to the GGA case of `DecodeSentence`. |
| Fusion.GnssAhrsFusion.StoreGgaFix | gnss_ahrs_fusion.cpp:67-86 | The member-by-member writes store exactly `ApplyGga` of the decoded fix, and `last_gnss_update` becomes `now`. Nothing else changes. |
| Fusion.GnssAhrsFusion.DecodeRmc | gnss_ahrs_fusion.cpp:97-131 | The comma scan, the field cuts and the emptiness guard bring the state to the RMC case of `DecodeSentence`. |
| Fusion.GnssAhrsFusion.StoreRmcFix | gnss_ahrs_fusion.cpp:115-123 | The member-by-member writes store exactly `ApplyRmc` of the decoded speed and course. The status is untouched. |
| Fusion.GnssAhrsFusion.UpdateMtData2 | gnss_ahrs_fusion.cpp:137-161 | The element-wise copy loops, the stamps and the gate bring the state to `IngestAttitude` of the old one, and the invariant is kept. |
| Fusion.GnssAhrsFusion.UpdateFusionStatus | gnss_ahrs_fusion.cpp:164-179 | The status becomes `RecomputeStatus` of the old state, and the fix and sample are untouched. |
| Fusion.GnssAhrsFusion.IsDataReady | gnss_ahrs_fusion.cpp:182-184 | Returns the cached `fusion_active` flag. |
| Fusion.GnssAhrsFusion.ProcessFusion | gnss_ahrs_fusion.cpp:187-197 | Result and new state are those of `FusionStep`, and the invariant is kept. |
| Fusion.GnssAhrsFusion.SendMavlinkOdometry | gnss_ahrs_fusion.cpp:200-279 | Returns true iff a record is emitted. The record and the new state are those of `EmitOdometry`, and the invariant is kept. |
| Fusion.GnssAhrsFusion.GetFusionStatus | gnss_ahrs_fusion.cpp:282-285 | The snapshot and the new state are those of `QueryStatus`. |
| Fusion.GnssAhrsFusion.PrintDetailedStatus | gnss_ahrs_fusion.cpp:288-313 | The state changes exactly as for a status query at `now`: the gate reruns. |
| Fusion.GnssAhrsFusion.RunDiagnostics | gnss_ahrs_fusion.cpp:316-333 | The state changes exactly as for a status query at `now`. |

## Left out

- Serial text output is not modelled: `debugPrint` and every message built by the other methods. Only the state the debug flag holds is kept.
- The MAVLink codec and the serial write (`mavlink_msg_odometry_encode`, `mavlink_msg_to_send_buffer`, `serial_port.write`) are foreign code and I/O. Also omitted: the system and component ids 1 and 200, and the packet length.
- SendMavlinkOdometry: returns the record in place of writing its encoding to a port, so a failed or short write is not modelled.
- PrintDetailedStatus: models only the gate rerun. The printed ages and values are text output.
- RunDiagnostics: models only the gate rerun inside the status report. The diagnostic lines are text output.
- Numeric accuracy is not modelled. Float and double rounding, the results of `toDouble`, `toInt`, `cos` and `sin`, and the precision of `M_PI` are all left open. Reals stand in for `float` and `double`, and the four library functions are uninterpreted.
- StoreGgaFix: the `long` from `toInt` is not narrowed to `int`.
- The `int` counters `fusion_count` and `mavlink_send_count` are unbounded here. Signed overflow after 2^31 - 1 steps is not modelled.
- `millis()` is read up to three times within one C++ operation. The model reads it once, as `now`, so all stamps of one call agree.
- `att_variance` is computed but never stored in the record, so it has no counterpart.
- The `my_data_4f` and `my_data_3f` types are replaced by sequences of 4 and 3 reals. `../communication/myMessage.h` is not part of this model.
- Arduino `String` storage and allocation failure are not modelled. Concurrency is not modelled either; the object is used from one thread.

## Behaviours worth knowing

- An unrecognised sentence of 10 or more characters still reruns the freshness gate (`UnrecognisedSentenceRunsGate`).
- RMC accepts a sentence with 8 commas yet reads the end of its course field from a ninth buffer slot that the scan never wrote (`RmcWithEightCommasReadsUnwrittenSlot`).
- The covariance writes fill slots 0, 7 and 14, which are not the diagonal of MAVLink's upper-triangle layout (`CovarianceSlotsAreOffDiagonal`).
- A send uses the cached fusion flag without rerunning the gate (`SendDoesNotRecheckFreshness`), and the flag survives the send (`SendKeepsFusionActive`).
- A source stamped 2000 ms or more ago reads as stale only while the delay is below one turn of the 32-bit clock (`QueryAfterWindowReportsStale`, `StaleSourceAliasesAfterFullTurn`).
- RMC never refreshes the GNSS freshness stamp; only GGA keeps the GNSS source fresh (`RmcNeverRefreshesPosition`).
