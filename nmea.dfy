/**
 * The NMEA 0183 part of `GNSSAHRSFusion::updateGNSSData`: the comma scan into
 * a fixed-size position buffer, positional field extraction, and the decoding
 * of the GGA (position fix) and RMC (course and speed) sentences.
 */
module Nmea {
  import opened Optional
  import opened ArduinoRuntime

  /** Sentences shorter than this are dropped before anything else happens. */
  const MinSentenceLength: nat := 10

  /** Size of the GGA comma buffer and the number of commas GGA needs. */
  const GgaCapacity: nat := 15
  const GgaMinCommas: nat := 10

  /** Size of the RMC comma buffer and the number of commas RMC accepts with. */
  const RmcCapacity: nat := 12
  const RmcMinCommas: nat := 8

  /** Knots to metres per second, as the source writes it. */
  const KnotsToMetresPerSecond: real := 0.514444

  datatype SentenceKind = Gga | Rmc | Unrecognised

  /** Dispatch on the talker and sentence tag: GN/GP GGA, then GN/GP RMC. */
  function KindOf(s: string): (k: SentenceKind)
    ensures k == Gga <==> StartsWith(s, "$GNGGA") || StartsWith(s, "$GPGGA")
    ensures k == Rmc <==> !(StartsWith(s, "$GNGGA") || StartsWith(s, "$GPGGA"))
                          && (StartsWith(s, "$GNRMC") || StartsWith(s, "$GPRMC"))
  {
    if StartsWith(s, "$GNGGA") || StartsWith(s, "$GPGGA") then Gga
    else if StartsWith(s, "$GNRMC") || StartsWith(s, "$GPRMC") then Rmc
    else Unrecognised
  }

  /** The indices of the commas of `s`, collected left to right as the scan meets them. */
  function CommaIndices(s: string): (r: seq<nat>)
    ensures |r| <= |s|
    decreases |s|
  {
    if s == [] then []
    else
      var front := CommaIndices(s[..|s| - 1]);
      if s[|s| - 1] == ',' then front + [|s| - 1] else front
  }

  /**
   * CommaIndices is exactly the increasing list of comma positions: each entry
   * indexes a ',', the entries strictly increase, and no comma is missed.
   */
  lemma {:induction false} CommaIndicesExact(s: string)
    ensures forall k :: 0 <= k < |CommaIndices(s)| ==> CommaIndices(s)[k] < |s| && s[CommaIndices(s)[k]] == ','
    ensures forall k, l :: 0 <= k < l < |CommaIndices(s)| ==> CommaIndices(s)[k] < CommaIndices(s)[l]
    ensures forall i :: 0 <= i < |s| && s[i] == ',' ==> i in CommaIndices(s)
    decreases |s|
  {
    if s != [] {
      var front := s[..|s| - 1];
      CommaIndicesExact(front);
      var r := CommaIndices(s);
      var f := CommaIndices(front);
      forall k | 0 <= k < |f|
        ensures f[k] < |front| && s[f[k]] == ','
      {
        assert front[f[k]] == ',';
      }
      forall i | 0 <= i < |s| && s[i] == ','
        ensures i in r
      {
        if i < |s| - 1 {
          assert front[i] == ',';
        }
      }
    }
  }

  /** The commas of a prefix of `s` are a prefix of the commas of `s`. */
  lemma {:induction false} CommaIndicesOfPrefix(s: string, n: nat)
    requires n <= |s|
    ensures CommaIndices(s[..n]) <= CommaIndices(s)
    decreases |s|
  {
    if n < |s| {
      var front := s[..|s| - 1];
      assert front[..n] == s[..n];
      CommaIndicesOfPrefix(front, n);
    } else {
      assert s[..n] == s;
    }
  }

  /** The first `capacity` comma positions of `s` (all of them if there are fewer). */
  function FirstCommas(s: string, capacity: nat): seq<nat>
  {
    var all := CommaIndices(s);
    if |all| <= capacity then all else all[..capacity]
  }

  /**
   * The comma buffer after the scan: the recorded positions, then the slots the
   * scan never wrote, which keep whatever the buffer held before (`unwritten`).
   */
  function CommaBuffer(s: string, capacity: nat, unwritten: nat): seq<nat>
  {
    var c := FirstCommas(s, capacity);
    c + seq(capacity - |c|, _ => unwritten)
  }

  /** A buffer holding a prefix of the commas, filled up or exhausting them, then unwritten slots, is CommaBuffer. */
  lemma {:induction false} ScanMatchesCommaBuffer(s: string, capacity: nat, unwritten: nat, count: nat, buffer: seq<nat>)
    requires count <= capacity && |buffer| == capacity
    requires count == capacity || count == |CommaIndices(s)|
    requires buffer[..count] <= CommaIndices(s)
    requires forall k :: count <= k < capacity ==> buffer[k] == unwritten
    ensures count == |FirstCommas(s, capacity)|
    ensures buffer == CommaBuffer(s, capacity, unwritten)
  {
    var all := CommaIndices(s);
    assert buffer[..count] == all[..count];
    assert FirstCommas(s, capacity) == all[..count];
    var c := FirstCommas(s, capacity);
    var b := CommaBuffer(s, capacity, unwritten);
    forall k | 0 <= k < capacity
      ensures buffer[k] == b[k]
    {
      if k < count {
        assert buffer[k] == buffer[..count][k];
      }
    }
  }

  /**
   * The comma scan: walk the sentence, recording each comma's index in a
   * buffer of `capacity` slots, and stop at the end of the sentence or when the
   * buffer is full. The count is the number of commas recorded and the buffer
   * is CommaBuffer: the first commas, then slots the scan never wrote.
   */
  method ScanCommas(s: string, capacity: nat, unwritten: nat) returns (count: nat, buffer: seq<nat>)
    ensures count == |FirstCommas(s, capacity)| && count <= capacity
    ensures buffer == CommaBuffer(s, capacity, unwritten)
  {
    var positions := new nat[capacity](_ => unwritten);
    count := 0;
    var i := 0;
    while i < |s| && count < capacity
      invariant 0 <= i <= |s| && count <= capacity
      invariant positions[..count] == CommaIndices(s[..i])
      invariant forall k :: count <= k < capacity ==> positions[k] == unwritten
    {
      assert s[..i + 1][..i] == s[..i];
      if s[i] == ',' {
        positions[count] := i;
        count := count + 1;
      }
      i := i + 1;
    }
    CommaIndicesOfPrefix(s, i);
    if i == |s| {
      assert s[..i] == s;
    }
    buffer := positions[..];
    assert buffer[..count] == CommaIndices(s[..i]);
    ScanMatchesCommaBuffer(s, capacity, unwritten, count, buffer);
  }

  /** Field `k + 1` of the sentence: the text between buffer slots `k` and `k + 1`. */
  function Field(s: string, buffer: seq<nat>, k: nat): string
    requires k + 1 < |buffer|
  {
    Substring(s, buffer[k] + 1, buffer[k + 1])
  }

  /** A field depends only on the two buffer slots around it. */
  lemma FieldCongruent(s: string, b1: seq<nat>, b2: seq<nat>, k: nat)
    requires k + 1 < |b1| && k + 1 < |b2| && b1[k] == b2[k] && b1[k + 1] == b2[k + 1]
    ensures Field(s, b1, k) == Field(s, b2, k)
  {
  }

  /** No comma lies strictly between two neighbouring entries of CommaIndices. */
  lemma {:induction false} NoCommaBetweenNeighbours(s: string, k: nat)
    requires k + 1 < |CommaIndices(s)|
    ensures CommaIndices(s)[k + 1] < |s|
    ensures forall j :: CommaIndices(s)[k] < j < CommaIndices(s)[k + 1] ==> s[j] != ','
  {
    var all := CommaIndices(s);
    CommaIndicesExact(s);
    forall j | all[k] < j < all[k + 1]
      ensures s[j] != ','
    {
      forall m | 0 <= m < |all|
        ensures all[m] != j
      {
        if m <= k {
          assert all[m] <= all[k];
        } else {
          assert all[m] >= all[k + 1];
        }
      }
    }
  }

  /**
   * Between two recorded neighbouring commas, Field is exactly the text strictly
   * between them, and that text holds no comma: it is a single NMEA field.
   */
  lemma FieldIsCommaFreeSlice(s: string, capacity: nat, unwritten: nat, k: nat)
    requires k + 1 < |FirstCommas(s, capacity)|
    ensures var b := CommaBuffer(s, capacity, unwritten);
      && b[k] < b[k + 1] < |s|
      && s[b[k]] == ',' && s[b[k + 1]] == ','
      && Field(s, b, k) == s[b[k] + 1..b[k + 1]]
      && ',' !in Field(s, b, k)
  {
    var all := CommaIndices(s);
    var b := CommaBuffer(s, capacity, unwritten);
    assert b[k] == all[k] && b[k + 1] == all[k + 1];
    assert all[k] < all[k + 1] < |s| && s[all[k]] == ',' && s[all[k + 1]] == ',' by {
      CommaIndicesExact(s);
    }
    NoCommaBetweenNeighbours(s, k);
    var f := Field(s, b, k);
    assert f == s[b[k] + 1..b[k + 1]];
    assert forall j :: 0 <= j < |f| ==> f[j] == s[b[k] + 1 + j];
  }

  /** Decimal degrees from an NMEA `d..dmm.mmmm` field with `degreeDigits` degree digits. */
  function DegreesMinutes(lib: Numerics, text: string, degreeDigits: nat): (r: real)
    ensures degreeDigits <= |text| ==>
      r == lib.toDouble(text[..degreeDigits]) + lib.toDouble(text[degreeDigits..]) / 60.0
  {
    lib.toDouble(Substring(text, 0, degreeDigits)) + lib.toDouble(Substring(text, degreeDigits, |text|)) / 60.0
  }

  /** The signed coordinate: negated exactly when the hemisphere field is `negative`. */
  function Hemisphere(magnitude: real, indicator: string, negative: string): (r: real)
    ensures r == magnitude || r == -magnitude
    ensures magnitude > 0.0 ==> (r < 0.0 <==> indicator == negative)
  {
    if indicator == negative then -magnitude else magnitude
  }

  /** What an accepted GGA sentence contributes to the fix. */
  datatype GgaFix = GgaFix(latitude: real, longitude: real, altitude: real, quality: int)

  /** What an accepted RMC sentence contributes: speed already in m/s, course in degrees. */
  datatype RmcFix = RmcFix(speed: real, course: real)

  /**
   * The GGA decision on already extracted fields: rejected when the latitude
   * text has at most 4 characters or the longitude text at most 5.
   */
  function GgaFromFields(lib: Numerics, latText: string, latDir: string, lonText: string, lonDir: string,
                         qualityText: string, altText: string): (r: Option<GgaFix>)
    ensures r.Some? <==> |latText| > 4 && |lonText| > 5
    ensures r.Some? ==> r.value.altitude == lib.toDouble(altText) && r.value.quality == lib.toInt(qualityText)
  {
    if |latText| > 4 && |lonText| > 5 then
      Some(GgaFix(
        Hemisphere(DegreesMinutes(lib, latText, 2), latDir, "S"),
        Hemisphere(DegreesMinutes(lib, lonText, 3), lonDir, "W"),
        lib.toDouble(altText),
        lib.toInt(qualityText)))
    else None
  }

  /**
   * A GGA sentence: rejected with fewer than 10 commas; otherwise fields 2 to
   * 6 and 9 (buffer gaps 1 to 5 and 8) are decoded by GgaFromFields.
   */
  function ParseGga(s: string, lib: Numerics, unwritten: nat): (r: Option<GgaFix>)
    ensures r.Some? ==> |CommaIndices(s)| >= GgaMinCommas
    ensures |FirstCommas(s, GgaCapacity)| >= GgaMinCommas ==>
      var b := CommaBuffer(s, GgaCapacity, unwritten);
      (r.Some? <==> |Field(s, b, 1)| > 4 && |Field(s, b, 3)| > 5)
  {
    var b := CommaBuffer(s, GgaCapacity, unwritten);
    if |FirstCommas(s, GgaCapacity)| < GgaMinCommas then None
    else GgaFromFields(lib, Field(s, b, 1), Field(s, b, 2), Field(s, b, 3), Field(s, b, 4),
                       Field(s, b, 5), Field(s, b, 8))
  }

  /** ParseGga read off a scan buffer: the comma count decides, then the six fields of the buffer. */
  lemma ParseGgaReadsBuffer(s: string, lib: Numerics, unwritten: nat, count: nat, buffer: seq<nat>)
    requires buffer == CommaBuffer(s, GgaCapacity, unwritten)
    requires count == |FirstCommas(s, GgaCapacity)|
    ensures count < GgaMinCommas ==> ParseGga(s, lib, unwritten) == None
    ensures count >= GgaMinCommas ==>
      ParseGga(s, lib, unwritten) == GgaFromFields(lib, Field(s, buffer, 1), Field(s, buffer, 2),
        Field(s, buffer, 3), Field(s, buffer, 4), Field(s, buffer, 5), Field(s, buffer, 8))
  {
  }

  /** The RMC decision on already extracted fields: both must be non-empty. */
  function RmcFromFields(lib: Numerics, speedText: string, courseText: string): (r: Option<RmcFix>)
    ensures r.Some? <==> speedText != "" && courseText != ""
    ensures r.Some? ==> r.value.course == lib.toDouble(courseText)
    ensures r.Some? ==> r.value.speed == lib.toDouble(speedText) * KnotsToMetresPerSecond
  {
    if |speedText| > 0 && |courseText| > 0 then
      Some(RmcFix(lib.toDouble(speedText) * KnotsToMetresPerSecond, lib.toDouble(courseText)))
    else None
  }

  /**
   * An RMC sentence: accepted with 8 or more commas and non-empty speed and
   * course fields. The course field ends at buffer slot 8, which the scan only
   * wrote when it saw a ninth comma.
   */
  function ParseRmc(s: string, lib: Numerics, unwritten: nat): (r: Option<RmcFix>)
    ensures r.Some? ==> |CommaIndices(s)| >= RmcMinCommas
    ensures |FirstCommas(s, RmcCapacity)| >= RmcMinCommas ==>
      var b := CommaBuffer(s, RmcCapacity, unwritten);
      (r.Some? <==> Field(s, b, 6) != "" && Field(s, b, 7) != "")
  {
    var b := CommaBuffer(s, RmcCapacity, unwritten);
    if |FirstCommas(s, RmcCapacity)| < RmcMinCommas then None
    else RmcFromFields(lib, Field(s, b, 6), Field(s, b, 7))
  }

  /** ParseRmc read off a scan buffer: the comma count decides, then the two fields of the buffer. */
  lemma ParseRmcReadsBuffer(s: string, lib: Numerics, unwritten: nat, count: nat, buffer: seq<nat>)
    requires buffer == CommaBuffer(s, RmcCapacity, unwritten)
    requires count == |FirstCommas(s, RmcCapacity)|
    ensures count < RmcMinCommas ==> ParseRmc(s, lib, unwritten) == None
    ensures count >= RmcMinCommas ==>
      ParseRmc(s, lib, unwritten) == RmcFromFields(lib, Field(s, buffer, 6), Field(s, buffer, 7))
  {
  }
}
