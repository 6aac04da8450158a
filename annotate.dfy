/** Attaching a unit and a description to a column name by ordered substring
    patterns: `infer_units_and_descriptions`. */
module Annotate {
  import opened Text
  import opened Store

  datatype Annotation = Annotation(unit: string, description: string)

  /** The pattern table in the order the source lists it, group by group as
      the source comments it; the first pattern found in the lower-cased name
      decides. */
  const UnitPatterns: seq<(string, Annotation)> :=
    AttitudePatterns + PositionPatterns + VelocityPatterns + AccelerationPatterns + AngularRatePatterns
    + PowerPatterns + PressurePatterns + ControlPatterns + TimeUnitPatterns

  const AttitudePatterns: seq<(string, Annotation)> := [
    ("roll", Annotation("degrees", "Roll angle")),
    ("pitch", Annotation("degrees", "Pitch angle")),
    ("yaw", Annotation("degrees", "Yaw angle")),
    ("rollspeed", Annotation("deg/s", "Roll angular velocity")),
    ("pitchspeed", Annotation("deg/s", "Pitch angular velocity")),
    ("yawspeed", Annotation("deg/s", "Yaw angular velocity"))
  ]

  const PositionPatterns: seq<(string, Annotation)> := [
    ("lat", Annotation("degrees", "Latitude")),
    ("lng", Annotation("degrees", "Longitude")),
    ("lon", Annotation("degrees", "Longitude")),
    ("alt", Annotation("meters", "Altitude")),
    ("relalt", Annotation("meters", "Relative altitude"))
  ]

  const VelocityPatterns: seq<(string, Annotation)> := [
    ("vx", Annotation("m/s", "Velocity X")),
    ("vy", Annotation("m/s", "Velocity Y")),
    ("vz", Annotation("m/s", "Velocity Z")),
    ("vel", Annotation("m/s", "Velocity")),
    ("speed", Annotation("m/s", "Speed")),
    ("groundspeed", Annotation("m/s", "Ground speed")),
    ("airspeed", Annotation("m/s", "Air speed"))
  ]

  const AccelerationPatterns: seq<(string, Annotation)> := [
    ("accx", Annotation("m/s\U{00B2}", "Acceleration X")),
    ("accy", Annotation("m/s\U{00B2}", "Acceleration Y")),
    ("accz", Annotation("m/s\U{00B2}", "Acceleration Z")),
    ("acc", Annotation("m/s\U{00B2}", "Acceleration"))
  ]

  const AngularRatePatterns: seq<(string, Annotation)> := [
    ("gyrx", Annotation("deg/s", "Angular rate X")),
    ("gyry", Annotation("deg/s", "Angular rate Y")),
    ("gyrz", Annotation("deg/s", "Angular rate Z")),
    ("p", Annotation("deg/s", "Roll rate")),
    ("q", Annotation("deg/s", "Pitch rate")),
    ("r", Annotation("deg/s", "Yaw rate"))
  ]

  const PowerPatterns: seq<(string, Annotation)> := [
    ("volt", Annotation("V", "Voltage")),
    ("curr", Annotation("A", "Current")),
    ("bat", Annotation("V", "Battery voltage")),
    ("power", Annotation("W", "Power"))
  ]

  const PressurePatterns: seq<(string, Annotation)> := [
    ("press", Annotation("Pa", "Pressure")),
    ("baro", Annotation("m", "Barometric altitude")),
    ("temp", Annotation("\U{00B0}C", "Temperature"))
  ]

  const ControlPatterns: seq<(string, Annotation)> := [
    ("thr", Annotation("%", "Throttle")),
    ("throttle", Annotation("%", "Throttle")),
    ("rud", Annotation("%", "Rudder")),
    ("ele", Annotation("%", "Elevator")),
    ("ail", Annotation("%", "Aileron"))
  ]

  const TimeUnitPatterns: seq<(string, Annotation)> := [
    ("timeus", Annotation("\U{03BC}s", "Time (microseconds)")),
    ("timestamp", Annotation("s", "Timestamp")),
    ("time", Annotation("s", "Time"))
  ]

  /** The position of the first pattern that occurs in `lower`. */
  function FirstPattern(patterns: seq<(string, Annotation)>, lower: string): (r: Option<nat>)
    ensures r.Some? ==> r.value < |patterns| && Contains(lower, patterns[r.value].0)
    ensures r.Some? ==> forall j :: 0 <= j < r.value ==> !Contains(lower, patterns[j].0)
    ensures r.None? ==> forall j :: 0 <= j < |patterns| ==> !Contains(lower, patterns[j].0)
  {
    if patterns == [] then None
    else if Contains(lower, patterns[0].0) then Some(0)
    else match FirstPattern(patterns[1..], lower)
      case None => None
      case Some(k) => Some(k + 1)
  }

  /** The fallback description: underscores become spaces, then title case. */
  function FallbackDescription(columnName: string): string
  {
    TitleCase(ReplaceChar(columnName, '_', ' '))
  }

  /** `infer_units_and_descriptions(column_name)`. */
  function InferUnitsAndDescriptions(columnName: string): Annotation
  {
    match FirstPattern(UnitPatterns, ToLower(columnName))
    case Some(k) => UnitPatterns[k].1
    case None => Annotation("", FallbackDescription(columnName))
  }

  /** The annotation is the payload of the first listed pattern occurring in
      the lower-cased name, and the fallback when none occurs. */
  lemma AnnotationIsFirstMatch(columnName: string, k: int)
    requires 0 <= k < |UnitPatterns|
    requires Contains(ToLower(columnName), UnitPatterns[k].0)
    requires forall j :: 0 <= j < k ==> !Contains(ToLower(columnName), UnitPatterns[j].0)
    ensures InferUnitsAndDescriptions(columnName) == UnitPatterns[k].1
  {
    var r := FirstPattern(UnitPatterns, ToLower(columnName));
    assert r.Some? && r.value == k;
  }

  lemma PatternUnitsNonEmpty()
    ensures forall k :: 0 <= k < |UnitPatterns| ==> UnitPatterns[k].1.unit != ""
  {
  }

  /** The unit is empty exactly when no pattern occurs in the name; the
      description is then the name with underscores as spaces, title-cased:
      each letter upper-case after a non-letter and lower-case after a letter,
      every other character kept, and nothing is added or dropped. */
  lemma EmptyUnitIffNoPattern(columnName: string)
    ensures InferUnitsAndDescriptions(columnName).unit == "" <==>
            forall j :: 0 <= j < |UnitPatterns| ==> !Contains(ToLower(columnName), UnitPatterns[j].0)
    ensures InferUnitsAndDescriptions(columnName).unit == "" ==>
      var d := InferUnitsAndDescriptions(columnName).description;
      |d| == |columnName| && '_' !in d &&
      forall i :: 0 <= i < |d| ==>
        d[i] == if columnName[i] == '_' then ' '
                else if i > 0 && IsLetter(columnName[i - 1]) then LowerChar(columnName[i])
                else UpperChar(columnName[i])
  {
    PatternUnitsNonEmpty();
    if InferUnitsAndDescriptions(columnName).unit == "" {
      var spaced := ReplaceChar(columnName, '_', ' ');
      var d := InferUnitsAndDescriptions(columnName).description;
      assert d == TitleCase(spaced);
      forall i | 0 <= i < |d|
        ensures d[i] == if columnName[i] == '_' then ' '
                        else if i > 0 && IsLetter(columnName[i - 1]) then LowerChar(columnName[i])
                        else UpperChar(columnName[i])
        ensures d[i] != '_'
      {
        TitleCaseAt(spaced, i);
      }
    }
  }

  /** A pattern that holds an earlier pattern is never the one that decides:
      any name holding it is annotated through that earlier pattern or one
      before it. */
  lemma ShadowedPatternNeverDecides(columnName: string, i: int, k: int)
    requires 0 <= i < k < |UnitPatterns|
    requires Contains(UnitPatterns[k].0, UnitPatterns[i].0)
    ensures Contains(ToLower(columnName), UnitPatterns[k].0) ==>
      var r := FirstPattern(UnitPatterns, ToLower(columnName));
      r.Some? && r.value <= i
  {
    if Contains(ToLower(columnName), UnitPatterns[k].0) {
      ContainsTransitive(ToLower(columnName), UnitPatterns[k].0, UnitPatterns[i].0);
    }
  }

  /** "roll" comes before "rollspeed", so a roll rate is annotated as an angle. */
  lemma RollspeedShadowed()
    ensures InferUnitsAndDescriptions("rollspeed") == Annotation("degrees", "Roll angle")
  {
    ToLowerIdentity("rollspeed");
    assert IsPrefix("roll", "rollspeed");
    AnnotationIsFirstMatch("rollspeed", 0);
  }

  /** None of `patterns` occurs in `s`. */
  predicate NoneOccurs(s: string, patterns: seq<(string, Annotation)>)
  {
    forall j :: 0 <= j < |patterns| ==> !Contains(s, patterns[j].0)
  }

  /** A pattern whose first two letters never stand side by side in `s` does
      not occur in `s`. */
  lemma NoneOccursByLeadingPair(s: string, patterns: seq<(string, Annotation)>)
    requires forall j :: 0 <= j < |patterns| ==>
               && |patterns[j].0| >= 2
               && forall i :: 0 <= i < |s| - 1 ==> !(s[i] == patterns[j].0[0] && s[i + 1] == patterns[j].0[1])
    ensures NoneOccurs(s, patterns)
  {
    forall j | 0 <= j < |patterns| ensures !Contains(s, patterns[j].0) {
      ContainsChars(s, patterns[j].0, 0, 1);
    }
  }

  /** The groups before the single-letter patterns miss "timestamp". */
  lemma TimestampMissesGroups(s: string)
    requires s == "timestamp"
    ensures NoneOccurs(s, AttitudePatterns + PositionPatterns + VelocityPatterns + AccelerationPatterns
                          + AngularRatePatterns[..3])
  {
    var before := AttitudePatterns + PositionPatterns + VelocityPatterns + AccelerationPatterns
                  + AngularRatePatterns[..3];
    NoneOccursByLeadingPair(s, before);
  }

  /** The first 25 patterns, everything before "p", miss "timestamp". */
  lemma TimestampMisses(s: string)
    requires s == "timestamp"
    ensures forall j :: 0 <= j < 25 ==> !Contains(s, UnitPatterns[j].0)
  {
    TimestampMissesGroups(s);
    var before := AttitudePatterns + PositionPatterns + VelocityPatterns + AccelerationPatterns
                  + AngularRatePatterns[..3];
    forall j | 0 <= j < 25 ensures !Contains(s, UnitPatterns[j].0) {
      assert UnitPatterns[j] == before[j];
    }
  }

  /** The single letter "p" comes before "timestamp", so a timestamp column is
      annotated as a roll rate. */
  lemma TimestampShadowed()
    ensures InferUnitsAndDescriptions("timestamp") == Annotation("deg/s", "Roll rate")
  {
    var s := "timestamp";
    ToLowerIdentity(s);
    assert UnitPatterns[25].0 == "p" by {
      assert UnitPatterns[25] == AngularRatePatterns[3];
    }
    assert s[8..9] == "p";
    ContainsAt(s, "p", 8);
    TimestampMisses(s);
    AnnotationIsFirstMatch(s, 25);
  }
}
