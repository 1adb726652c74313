/**
 * Validation of a partial-update body: the argument parser's stage (trim, then the declared
 * type, and no JSON null), the guards on the raw key set, and the per-field rules that decide
 * what is written. Two versions of the last stage are kept: the validator as written, which
 * calls `strip()` on a name that may be absent, and the corrected one the registry uses.
 */
module PatchRules {
  import opened Wrappers
  import Text
  import Timestamp
  import StopRecords

  /**
   * A JSON value in the body. A string carries what `float()` makes of its trimmed text
   * (None when that raises); the float parser itself is not part of this model.
   */
  datatype Json =
    | JString(text: string, asFloat: Option<real>)
    | JNumber(number: real)
    | JBool(flag: bool)
    | JNull
    | JArray(items: seq<Json>)
    | JObject

  /** The body of the request, by key. */
  type Body = map<string, Json>

  /**
   * What the argument parser hands on for one argument: not supplied, one converted value, or a
   * refusal (a 400 for the whole body).
   */
  datatype Parsed<+T> = Absent | Given(value: T) | Refused

  /** What the `str` conversion makes of `last_updated`: trimmed text, or the text of a non-string value. */
  datatype TimeText = Trimmed(text: string) | Rendered

  /** The arguments as the parser hands them on; no argument is `Refused` once parsing succeeds. */
  datatype Args = Args(
    name: Parsed<string>,
    depa: Parsed<string>,
    latitude: Parsed<real>,
    longitude: Parsed<real>,
    lastUpdated: Parsed<TimeText>)

  /** The `non_empty_str` type on one value after `trim=True`: a string whose stripped text is not blank. */
  function NonEmptyText(v: Json): (r: Option<string>)
    ensures r.Some? <==> v.JString? && !Text.AllSpace(v.text)
    ensures r.Some? ==> r.value == Text.Strip(v.text) && r.value != ""
  {
    match v
    case JString(t, _) => var s := Text.Strip(t); if s == "" then None else Some(s)
    case _ => None
  }

  /** The `float` type on one value: numbers and booleans convert, strings by `float()`, the rest is refused. */
  function FloatValue(v: Json): (r: Option<real>)
    ensures r.None? <==> v.JNull? || v.JArray? || v.JObject? || (v.JString? && v.asFloat.None?)
    ensures v.JNumber? ==> r == Some(v.number)
    ensures v.JBool? ==> r == Some(if v.flag then 1.0 else 0.0)
  {
    match v
    case JString(_, f) => f
    case JNumber(x) => Some(x)
    case JBool(b) => Some(if b then 1.0 else 0.0)
    case _ => None
  }

  /** The `str` type on one value: only null is refused; a string is trimmed. */
  function StrValue(v: Json): (r: Option<TimeText>)
    ensures r.None? <==> v.JNull?
    ensures v.JString? ==> r == Some(Trimmed(Text.Strip(v.text)))
    ensures !v.JString? && !v.JNull? ==> r == Some(Rendered)
  {
    match v
    case JString(t, _) => Some(Trimmed(Text.Strip(t)))
    case JNull => None
    case _ => Some(Rendered)
  }

  /**
   * The values the parser sees for a key. The JSON object is merged into a multi-dict, which
   * splits an array into its elements; any other value is one value.
   */
  function Values(v: Json): seq<Json> {
    if v.JArray? then v.items else [v]
  }

  /**
   * What the parser hands on for `key`: each value is converted, and one refusal fails the
   * request. No value is an argument not supplied; otherwise the `store` action hands on the
   * first converted value.
   */
  function Lookup<T>(body: Body, key: string, convert: Json -> Option<T>): (r: Parsed<T>)
    ensures key !in body ==> r.Absent?
    ensures r.Refused? <==> key in body && exists v :: v in Values(body[key]) && convert(v).None?
    ensures key in body && Values(body[key]) == [] ==> r.Absent?
    ensures key in body && Values(body[key]) != [] && !r.Refused? ==> r == Given(convert(Values(body[key])[0]).value)
    ensures key in body && !body[key].JArray? && convert(body[key]).Some? ==> r == Given(convert(body[key]).value)
  {
    if key !in body then Absent
    else
      var vs := Values(body[key]);
      if exists i :: 0 <= i < |vs| && convert(vs[i]).None? then Refused
      else if |vs| == 0 then Absent
      else Given(convert(vs[0]).value)
  }

  /** A key holding one plain value its type accepts is that converted value. */
  lemma LookupSingle<T>(body: Body, key: string, convert: Json -> Option<T>)
    requires key in body && !body[key].JArray? && convert(body[key]).Some?
    ensures Lookup(body, key, convert) == Given(convert(body[key]).value)
  {
    assert Values(body[key]) == [body[key]];
  }

  /** Whether the type declared for `key` refuses value `v`. */
  predicate Refuses(key: string, v: Json) {
    if key == "name" || key == "next_departure" then NonEmptyText(v).None?
    else if key == "latitude" || key == "longitude" then FloatValue(v).None?
    else if key == "last_updated" then StrValue(v).None?
    else false
  }

  /** The parser stage: the arguments, or None when a declared argument has a value its type refuses. */
  function ParseArgs(body: Body): (r: Option<Args>)
    ensures r.Some? ==>
      !r.value.name.Refused? && !r.value.depa.Refused? && !r.value.latitude.Refused? &&
      !r.value.longitude.Refused? && !r.value.lastUpdated.Refused?
    ensures r.Some? ==> r.value == Args(
      Lookup(body, "name", NonEmptyText), Lookup(body, "next_departure", NonEmptyText),
      Lookup(body, "latitude", FloatValue), Lookup(body, "longitude", FloatValue),
      Lookup(body, "last_updated", StrValue))
  {
    var name := Lookup(body, "name", NonEmptyText);
    var depa := Lookup(body, "next_departure", NonEmptyText);
    var la := Lookup(body, "latitude", FloatValue);
    var lo := Lookup(body, "longitude", FloatValue);
    var time := Lookup(body, "last_updated", StrValue);
    if name.Refused? || depa.Refused? || la.Refused? || lo.Refused? || time.Refused? then None
    else Some(Args(name, depa, la, lo, time))
  }

  /** Parsing fails exactly when some supplied value of a declared argument is one its type refuses. */
  lemma ParseRefusal(body: Body)
    ensures ParseArgs(body).None? <==> exists key :: key in body && exists v :: v in Values(body[key]) && Refuses(key, v)
  {
    if ParseArgs(body).None? {
      RefusalHasWitness(body);
    } else if exists key :: key in body && exists v :: v in Values(body[key]) && Refuses(key, v) {
      var key :| key in body && exists v :: v in Values(body[key]) && Refuses(key, v);
      var v :| v in Values(body[key]) && Refuses(key, v);
      WitnessRefuses(body, key, v);
    }
  }

  /** A failed parse has a refused value of some declared argument. */
  lemma RefusalHasWitness(body: Body)
    requires ParseArgs(body).None?
    ensures exists key :: key in body && exists v :: v in Values(body[key]) && Refuses(key, v)
  {
    if Lookup(body, "name", NonEmptyText).Refused? {
      var v :| v in Values(body["name"]) && NonEmptyText(v).None?;
      assert Refuses("name", v);
    } else if Lookup(body, "next_departure", NonEmptyText).Refused? {
      var v :| v in Values(body["next_departure"]) && NonEmptyText(v).None?;
      assert Refuses("next_departure", v);
    } else if Lookup(body, "latitude", FloatValue).Refused? {
      var v :| v in Values(body["latitude"]) && FloatValue(v).None?;
      assert Refuses("latitude", v);
    } else if Lookup(body, "longitude", FloatValue).Refused? {
      var v :| v in Values(body["longitude"]) && FloatValue(v).None?;
      assert Refuses("longitude", v);
    } else {
      var v :| v in Values(body["last_updated"]) && StrValue(v).None?;
      assert Refuses("last_updated", v);
    }
  }

  /** A refused value of a declared argument fails the parse. */
  lemma WitnessRefuses(body: Body, key: string, v: Json)
    requires key in body && v in Values(body[key]) && Refuses(key, v)
    ensures ParseArgs(body).None?
  {
    if key == "name" {
      assert Lookup(body, "name", NonEmptyText).Refused?;
    } else if key == "next_departure" {
      assert Lookup(body, "next_departure", NonEmptyText).Refused?;
    } else if key == "latitude" {
      assert Lookup(body, "latitude", FloatValue).Refused?;
    } else if key == "longitude" {
      assert Lookup(body, "longitude", FloatValue).Refused?;
    } else {
      assert Lookup(body, "last_updated", StrValue).Refused?;
    }
  }


  const ParserMessage := "Input payload validation failed"
  const ForbiddenMessage := "_links or stop_id is not allowed in the request."
  const NothingMessage := "You did not input anything valid to update."
  const TimeMessage := "Your update last_updated is invalid."

  predicate HasForbiddenKey(body: Body) {
    "_links" in body || "stop_id" in body
  }

  predicate HasAllowedKey(body: Body) {
    "name" in body || "next_departure" in body || "latitude" in body || "longitude" in body || "last_updated" in body
  }

  /** The fields a successful update writes; None is a field left as stored. `time` is always written. */
  datatype FieldDiff = FieldDiff(
    name: Option<string>,
    depa: Option<string>,
    latitude: Option<real>,
    longitude: Option<real>,
    time: string)

  /** The verdict on a body: a 400 with its message, an uncaught exception, or the fields to write. */
  datatype Verdict = Rejected(message: string) | Crash | Accepted(diff: FieldDiff)

  /** The parser stage then the two key-set guards, in the order the handler applies them. */
  function Screen(body: Body): (r: Result<Args>)
    ensures r.Ok? <==> ParseArgs(body).Some? && !HasForbiddenKey(body) && HasAllowedKey(body)
    ensures r.Ok? ==> r.value == ParseArgs(body).value
    ensures ParseArgs(body).None? ==> r == Err(ParserMessage)
    ensures ParseArgs(body).Some? && HasForbiddenKey(body) ==> r == Err(ForbiddenMessage)
    ensures ParseArgs(body).Some? && !HasForbiddenKey(body) && !HasAllowedKey(body) ==> r == Err(NothingMessage)
  {
    var args := ParseArgs(body);
    if args.None? then Err(ParserMessage)
    else if HasForbiddenKey(body) then Err(ForbiddenMessage)
    else if !HasAllowedKey(body) then Err(NothingMessage)
    else Ok(args.value)
  }

  /** A coordinate is written only when it is supplied and not 0.0 (0.0 is falsy). */
  function Coordinate(value: Option<real>): (r: Option<real>)
    ensures r.Some? <==> value.Some? && value.value != 0.0
    ensures r.Some? ==> r == value
  {
    if value.Some? && value.value != 0.0 then value else None
  }

  /**
   * The name and departure rule: a supplied value is written, and an argument not supplied is
   * left as stored. The parser hands on a string, so the handler's `isinstance` check always passes.
   */
  function TextRule(p: Parsed<string>): (r: Option<string>)
    ensures r.Some? <==> p.Given?
    ensures r.Some? ==> r.value == p.value
  {
    if p.Given? then Some(p.value) else None
  }

  /**
   * The coordinate rule: a supplied value is written unless it is 0.0. The parser hands on a
   * float, so the handler's `isinstance` check always passes.
   */
  function CoordinateRule(p: Parsed<real>): (r: Option<real>)
    ensures r.Some? <==> p.Given? && p.value != 0.0
    ensures r.Some? ==> r.value == p.value
  {
    Coordinate(if p.Given? then Some(p.value) else None)
  }

  /** A `last_updated` the update accepts: not supplied, blank once trimmed, or a timestamp `checktime` accepts. */
  predicate TimeAcceptable(p: Parsed<TimeText>) {
    p.Absent? || (p.Given? && p.value.Trimmed? && (p.value.text == "" || Timestamp.CheckTime(p.value.text)))
  }

  /**
   * The time rule: the supplied timestamp, or `now` when none (or a blank one) is supplied; any
   * other value is answered with 400.
   */
  function TimeRule(p: Parsed<TimeText>, now: string): (r: Result<string>)
    ensures r.Ok? <==> TimeAcceptable(p)
    ensures r.Ok? && p.Given? && p.value.text != "" ==> r.value == p.value.text
    ensures r.Ok? && (p.Absent? || p.value.text == "") ==> r.value == now
    ensures p.Given? && !TimeAcceptable(p) ==> r == Err(TimeMessage)
  {
    match p
    case Absent => Ok(now)
    case Given(Trimmed(t)) =>
      if t == "" then Ok(now)
      else if Timestamp.CheckTime(t) then Ok(t)
      else Err(TimeMessage)
    case Given(Rendered) => Err(TimeMessage)
    case Refused => Err(ParserMessage)
  }

  /**
   * The validator as the handler is written. With no `name` supplied, `data.get('name')` is
   * None and `.strip()` on it raises.
   */
  function ValidatePatchAsWritten(body: Body, now: string): (r: Verdict)
    ensures Screen(body).Err? ==> r == Rejected(Screen(body).message)
    ensures Screen(body).Ok? && Screen(body).value.name.Absent? ==> r == Crash
    ensures "name" !in body ==> !r.Accepted?
  {
    match Screen(body)
    case Err(m) => Rejected(m)
    case Ok(a) =>
      if !a.name.Given? then Crash
      else
        match TimeRule(a.lastUpdated, now)
        case Err(m) => Rejected(m)
        case Ok(t) =>
          Accepted(FieldDiff(TextRule(a.name), TextRule(a.depa), CoordinateRule(a.latitude), CoordinateRule(a.longitude), t))
  }

  /** The validator with an absent name treated as "not written". */
  function ValidatePatch(body: Body, now: string): (r: Verdict)
    ensures !r.Crash?
    ensures Screen(body).Err? ==> r == Rejected(Screen(body).message)
    ensures r.Accepted? <==> Screen(body).Ok? && TimeAcceptable(Screen(body).value.lastUpdated)
    ensures Screen(body).Ok? && !TimeAcceptable(Screen(body).value.lastUpdated) ==> r == Rejected(TimeMessage)
    ensures r.Accepted? ==>
      var a := Screen(body).value;
      && r.diff.name == (if a.name.Given? then Some(a.name.value) else None)
      && r.diff.depa == (if a.depa.Given? then Some(a.depa.value) else None)
      && r.diff.latitude == (if a.latitude.Given? then Coordinate(Some(a.latitude.value)) else None)
      && r.diff.longitude == (if a.longitude.Given? then Coordinate(Some(a.longitude.value)) else None)
      && r.diff.time == (if a.lastUpdated.Given? && a.lastUpdated.value.text != "" then a.lastUpdated.value.text else now)
    ensures r.Accepted? ==> r.diff.time == now || Timestamp.CheckTime(r.diff.time)
  {
    match Screen(body)
    case Err(m) => Rejected(m)
    case Ok(a) =>
      match TimeRule(a.lastUpdated, now)
      case Err(m) => Rejected(m)
      case Ok(t) =>
        Accepted(FieldDiff(TextRule(a.name), TextRule(a.depa), CoordinateRule(a.latitude), CoordinateRule(a.longitude), t))
  }

  /** The key-set guards: a forbidden key, or no allowed key, is answered with 400 before any field is looked at. */
  lemma GuardsReject(body: Body, now: string)
    requires HasForbiddenKey(body) || !HasAllowedKey(body)
    ensures ValidatePatch(body, now).Rejected?
    ensures ValidatePatch(body, now).message in {ParserMessage, ForbiddenMessage, NothingMessage}
  {
  }

  /** A supplied `last_updated` string that is not blank and that `checktime` rejects is answered with 400. */
  lemma BadTimeRejected(body: Body, now: string)
    requires "last_updated" in body && body["last_updated"].JString?
    requires var t := Text.Strip(body["last_updated"].text); t != "" && !Timestamp.CheckTime(t)
    ensures ValidatePatch(body, now).Rejected?
  {
    if Screen(body).Ok? {
      assert Screen(body).value.lastUpdated == Given(Trimmed(Text.Strip(body["last_updated"].text)));
    }
  }

  /**
   * For a body of plain values (no arrays), what an accepted update writes: the trimmed name and
   * departure, each supplied coordinate unless it is 0.0, and the supplied non-blank timestamp or `now`.
   */
  lemma PlainBodyFields(body: Body, now: string)
    requires forall key :: key in body ==> !body[key].JArray?
    ensures var r := ValidatePatch(body, now);
      r.Accepted? ==>
        && ("name" in body ==> r.diff.name == Some(Text.Strip(body["name"].text)))
        && ("name" !in body ==> r.diff.name == None)
        && ("next_departure" in body ==> r.diff.depa == Some(Text.Strip(body["next_departure"].text)))
        && ("next_departure" !in body ==> r.diff.depa == None)
        && ("latitude" in body ==> r.diff.latitude == Coordinate(FloatValue(body["latitude"])))
        && ("latitude" !in body ==> r.diff.latitude == None)
        && ("longitude" in body ==> r.diff.longitude == Coordinate(FloatValue(body["longitude"])))
        && ("longitude" !in body ==> r.diff.longitude == None)
        && ("last_updated" in body ==>
              var t := Text.Strip(body["last_updated"].text); r.diff.time == (if t == "" then now else t))
        && ("last_updated" !in body ==> r.diff.time == now)
  {
    var r := ValidatePatch(body, now);
    if r.Accepted? {
      PlainArgs(body);
    }
  }

  /** The arguments parsed from a body of plain values: each supplied key is its converted value. */
  lemma PlainArgs(body: Body)
    requires forall key :: key in body ==> !body[key].JArray?
    requires ParseArgs(body).Some?
    ensures var a := ParseArgs(body).value;
      && ("name" in body ==> a.name == Given(NonEmptyText(body["name"]).value))
      && ("next_departure" in body ==> a.depa == Given(NonEmptyText(body["next_departure"]).value))
      && ("latitude" in body ==> a.latitude == Given(FloatValue(body["latitude"]).value))
      && ("longitude" in body ==> a.longitude == Given(FloatValue(body["longitude"]).value))
      && ("last_updated" in body ==> a.lastUpdated == Given(StrValue(body["last_updated"]).value))
  {
    if "name" in body { LookupSingle(body, "name", NonEmptyText); }
    if "next_departure" in body { LookupSingle(body, "next_departure", NonEmptyText); }
    if "latitude" in body { LookupSingle(body, "latitude", FloatValue); }
    if "longitude" in body { LookupSingle(body, "longitude", FloatValue); }
    if "last_updated" in body { LookupSingle(body, "last_updated", StrValue); }
  }

  /**
   * A body that parses, carries no forbidden key and at least one allowed key, holds plain values,
   * and supplies no `last_updated` or one that is blank or a timestamp, is accepted.
   */
  lemma PlainBodyAccepted(body: Body, now: string)
    requires forall key :: key in body ==> !body[key].JArray?
    requires ParseArgs(body).Some? && !HasForbiddenKey(body) && HasAllowedKey(body)
    requires "last_updated" in body ==>
      body["last_updated"].JString? && var t := Text.Strip(body["last_updated"].text); t == "" || Timestamp.CheckTime(t)
    ensures ValidatePatch(body, now).Accepted?
  {
    var a := ParseArgs(body).value;
    if "last_updated" in body {
      assert a.lastUpdated == Given(Trimmed(Text.Strip(body["last_updated"].text)));
    }
  }

  /** The two validators agree, except on a parsed body with no name, where the one as written raises. */
  lemma AsWrittenAgreesWithName(body: Body, now: string)
    ensures Screen(body).Err? ==> ValidatePatchAsWritten(body, now) == ValidatePatch(body, now)
    ensures Screen(body).Ok? && Screen(body).value.name.Given? ==> ValidatePatchAsWritten(body, now) == ValidatePatch(body, now)
    ensures Screen(body).Ok? && Screen(body).value.name.Absent? ==> ValidatePatchAsWritten(body, now) == Crash
  {
  }

  /** A body that updates only the latitude: the handler as written crashes where the corrected one accepts. */
  lemma AbsentNameCrashes(now: string)
    ensures ValidatePatchAsWritten(map["latitude" := JNumber(52.5)], now) == Crash
    ensures ValidatePatch(map["latitude" := JNumber(52.5)], now) == Accepted(FieldDiff(None, None, Some(52.5), None, now))
  {
    var body := map["latitude" := JNumber(52.5)];
    assert "name" !in body && "latitude" in body;
    assert Screen(body).value.latitude == Given(52.5);
  }

  /**
   * An array under a key is read by its first element: an accepted update writes the first
   * name of a `name` array, and a `last_updated` array is checked and written by its first string.
   */
  lemma ArraysReadFirst(body: Body, now: string)
    requires Screen(body).Ok?
    ensures "name" in body && body["name"].JArray? && body["name"].items != [] ==>
      var r := ValidatePatch(body, now);
      r.Accepted? ==> r.diff.name == Some(Text.Strip(body["name"].items[0].text))
    ensures "last_updated" in body && body["last_updated"].JArray? && body["last_updated"].items != [] &&
            body["last_updated"].items[0].JString? ==>
      var t := Text.Strip(body["last_updated"].items[0].text);
      var r := ValidatePatch(body, now);
      && (r.Accepted? <==> t == "" || Timestamp.CheckTime(t))
      && (r.Accepted? ==> r.diff.time == if t == "" then now else t)
  {
    var a := Screen(body).value;
    assert ParseArgs(body).Some?;
    if "name" in body && body["name"].JArray? && body["name"].items != [] {
      assert Values(body["name"])[0] == body["name"].items[0];
    }
    if "last_updated" in body && body["last_updated"].JArray? && body["last_updated"].items != [] {
      assert Values(body["last_updated"])[0] == body["last_updated"].items[0];
    }
  }

  /** A supplied update applied to a record: only the written fields change, and the link never does. */
  function Merge(rec: StopRecords.Stop, diff: FieldDiff): (r: StopRecords.Stop)
    ensures r.link == rec.link && r.time == diff.time
    ensures r.name == (if diff.name.Some? then diff.name.value else rec.name)
    ensures r.depa == (if diff.depa.Some? then diff.depa else rec.depa)
    ensures r.latitude == (if diff.latitude.Some? then diff.latitude.value else rec.latitude)
    ensures r.longitude == (if diff.longitude.Some? then diff.longitude.value else rec.longitude)
  {
    var r1 := if diff.name.Some? then rec.(name := diff.name.value) else rec;
    var r2 := if diff.depa.Some? then r1.(depa := diff.depa) else r1;
    var r3 := if diff.latitude.Some? then r2.(latitude := diff.latitude.value) else r2;
    var r4 := if diff.longitude.Some? then r3.(longitude := diff.longitude.value) else r3;
    r4.(time := diff.time)
  }

  /** Sending the same update twice stores what sending it once does. */
  lemma MergeIdempotent(rec: StopRecords.Stop, diff: FieldDiff)
    ensures Merge(Merge(rec, diff), diff) == Merge(rec, diff)
  {
  }
}
