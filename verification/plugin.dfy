/** The input-normalisation helpers of the `fh-api` agent plugin: cleaning of
    loosely typed tool arguments, URL and timeout sanitising, date/time
    merging, visit/slot type inference and the truncation of slot results. */
module FhPlugin {
  import opened Wrappers

  const DEFAULT_BASE_URL: string := "http://host.docker.internal:8080/api/v1"
  const DEFAULT_TIMEOUT_MS: int := 15000
  const MIN_TIMEOUT_MS: int := 1000
  const MAX_TIMEOUT_MS: int := 60000
  const MAX_SLOT_ITEMS: int := 10

  /** A JavaScript number. */
  datatype JsNumber = Finite(value: real) | PosInfinity | NegInfinity | NaN

  /** A JavaScript value as the helpers see it. A string carries the number
      `Number(s)` gives for it; objects are keyed by property name. */
  datatype JsValue =
    | Undefined
    | Null
    | Bool(b: bool)
    | Num(n: JsNumber)
    | Str(s: string, asNumber: JsNumber)
    | Arr(elems: seq<JsValue>)
    | Obj(fields: map<string, JsValue>)

  /** Property access: a missing property (or any property of a non-object) is `undefined`. */
  function Get(v: JsValue, key: string): JsValue {
    if v.Obj? && key in v.fields then v.fields[key] else Undefined
  }

  /** JavaScript truthiness. */
  predicate Truthy(v: JsValue) {
    match v
    case Undefined => false
    case Null => false
    case Bool(b) => b
    case Num(n) => !(n.NaN? || (n.Finite? && n.value == 0.0))
    case Str(s, _) => s != ""
    case Arr(_) => true
    case Obj(_) => true
  }

  /** `typeof v === "object"`: null, arrays and objects. */
  predicate IsObject(v: JsValue) {
    v.Null? || v.Arr? || v.Obj?
  }

  /** `Math.trunc`: rounds toward zero. */
  function Trunc(x: real): (r: int)
    ensures 0.0 <= x ==> 0 <= r && r as real <= x < r as real + 1.0
    ensures x < 0.0 ==> r <= 0 && r as real - 1.0 < x <= r as real
  {
    if x >= 0.0 then x.Floor else -((-x).Floor)
  }

  /** The characters `String.prototype.trim` removes: white space (tab,
      vertical tab, form feed, space, no-break space, the byte order mark and
      the Unicode space separators) and the line terminators. */
  const JS_SPACES: set<char> := {
    '\t', '\n', '\U{000B}', '\U{000C}', '\r', ' ', '\U{00A0}', '\U{1680}',
    '\U{2000}', '\U{2001}', '\U{2002}', '\U{2003}', '\U{2004}', '\U{2005}',
    '\U{2006}', '\U{2007}', '\U{2008}', '\U{2009}', '\U{200A}',
    '\U{2028}', '\U{2029}', '\U{202F}', '\U{205F}', '\U{3000}', '\U{FEFF}'
  }

  predicate IsJsSpace(c: char) {
    c in JS_SPACES
  }

  function LeadingSpaces(s: string): (n: nat)
    ensures n <= |s|
    ensures forall i :: 0 <= i < n ==> IsJsSpace(s[i])
    ensures n < |s| ==> !IsJsSpace(s[n])
  {
    if |s| > 0 && IsJsSpace(s[0]) then 1 + LeadingSpaces(s[1..]) else 0
  }

  function TrailingSpaces(s: string): (n: nat)
    ensures n <= |s|
    ensures forall i :: |s| - n <= i < |s| ==> IsJsSpace(s[i])
    ensures n < |s| ==> !IsJsSpace(s[|s| - n - 1])
  {
    if |s| > 0 && IsJsSpace(s[|s| - 1]) then 1 + TrailingSpaces(s[..|s| - 1]) else 0
  }

  /** `s.trim()`: the part between the leading and the trailing white space. */
  function Trim(s: string): string {
    var i := LeadingSpaces(s);
    if i == |s| then "" else s[i..|s| - TrailingSpaces(s)]
  }

  /** The trimmed string is empty exactly when `s` is all white space. */
  lemma TrimEmptyIffAllSpaces(s: string)
    ensures |Trim(s)| == 0 <==> forall k :: 0 <= k < |s| ==> IsJsSpace(s[k])
  {
    var i := LeadingSpaces(s);
    if i < |s| {
      assert !IsJsSpace(s[i]);
    }
  }

  /** A non-empty trimmed string is the slice between the leading and the
      trailing white space, and neither starts nor ends with white space. */
  lemma TrimSpec(s: string)
    ensures |Trim(s)| > 0 ==>
      && Trim(s) == s[LeadingSpaces(s)..|s| - TrailingSpaces(s)]
      && !IsJsSpace(Trim(s)[0]) && !IsJsSpace(Trim(s)[|Trim(s)| - 1])
  {
    var i := LeadingSpaces(s);
    var n := TrailingSpaces(s);
    if i < |s| && i < |s| - n {
      SliceEnds(s, i, |s| - n);
    }
  }

  lemma SliceEnds<T>(s: seq<T>, i: nat, j: nat)
    requires i < j <= |s|
    ensures |s[i..j]| == j - i && s[i..j][0] == s[i] && s[i..j][j - i - 1] == s[j - 1]
  {
  }

  /** Trimming twice is trimming once. */
  lemma TrimIdempotent(s: string)
    ensures Trim(Trim(s)) == Trim(s)
  {
    var t := Trim(s);
    TrimSpec(s);
    TrimEmptyIffAllSpaces(s);
    if |t| > 0 {
      LeadingSpacesAre(t, 0);
      TrailingSpacesAre(t, 0);
      assert t[0..|t|] == t;
    }
  }

  lemma LeadingSpacesAre(x: string, n: nat)
    requires n <= |x| && (forall i :: 0 <= i < n ==> IsJsSpace(x[i])) && (n < |x| ==> !IsJsSpace(x[n]))
    ensures LeadingSpaces(x) == n
  {
  }

  lemma TrailingSpacesAre(x: string, n: nat)
    requires n <= |x| && (forall i :: |x| - n <= i < |x| ==> IsJsSpace(x[i])) && (n < |x| ==> !IsJsSpace(x[|x| - n - 1]))
    ensures TrailingSpaces(x) == n
  {
  }

  /** Trimming removes exactly the white space padding around a string that
      neither starts nor ends with white space. */
  lemma TrimPadded(pre: string, m: string, post: string)
    requires forall i :: 0 <= i < |pre| ==> IsJsSpace(pre[i])
    requires forall i :: 0 <= i < |post| ==> IsJsSpace(post[i])
    requires |m| > 0 && !IsJsSpace(m[0]) && !IsJsSpace(m[|m| - 1])
    ensures Trim(pre + m + post) == m
  {
    var x := pre + m + post;
    assert x[|pre|] == m[0];
    assert x[|x| - |post| - 1] == m[|m| - 1];
    forall i | 0 <= i < |pre| ensures IsJsSpace(x[i]) {
      assert x[i] == pre[i];
    }
    forall i | |x| - |post| <= i < |x| ensures IsJsSpace(x[i]) {
      assert x[i] == post[i - |pre| - |m|];
    }
    LeadingSpacesAre(x, |pre|);
    TrailingSpacesAre(x, |post|);
    assert x[|pre|..|x| - |post|] == m;
  }

  /** `cleanString`: the trimmed string, or null for a non-string or blank value. */
  function CleanString(v: JsValue): (r: Option<string>)
    ensures r.Some? <==> v.Str? && Trim(v.s) != ""
    ensures r.Some? ==> r.value == Trim(v.s)
  {
    if !v.Str? then None
    else
      var trimmed := Trim(v.s);
      if |trimmed| > 0 then Some(trimmed) else None
  }

  /** `cleanNumber`: a finite number, or a non-blank string that converts to
      one, truncated toward zero; null otherwise. */
  function CleanNumber(v: JsValue): Option<int> {
    if v.Num? && v.n.Finite? then Some(Trunc(v.n.value))
    else if v.Str? && Trim(v.s) != "" && v.asNumber.Finite? then Some(Trunc(v.asNumber.value))
    else None
  }

  /** What `cleanNumber` accepts, and that it keeps the integer part of the input. */
  lemma CleanNumberSpec(v: JsValue)
    ensures CleanNumber(v).Some? <==>
      (v.Num? && v.n.Finite?) || (v.Str? && Trim(v.s) != "" && v.asNumber.Finite?)
    ensures CleanNumber(v).Some? ==>
      var x := if v.Num? then v.n.value else v.asNumber.value;
      var n := CleanNumber(v).value;
      (0.0 <= x ==> 0 <= n && n as real <= x < n as real + 1.0)
      && (x < 0.0 ==> n <= 0 && n as real - 1.0 < x <= n as real)
  {
  }

  /** `cleanPositiveNumber`: null, or a positive integer. */
  function CleanPositiveNumber(v: JsValue): (r: Option<int>)
    ensures r.Some? ==> r.value > 0
    ensures r.Some? <==> CleanNumber(v).Some? && CleanNumber(v).value > 0
    ensures r.Some? ==> r == CleanNumber(v)
  {
    var n := CleanNumber(v);
    if n.None? || n.value <= 0 then None else n
  }

  /** `sanitizeBaseUrl`. */
  function SanitizeBaseUrl(v: JsValue): (r: string)
    ensures !v.Str? || Trim(v.s) == "" ==> r == DEFAULT_BASE_URL
    ensures v.Str? && Trim(v.s) != "" ==>
      (r == Trim(v.s) && Trim(v.s)[|Trim(v.s)| - 1] != '/') || r + "/" == Trim(v.s)
  {
    if !v.Str? then DEFAULT_BASE_URL
    else
      var trimmed := Trim(v.s);
      if trimmed == "" then DEFAULT_BASE_URL
      else if trimmed[|trimmed| - 1] == '/' then trimmed[..|trimmed| - 1]
      else trimmed
  }

  /** Only one trailing slash is removed: " h// " becomes "h/". */
  lemma PaddedUrlTrims()
    ensures Trim(" h// ") == "h//"
  {
    var v := "h//";
    assert !IsJsSpace(v[0]) && !IsJsSpace(v[2]) && IsJsSpace(' ');
    TrimPadded(" ", v, " ");
    assert " " + v + " " == " h// ";
  }

  lemma BaseUrlKeepsSecondSlash()
    ensures SanitizeBaseUrl(Str(" h// ", NaN)) == "h/"
  {
    PaddedUrlTrims();
    var t := "h//";
    assert t[|t| - 1] == '/';
    assert t[..|t| - 1] == "h/";
  }

  /** `sanitizeTimeoutMs`: the truncated input when it lies in [1000, 60000],
      the 15000 ms default otherwise. */
  function SanitizeTimeoutMs(v: JsValue): (r: int)
    ensures MIN_TIMEOUT_MS <= r <= MAX_TIMEOUT_MS
    ensures CleanNumber(v).Some? && MIN_TIMEOUT_MS <= CleanNumber(v).value <= MAX_TIMEOUT_MS ==>
      r == CleanNumber(v).value
    ensures !(CleanNumber(v).Some? && MIN_TIMEOUT_MS <= CleanNumber(v).value <= MAX_TIMEOUT_MS) ==>
      r == DEFAULT_TIMEOUT_MS
  {
    var n := CleanNumber(v);
    if n.None? || n.value == 0 || n.value < MIN_TIMEOUT_MS || n.value > MAX_TIMEOUT_MS then DEFAULT_TIMEOUT_MS
    else n.value
  }

  /** `\d` without the `u` flag. */
  predicate IsDigit(c: char) {
    '0' <= c <= '9'
  }

  /** `^\d{4}-\d{2}-\d{2}$`. */
  predicate IsDateShape(t: string) {
    |t| == 10
    && IsDigit(t[0]) && IsDigit(t[1]) && IsDigit(t[2]) && IsDigit(t[3]) && t[4] == '-'
    && IsDigit(t[5]) && IsDigit(t[6]) && t[7] == '-' && IsDigit(t[8]) && IsDigit(t[9])
  }

  /** `[0-5]\d` at position `i`. */
  predicate IsSexagesimal(t: string, i: int)
    requires 0 <= i && i + 1 < |t|
  {
    '0' <= t[i] <= '5' && IsDigit(t[i + 1])
  }

  /** `^([01]\d|2[0-3]):[0-5]\d(:[0-5]\d)?$`: hours 00-23, minutes and seconds 00-59. */
  predicate IsTimeShape(t: string) {
    (|t| == 5 || |t| == 8)
    && ((('0' <= t[0] <= '1') && IsDigit(t[1])) || (t[0] == '2' && '0' <= t[1] <= '3'))
    && t[2] == ':' && IsSexagesimal(t, 3)
    && (|t| == 8 ==> t[5] == ':' && IsSexagesimal(t, 6))
  }

  predicate LooksLikeDateOnly(value: string) {
    IsDateShape(Trim(value))
  }

  predicate LooksLikeTimeOnly(value: string) {
    IsTimeShape(Trim(value))
  }

  /** `mergeDateAndTime`. */
  function MergeDateAndTime(dateText: string, timeText: string): Option<string> {
    var date := Trim(dateText);
    var time := Trim(timeText);
    if !LooksLikeDateOnly(date) || !LooksLikeTimeOnly(time) then None
    else
      var fullTime := if |time| == 5 then time + ":00" else time;
      Some(date + "T" + fullTime)
  }

  /** `YYYY-MM-DDTHH:MM:SS`: the complete calendar date and time of day in
      extended format of ISO 8601:2004 (section 4.3.2), without a zone. */
  predicate IsExtendedDateTime(t: string) {
    |t| == 19 && IsDateShape(t[..10]) && t[10] == 'T' && IsTimeShape(t[11..]) && |t[11..]| == 8
  }

  /** The merge succeeds exactly when the trimmed date and time have the
      accepted shapes; it then yields the extended date-time form, keeping the
      date, the hours and minutes, and the seconds (":00" when absent). */
  lemma MergeDateAndTimeSpec(dateText: string, timeText: string)
    ensures MergeDateAndTime(dateText, timeText).Some? <==>
      IsDateShape(Trim(dateText)) && IsTimeShape(Trim(timeText))
    ensures MergeDateAndTime(dateText, timeText).Some? ==>
      var r := MergeDateAndTime(dateText, timeText).value;
      var time := Trim(timeText);
      && IsExtendedDateTime(r)
      && r[..10] == Trim(dateText)
      && r[11..16] == time[..5]
      && r[16..] == (if |time| == 5 then ":00" else time[5..])
  {
    TrimIdempotent(dateText);
    TrimIdempotent(timeText);
    var date := Trim(dateText);
    var time := Trim(timeText);
    if IsDateShape(date) && IsTimeShape(time) {
      JoinedIsExtended(date, time);
    }
  }

  lemma JoinedIsExtended(date: string, time: string)
    requires IsDateShape(date) && IsTimeShape(time)
    ensures var r := date + "T" + (if |time| == 5 then time + ":00" else time);
      && IsExtendedDateTime(r)
      && r[..10] == date
      && r[11..16] == time[..5]
      && r[16..] == (if |time| == 5 then ":00" else time[5..])
  {
    var fullTime := if |time| == 5 then time + ":00" else time;
    var r := date + "T" + fullTime;
    assert r[..10] == date;
    assert r[11..] == fullTime;
    assert fullTime[..5] == time[..5];
    assert fullTime[5..] == (if |time| == 5 then ":00" else time[5..]);
    assert IsTimeShape(fullTime) by {
      assert fullTime[0] == time[0] && fullTime[1] == time[1] && fullTime[2] == time[2];
      assert fullTime[3] == time[3] && fullTime[4] == time[4];
    }
  }

  /** `toLowerCase` as far as it decides a comparison with "doctor" or
      "service": ASCII letters are folded; no other character maps to the
      letters of those words. */
  function ToLowerChar(c: char): char {
    if 'A' <= c <= 'Z' then (c as int + 32) as char else c
  }

  /** `toUpperCase` as far as it decides a comparison with "DOCTOR" or
      "SERVICE": ASCII letters, the dotless i (U+0131, to "I") and the long s
      (U+017F, to "S"); no other character maps to a single letter of those words. */
  function ToUpperChar(c: char): char {
    if 'a' <= c <= 'z' then (c as int - 32) as char
    else if c == '\U{0131}' then 'I'
    else if c == '\U{017F}' then 'S'
    else c
  }

  function ToLower(s: string): (r: string)
    ensures |r| == |s| && forall i :: 0 <= i < |s| ==> r[i] == ToLowerChar(s[i])
  {
    if |s| == 0 then "" else [ToLowerChar(s[0])] + ToLower(s[1..])
  }

  function ToUpper(s: string): (r: string)
    ensures |r| == |s| && forall i :: 0 <= i < |s| ==> r[i] == ToUpperChar(s[i])
  {
    if |s| == 0 then "" else [ToUpperChar(s[0])] + ToUpper(s[1..])
  }

  /** The explicit `type` argument, trimmed and lower-cased, if it names a kind. */
  function ExplicitSlotType(input: map<string, JsValue>): Option<string> {
    var t := CleanString(Get(Obj(input), "type"));
    if t.Some? && (ToLower(t.value) == "doctor" || ToLower(t.value) == "service") then Some(ToLower(t.value))
    else None
  }

  predicate HasDoctorHint(input: map<string, JsValue>) {
    CleanPositiveNumber(Get(Obj(input), "doctor_id")).Some?
    || CleanString(Get(Obj(input), "doctor_name")).Some?
    || CleanPositiveNumber(Get(Obj(input), "direction_id")).Some?
  }

  predicate HasServiceHint(input: map<string, JsValue>) {
    CleanPositiveNumber(Get(Obj(input), "service_id")).Some?
  }

  /** `normalizeSlotType`: `Err` carries the message of the thrown error. */
  function NormalizeSlotType(input: map<string, JsValue>): Result<string, string> {
    var explicit := ExplicitSlotType(input);
    if explicit.Some? then Ok(explicit.value)
    else if HasDoctorHint(input) then Ok("doctor")
    else if HasServiceHint(input) then Ok("service")
    else Err("type is required (doctor|service), or provide doctor/service identifiers")
  }

  /** The slot type is "doctor" or "service"; an explicit type wins over the
      identifiers, and doctor hints win over a service id. */
  lemma SlotTypeInference(input: map<string, JsValue>)
    ensures NormalizeSlotType(input).Ok? ==>
      NormalizeSlotType(input).value == "doctor" || NormalizeSlotType(input).value == "service"
    ensures NormalizeSlotType(input).Err? <==>
      ExplicitSlotType(input).None? && !HasDoctorHint(input) && !HasServiceHint(input)
    ensures NormalizeSlotType(input) == Ok("doctor") <==>
      ExplicitSlotType(input) == Some("doctor") || (ExplicitSlotType(input).None? && HasDoctorHint(input))
    ensures NormalizeSlotType(input) == Ok("service") <==>
      ExplicitSlotType(input) == Some("service")
      || (ExplicitSlotType(input).None? && !HasDoctorHint(input) && HasServiceHint(input))
  {
  }

  lemma PaddedDoctorTrims()
    ensures Trim(" Doctor ") == "Doctor"
  {
    var v := "Doctor";
    assert !IsJsSpace(v[0]) && !IsJsSpace(v[5]) && IsJsSpace(' ');
    TrimPadded(" ", v, " ");
    assert " " + v + " " == " Doctor ";
  }

  lemma DoctorLowerCases()
    ensures ToLower("Doctor") == "doctor"
  {
    var l := ToLower("Doctor");
    assert l[0] == 'd' && l[1] == 'o' && l[2] == 'c' && l[3] == 't' && l[4] == 'o' && l[5] == 'r';
  }

  /** A `type` of " Doctor " is read as "doctor" whatever identifiers come with it. */
  lemma ExplicitTypeIsCaseInsensitive(input: map<string, JsValue>)
    requires "type" in input && input["type"].Str? && input["type"].s == " Doctor "
    ensures NormalizeSlotType(input) == Ok("doctor")
  {
    PaddedDoctorTrims();
    DoctorLowerCases();
    assert CleanString(Get(Obj(input), "type")) == Some("Doctor");
    assert ExplicitSlotType(input) == Some("doctor");
  }

  /** The explicit `visit_type` argument, trimmed and upper-cased, if it names a kind. */
  function ExplicitVisitType(input: map<string, JsValue>): Option<string> {
    var t := CleanString(Get(Obj(input), "visit_type"));
    if t.Some? && (ToUpper(t.value) == "DOCTOR" || ToUpper(t.value) == "SERVICE") then Some(ToUpper(t.value))
    else None
  }

  /** `normalizeVisitType`: `Err` carries the message of the thrown error. */
  function NormalizeVisitType(input: map<string, JsValue>): Result<string, string> {
    var explicit := ExplicitVisitType(input);
    if explicit.Some? then Ok(explicit.value)
    else if CleanPositiveNumber(Get(Obj(input), "doctor_id")).Some? then Ok("DOCTOR")
    else if CleanPositiveNumber(Get(Obj(input), "service_id")).Some? then Ok("SERVICE")
    else Err("visit_type is required (DOCTOR|SERVICE), or provide doctor_id/service_id")
  }

  /** The visit type is "DOCTOR" or "SERVICE"; an explicit type wins, then a
      positive doctor id, then a positive service id. */
  lemma VisitTypeInference(input: map<string, JsValue>)
    ensures NormalizeVisitType(input).Ok? ==>
      NormalizeVisitType(input).value == "DOCTOR" || NormalizeVisitType(input).value == "SERVICE"
    ensures NormalizeVisitType(input).Err? <==>
      && ExplicitVisitType(input).None?
      && CleanPositiveNumber(Get(Obj(input), "doctor_id")).None?
      && CleanPositiveNumber(Get(Obj(input), "service_id")).None?
    ensures NormalizeVisitType(input) == Ok("DOCTOR") <==>
      ExplicitVisitType(input) == Some("DOCTOR")
      || (ExplicitVisitType(input).None? && CleanPositiveNumber(Get(Obj(input), "doctor_id")).Some?)
  {
  }

  lemma DotlessServiceIsTrimmed()
    ensures Trim("serv\U{0131}ce") == "serv\U{0131}ce"
  {
    var v := "serv\U{0131}ce";
    assert !IsJsSpace(v[0]) && !IsJsSpace(v[6]);
    TrimPadded("", v, "");
    assert "" + v + "" == v;
  }

  lemma DotlessServiceUpperCases()
    ensures ToUpper("serv\U{0131}ce") == "SERVICE"
  {
    var u := ToUpper("serv\U{0131}ce");
    assert u[0] == 'S' && u[1] == 'E' && u[2] == 'R' && u[3] == 'V';
    assert u[4] == 'I' && u[5] == 'C' && u[6] == 'E';
  }

  /** The upper-casing folds the dotless i: "servıce" is an explicit SERVICE. */
  lemma DotlessIFoldsToService(input: map<string, JsValue>)
    requires "visit_type" in input && input["visit_type"].Str? && input["visit_type"].s == "serv\U{0131}ce"
    ensures NormalizeVisitType(input) == Ok("SERVICE")
  {
    DotlessServiceIsTrimmed();
    DotlessServiceUpperCases();
    assert CleanString(Get(Obj(input), "visit_type")) == Some("serv\U{0131}ce");
    assert ExplicitVisitType(input) == Some("SERVICE");
  }

  /** `compactSlotsResult`: a result whose `data.items` array has more than
      ten entries keeps the first ten and records the truncation. */
  function CompactSlotsResult(result: JsValue): JsValue {
    if !Truthy(result) || !IsObject(result) then result
    else
      var data := Get(result, "data");
      if !Truthy(data) || !IsObject(data) then result
      else
        var items := Get(data, "items");
        if !items.Arr? then result
        else if |items.elems| <= MAX_SLOT_ITEMS then result
        else
          Obj(result.fields["data" := Obj(data.fields
            ["items" := Arr(items.elems[..MAX_SLOT_ITEMS])]
            ["_truncated" := Bool(true)]
            ["_returned" := Num(Finite(MAX_SLOT_ITEMS as real))]
            ["_total" := Num(Finite(|items.elems| as real))])])
  }

  /** The items array reached through `data.items`, if there is one. */
  function SlotItems(result: JsValue): Option<seq<JsValue>> {
    var items := Get(Get(result, "data"), "items");
    if items.Arr? then Some(items.elems) else None
  }

  /** Results with at most ten items are returned as they are; longer ones
      keep the first ten items in order, say so, and record the original
      length, leaving every other property of the result and of `data` alone. */
  lemma CompactSlotsResultSpec(result: JsValue)
    ensures SlotItems(result).None? || |SlotItems(result).value| <= MAX_SLOT_ITEMS ==>
      CompactSlotsResult(result) == result
    ensures SlotItems(result).Some? && |SlotItems(result).value| > MAX_SLOT_ITEMS ==>
      var r := CompactSlotsResult(result);
      var data := Get(r, "data");
      && r.Obj? && data.Obj?
      && SlotItems(r) == Some(SlotItems(result).value[..MAX_SLOT_ITEMS])
      && Get(data, "_truncated") == Bool(true)
      && Get(data, "_returned") == Num(Finite(10.0))
      && Get(data, "_total") == Num(Finite(|SlotItems(result).value| as real))
      && (forall k :: k != "data" ==> Get(r, k) == Get(result, k))
      && (forall k :: k !in {"items", "_truncated", "_returned", "_total"} ==> Get(data, k) == Get(Get(result, "data"), k))
  {
  }

  /** After compaction there are never more than ten items, and compacting
      again changes nothing. */
  lemma CompactionBoundsAndIsIdempotent(result: JsValue)
    ensures SlotItems(CompactSlotsResult(result)).Some? ==>
      |SlotItems(CompactSlotsResult(result)).value| <= MAX_SLOT_ITEMS
      || CompactSlotsResult(result) == result
    ensures CompactSlotsResult(CompactSlotsResult(result)) == CompactSlotsResult(result)
  {
    CompactSlotsResultSpec(result);
    CompactSlotsResultSpec(CompactSlotsResult(result));
  }
}
