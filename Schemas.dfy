/**
 * The request validators of the API schemas. Each validator returns the list
 * of field errors in field order, as the schema library reports them; a field
 * with a custom validator reports at most one error, the first check that
 * fails. An empty list means the request is accepted and its values are
 * passed on unchanged (no validator rewrites its input).
 */
module Schemas {
  import opened Outcome
  import opened Entities
  import opened OrganizationRepository

  // ---------------------------------------------------------------- whitespace

  /**
   * Python's `str.isspace`: the characters that `strip()` removes and that the
   * `\s` class of a `str` pattern matches.
   */
  predicate IsSpace(c: char): (b: bool)
    ensures c == ' ' || c == '\t' || c == '\n' || c == '\r' ==> b
    ensures b ==> !IsDigit(c) && c != '+' && c != '-' && c != '.'
  {
    var n := c as int;
    (0x09 <= n <= 0x0D) || (0x1C <= n <= 0x20) || n == 0x85 || n == 0xA0 || n == 0x1680 ||
    (0x2000 <= n <= 0x200A) || n == 0x2028 || n == 0x2029 || n == 0x202F || n == 0x205F || n == 0x3000
  }

  /** Every character is whitespace; the empty string is blank. */
  predicate IsBlank(s: string) {
    forall i :: 0 <= i < |s| ==> IsSpace(s[i])
  }

  /** `str.lstrip()`: drops the leading whitespace. */
  function LStrip(s: string): (r: string)
    ensures |r| <= |s| && r == s[|s| - |r|..]
    ensures IsBlank(s[..|s| - |r|])
    ensures r == [] || !IsSpace(r[0])
    decreases |s|
  {
    if |s| > 0 && IsSpace(s[0]) then
      var r := LStrip(s[1..]);
      assert s[..|s| - |r|] == [s[0]] + s[1..][..|s| - 1 - |r|];
      r
    else s
  }

  /** `str.rstrip()`: drops the trailing whitespace. */
  function RStrip(s: string): (r: string)
    ensures |r| <= |s| && r == s[..|r|]
    ensures IsBlank(s[|r|..])
    ensures r == [] || !IsSpace(r[|r| - 1])
    decreases |s|
  {
    if |s| > 0 && IsSpace(s[|s| - 1]) then
      var r := RStrip(s[..|s| - 1]);
      assert s[|r|..] == s[..|s| - 1][|r|..] + [s[|s| - 1]];
      r
    else s
  }

  /** `str.strip()` with no argument. */
  function Strip(s: string): (r: string)
    ensures |r| <= |LStrip(s)| && r == LStrip(s)[..|r|] && IsBlank(LStrip(s)[|r|..])
    ensures r == [] || (!IsSpace(r[0]) && !IsSpace(r[|r| - 1]))
  {
    var l := LStrip(s);
    var r := RStrip(l);
    assert r != [] ==> r[0] == l[0];
    r
  }

  /** `not v.strip()` holds exactly for the blank strings. */
  lemma StripEmptyIffBlank(s: string)
    ensures Strip(s) == [] <==> IsBlank(s)
  {
    var l := LStrip(s);
    if l == [] {
      assert s[..|s| - |l|] == s;
    } else {
      assert s[|s| - |l|] == l[0];
    }
  }

  // ---------------------------------------------------------------- field errors

  datatype Problem = Blank | TooLong | OutOfRange | NotPositive | BadPhone(phone: string) | NoActivities | BelowOne

  datatype FieldError = FieldError(field: string, problem: Problem)

  /** The error list contribution of one field. */
  function Report(field: string, p: Option<Problem>): seq<FieldError> {
    if p.None? then [] else [FieldError(field, p.value)]
  }

  /** An activity name may hold at most this many characters. */
  const MaxActivityNameLength := 100

  /** The activity name validator: a blank name fails first, then one over 100 characters. */
  function ActivityNameProblem(v: string): (p: Option<Problem>)
    ensures p.None? <==> !IsBlank(v) && |v| <= MaxActivityNameLength
    ensures IsBlank(v) ==> p == Some(Blank)
    ensures !IsBlank(v) && |v| > MaxActivityNameLength ==> p == Some(TooLong)
  {
    StripEmptyIffBlank(v);
    if Strip(v) == [] then Some(Blank)
    else if |v| > MaxActivityNameLength then Some(TooLong)
    else None
  }

  /** The organization name and building address validators: non-blank after `strip()`. */
  function NonBlankProblem(v: string): (p: Option<Problem>)
    ensures p.None? <==> !IsBlank(v)
    ensures p.Some? ==> p.value == Blank
  {
    StripEmptyIffBlank(v);
    if Strip(v) == [] then Some(Blank) else None
  }

  /** A `Field(ge=lo, le=hi)` constraint. */
  function RangeProblem(x: real, lo: real, hi: real): Option<Problem> {
    if lo <= x && x <= hi then None else Some(OutOfRange)
  }

  // ---------------------------------------------------------------- phones

  predicate IsDigit(c: char) {
    '0' <= c <= '9'
  }

  predicate AllDigits(s: string) {
    forall i :: 0 <= i < |s| ==> IsDigit(s[i])
  }

  /** `[-.\s]` */
  predicate IsSeparator(c: char) {
    c == '-' || c == '.' || IsSpace(c)
  }

  /** `[-.\s]\d{n}` */
  predicate IsGroup(s: string, n: nat) {
    |s| == n + 1 && IsSeparator(s[0]) && AllDigits(s[1..])
  }

  /** `\+7\d{10}`, as in +79991234567. */
  predicate IsMobile(p: string) {
    |p| == 12 && p[0] == '+' && p[1] == '7' && AllDigits(p[2..])
  }

  /** `[238](?:[-.\s]\d{3}){2}`, as in 8-800-555. */
  predicate IsShort(p: string) {
    |p| == 9 && (p[0] == '2' || p[0] == '3' || p[0] == '8') && IsGroup(p[1..5], 3) && IsGroup(p[5..], 3)
  }

  /** `[238](?:[-.\s]\d{3}){2}(?:[-.\s]\d{2}){2}`, as in 8-800-555-35-35. */
  predicate IsLong(p: string) {
    |p| == 15 && IsShort(p[..9]) && IsGroup(p[9..12], 2) && IsGroup(p[12..], 2)
  }

  /** The alternation of the three forms, anchored at both ends. */
  predicate IsPhoneForm(p: string): (b: bool)
    ensures b ==> |p| > 0 && IsDigit(p[|p| - 1])
    ensures b ==> p[0] == '+' || IsDigit(p[0])
  {
    IsMobile(p) || IsShort(p) || IsLong(p)
  }

  /**
   * `re.match` of the anchored pattern: `$` matches at the end and also just
   * before one final newline, so a form followed by a single `\n` passes.
   */
  predicate ValidPhone(p: string): (b: bool)
    ensures IsPhoneForm(p) ==> b
    ensures b ==> |p| > 0 && (IsDigit(p[|p| - 1]) || (|p| >= 2 && p[|p| - 1] == '\n' && IsDigit(p[|p| - 2])))
    ensures |p| >= 2 && p[|p| - 1] == '\n' && p[|p| - 2] == '\n' ==> !b
  {
    IsPhoneForm(p) || (|p| > 0 && p[|p| - 1] == '\n' && IsPhoneForm(p[..|p| - 1]))
  }

  /** The number of digit characters in `s`. */
  function DigitCount(s: string): (n: nat)
    ensures n <= |s|
    ensures AllDigits(s) ==> n == |s|
  {
    if s == [] then 0 else (if IsDigit(s[0]) then 1 else 0) + DigitCount(s[1..])
  }

  lemma {:induction false} DigitCountAppend(a: string, b: string)
    ensures DigitCount(a + b) == DigitCount(a) + DigitCount(b)
    decreases |a|
  {
    if a == [] {
      assert a + b == b;
    } else {
      assert (a + b)[1..] == a[1..] + b;
      DigitCountAppend(a[1..], b);
    }
  }

  /** A separator group holds exactly its `n` digits. */
  lemma GroupDigits(s: string, n: nat)
    requires IsGroup(s, n)
    ensures DigitCount(s) == n
  {
    assert s == [s[0]] + s[1..];
    DigitCountAppend([s[0]], s[1..]);
  }

  /**
   * The forms carry the digit counts of Russian numbers: eleven digits for the
   * mobile and the long form, seven for the short form.
   */
  lemma PhoneFormDigits(p: string)
    requires IsPhoneForm(p)
    ensures IsMobile(p) ==> DigitCount(p) == 11
    ensures IsShort(p) ==> DigitCount(p) == 7
    ensures IsLong(p) ==> DigitCount(p) == 11
  {
    if IsMobile(p) {
      assert p == p[..2] + p[2..];
      DigitCountAppend(p[..2], p[2..]);
      assert p[..2] == [p[0]] + [p[1]];
      DigitCountAppend([p[0]], [p[1]]);
    }
    if IsShort(p) {
      ShortDigits(p);
    }
    if IsLong(p) {
      ShortDigits(p[..9]);
      GroupDigits(p[9..12], 2);
      GroupDigits(p[12..], 2);
      assert p == p[..9] + (p[9..12] + p[12..]);
      DigitCountAppend(p[9..12], p[12..]);
      DigitCountAppend(p[..9], p[9..12] + p[12..]);
    }
  }

  lemma ShortDigits(p: string)
    requires IsShort(p)
    ensures DigitCount(p) == 7
  {
    GroupDigits(p[1..5], 3);
    GroupDigits(p[5..], 3);
    assert p == [p[0]] + (p[1..5] + p[5..]);
    DigitCountAppend(p[1..5], p[5..]);
    DigitCountAppend([p[0]], p[1..5] + p[5..]);
  }

  /** An accepted phone has one of six lengths: the three forms, each with or without the final newline. */
  lemma ValidPhoneLength(p: string)
    requires ValidPhone(p)
    ensures |p| == 9 || |p| == 10 || |p| == 12 || |p| == 13 || |p| == 15 || |p| == 16
    ensures p[0] == '+' || p[0] == '2' || p[0] == '3' || p[0] == '8'
  {
    if !IsPhoneForm(p) {
      var q := p[..|p| - 1];
      assert q[0] == p[0];
      if IsLong(q) {
        assert q[..9][0] == q[0];
      }
    } else if IsLong(p) {
      assert p[..9][0] == p[0];
    }
  }

  /** The first phone, in list order, that does not match; None for a list whose phones all match. */
  function FirstInvalidPhone(phones: seq<string>): (r: Option<string>)
    ensures r.None? ==> forall i :: 0 <= i < |phones| ==> ValidPhone(phones[i])
    ensures r.Some? ==> r.value in phones && !ValidPhone(r.value)
    ensures r.Some? ==> exists i :: 0 <= i < |phones| && phones[i] == r.value &&
                                    forall j :: 0 <= j < i ==> ValidPhone(phones[j])
    decreases |phones|
  {
    if |phones| == 0 then None
    else if !ValidPhone(phones[0]) then Some(phones[0])
    else
      var r := FirstInvalidPhone(phones[1..]);
      if r.Some? then
        var i :| 0 <= i < |phones[1..]| && phones[1..][i] == r.value &&
                 forall j :: 0 <= j < i ==> ValidPhone(phones[1..][j]);
        assert phones[i + 1] == r.value;
        assert forall j :: 1 <= j < i + 1 ==> phones[j] == phones[1..][j - 1];
        r
      else
        assert forall i :: 1 <= i < |phones| ==> phones[i] == phones[1..][i - 1];
        r
  }

  /** The phone-list validator: the first phone that fails, if any; the empty list passes. */
  function PhonesProblem(phones: seq<string>): (p: Option<Problem>)
    ensures p.None? <==> forall i :: 0 <= i < |phones| ==> ValidPhone(phones[i])
    ensures p.Some? ==> p.value.BadPhone? && p.value.phone in phones && !ValidPhone(p.value.phone)
  {
    var bad := FirstInvalidPhone(phones);
    if bad.Some? then Some(BadPhone(bad.value)) else None
  }

  // ---------------------------------------------------------------- schemas

  /** The building create schema: a non-blank address, latitude in [-90, 90], longitude in [-180, 180]. */
  function BuildingCreateErrors(address: string, latitude: real, longitude: real): (errs: seq<FieldError>)
    ensures errs == [] <==> !IsBlank(address) && -90.0 <= latitude <= 90.0 && -180.0 <= longitude <= 180.0
    ensures FieldError("address", Blank) in errs <==> IsBlank(address)
    ensures FieldError("latitude", OutOfRange) in errs <==> !(-90.0 <= latitude <= 90.0)
    ensures FieldError("longitude", OutOfRange) in errs <==> !(-180.0 <= longitude <= 180.0)
  {
    Report("address", NonBlankProblem(address)) +
    Report("latitude", RangeProblem(latitude, -90.0, 90.0)) +
    Report("longitude", RangeProblem(longitude, -180.0, 180.0))
  }

  /** The activity create schema: the name validator only; any `parent_id`, None included, passes. */
  function ActivityCreateErrors(name: string, parentId: Option<int>): (errs: seq<FieldError>)
    ensures errs == [] <==> !IsBlank(name) && |name| <= MaxActivityNameLength
    ensures IsBlank(name) ==> errs == [FieldError("name", Blank)]
    ensures !IsBlank(name) && |name| > MaxActivityNameLength ==> errs == [FieldError("name", TooLong)]
  {
    Report("name", ActivityNameProblem(name))
  }

  /** The activity update schema: the name is not validated; a given `parent_id` must be at least 1. */
  function ActivityUpdateErrors(name: Option<string>, parentId: Option<int>): (errs: seq<FieldError>)
    ensures errs == [] <==> parentId.None? || parentId.value >= 1
    ensures errs != [] ==> errs == [FieldError("parent_id", BelowOne)]
  {
    Report("parent_id", if parentId.Some? && parentId.value < 1 then Some(BelowOne) else None)
  }

  /** The organization create schema: a non-blank name, every phone matching, at least one activity id. */
  function OrganizationCreateErrors(name: string, phones: seq<string>, buildingId: Option<int>,
                                    activityIds: seq<int>): (errs: seq<FieldError>)
    ensures errs == [] <==> !IsBlank(name) && (forall i :: 0 <= i < |phones| ==> ValidPhone(phones[i])) &&
                            |activityIds| > 0
    ensures FieldError("name", Blank) in errs <==> IsBlank(name)
    ensures FieldError("activity_ids", NoActivities) in errs <==> |activityIds| == 0
  {
    Report("name", NonBlankProblem(name)) +
    Report("phones", PhonesProblem(phones)) +
    Report("activity_ids", if |activityIds| == 0 then Some(NoActivities) else None)
  }

  /**
   * The organization update schema: only `activity_ids` is validated, and only
   * the empty list fails; name and phones pass unchecked.
   */
  function OrganizationUpdateErrors(name: Option<string>, phones: Option<seq<string>>, buildingId: Option<int>,
                                    activityIds: Option<seq<int>>): (errs: seq<FieldError>)
    ensures errs == [] <==> activityIds != Some([])
    ensures errs != [] ==> errs == [FieldError("activity_ids", NoActivities)]
  {
    Report("activity_ids", if activityIds.Some? && |activityIds.value| == 0 then Some(NoActivities) else None)
  }

  /** The radius search parameters: lat in [-90, 90], lon in [-180, 180], a positive radius. */
  function RadiusSearchErrors(lat: real, lon: real, radiusKm: real): (errs: seq<FieldError>)
    ensures errs == [] <==> -90.0 <= lat <= 90.0 && -180.0 <= lon <= 180.0 && radiusKm > 0.0
    ensures FieldError("radius_km", NotPositive) in errs <==> radiusKm <= 0.0
  {
    Report("lat", RangeProblem(lat, -90.0, 90.0)) +
    Report("lon", RangeProblem(lon, -180.0, 180.0)) +
    Report("radius_km", if radiusKm > 0.0 then None else Some(NotPositive))
  }

  /** The rectangle search parameters: each bound range-checked on its own; no `min <= max` check. */
  function RectSearchErrors(minLat: real, maxLat: real, minLon: real, maxLon: real): (errs: seq<FieldError>)
    ensures errs == [] <==> -90.0 <= minLat <= 90.0 && -90.0 <= maxLat <= 90.0 &&
                            -180.0 <= minLon <= 180.0 && -180.0 <= maxLon <= 180.0
  {
    Report("min_lat", RangeProblem(minLat, -90.0, 90.0)) +
    Report("max_lat", RangeProblem(maxLat, -90.0, 90.0)) +
    Report("min_lon", RangeProblem(minLon, -180.0, 180.0)) +
    Report("max_lon", RangeProblem(maxLon, -180.0, 180.0))
  }

  // ---------------------------------------------------------------- consequences

  /**
   * An inverted rectangle passes validation and then matches nothing: the
   * schema does not order the bounds and the filter is a plain conjunction.
   */
  lemma InvertedRectAcceptedButEmpty(orgs: Organizations, buildings: map<int, Building>,
                                     minLat: real, maxLat: real, minLon: real, maxLon: real)
    requires RectSearchErrors(minLat, maxLat, minLon, maxLon) == []
    requires minLat > maxLat
    ensures InRect(orgs, buildings, minLat, maxLat, minLon, maxLon) == {}
    ensures -90.0 <= maxLat < minLat <= 90.0
  {
    InvertedRectIsEmpty(orgs, buildings, minLat, maxLat, minLon, maxLon);
  }

  /**
   * Accepted radius parameters always find an organization sitting exactly at
   * the centre, whatever the cosine supplied for the latitude.
   */
  lemma AcceptedRadiusFindsCentre(orgs: Organizations, buildings: map<int, Building>,
                                  lat: real, lon: real, radiusKm: real, cosLat: real, o: int)
    requires RadiusSearchErrors(lat, lon, radiusKm) == [] && 0.0 <= cosLat <= 1.0
    requires o in orgs && orgs[o].buildingId.Some? && orgs[o].buildingId.value in buildings
    requires buildings[orgs[o].buildingId.value] == Building(buildings[orgs[o].buildingId.value].address, lat, lon)
    ensures o in InRadius(orgs, buildings, lat, lon, radiusKm, cosLat)
  {
    InRadiusFindsCentre(orgs, buildings, lat, lon, radiusKm, cosLat, o);
  }
}
