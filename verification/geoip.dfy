/** `GeoIP.GetCnISP` and `GeoIP.GetGeoStr`: the carrier label of a Chinese
    address and the geo column of a hop line. The MaxMind ASN and City readers
    and the ipdb district reader are inputs: each lookup is `None` when it
    threw, and a record field is `None` when the reader left it null. */
module GeoIP {
  import opened Options
  import opened Text

  /** What `AsnReader.Asn` yields: organisation name and AS number. */
  datatype AsnRecord = AsnRecord(organization: Option<string>, number: Option<int>)

  /** What `CityReader.City` yields: country ISO code, ISO code of the most
      specific subdivision, and city name. */
  datatype CityRecord = CityRecord(countryIso: Option<string>, subdivisionIso: Option<string>,
                                   cityName: Option<string>)

  /** `new CityResponse()`, used in place of a City lookup in zh mode. */
  const NoCity := CityRecord(None, None, None)

  /* ---------------- carrier classification ---------------- */

  const CernetKeywords: seq<string> :=
    ["cernet", "education", "research", "university", "academy", "computer network information center"]
  const MobileKeywords: seq<string> := ["mobile", "cmnet", "tietong", "railway"]
  const UnicomKeywords: seq<string> := ["unicom", "cnc", "china169", "netcom"]
  const TelecomKeywords: seq<string> := ["chinanet", "telecom", "no.31,jin-rong", "inter-exchange", "ct"]

  /** `hay.Contains(k0) || hay.Contains(k1) || ...`. */
  function ContainsAny(hay: string, keywords: seq<string>): (b: bool)
    ensures b <==> exists i :: 0 <= i < |keywords| && Contains(hay, keywords[i])
    decreases |keywords|
  {
    if |keywords| == 0 then false
    else
      var b := Contains(hay, keywords[0]) || ContainsAny(hay, keywords[1..]);
      assert forall i :: 1 <= i < |keywords| ==> keywords[1..][i - 1] == keywords[i];
      b
  }

  /** `GetCnISP`: for a Chinese address, the carrier its lower-cased AS
      organisation names, testing the CERNET, China Mobile, China Unicom and
      China Telecom keywords in that order. A null organisation makes
      `ToLower` throw, which the catch turns into the empty label. */
  function CnIsp(country: Option<string>, organization: Option<string>): (isp: string)
    ensures isp == "" || isp == "CERNET" || isp == "CM" || isp == "CU" || isp == "CT"
    ensures country != Some("CN") || organization.None? ==> isp == ""
    ensures country == Some("CN") && organization.Some? ==>
              var l := Lower(organization.value);
              && (isp == "CERNET" <==> ContainsAny(l, CernetKeywords))
              && (isp == "CM" <==> !ContainsAny(l, CernetKeywords) && ContainsAny(l, MobileKeywords))
              && (isp == "CU" <==> !ContainsAny(l, CernetKeywords) && !ContainsAny(l, MobileKeywords)
                                     && ContainsAny(l, UnicomKeywords))
              && (isp == "CT" <==> !ContainsAny(l, CernetKeywords) && !ContainsAny(l, MobileKeywords)
                                     && !ContainsAny(l, UnicomKeywords) && ContainsAny(l, TelecomKeywords))
  {
    if organization.None? then ""
    else if country != Some("CN") then ""
    else
      var l := Lower(organization.value);
      if ContainsAny(l, CernetKeywords) then "CERNET"
      else if ContainsAny(l, MobileKeywords) then "CM"
      else if ContainsAny(l, UnicomKeywords) then "CU"
      else if ContainsAny(l, TelecomKeywords) then "CT"
      else ""
  }

  /** Classification ignores case: an organisation and its lower-case form get
      the same label. */
  lemma CnIspIgnoresCase(country: Option<string>, organization: string)
    ensures CnIsp(country, Some(organization)) == CnIsp(country, Some(Lower(organization)))
  {
    LowerIdempotent(organization);
  }

  /** Any organisation containing "ct" in any case is China Telecom unless an
      earlier carrier's keyword matched first. */
  lemma CtCatchesTheRest(organization: string, pre: string, post: string)
    requires Lower(organization) == pre + "ct" + post
    requires !ContainsAny(Lower(organization), CernetKeywords)
    requires !ContainsAny(Lower(organization), MobileKeywords)
    requires !ContainsAny(Lower(organization), UnicomKeywords)
    ensures CnIsp(Some("CN"), Some(organization)) == "CT"
  {
    ContainsWithin(pre, "ct", post);
    assert TelecomKeywords[4] == "ct";
  }

  /** First match wins: an education network that also names a mobile
      carrier is CERNET. */
  lemma UniversityBeforeMobile()
    ensures CnIsp(Some("CN"), Some("University Mobile")) == "CERNET"
  {
    var l := Lower("University Mobile");
    assert l == "university mobile";
    ContainsWithin("", "university", " mobile");
    assert "" + "university" + " mobile" == l;
    assert CernetKeywords[3] == "university";
  }

  /* ---------------- geo string ---------------- */

  /** The text of the AS number in `$"...AS{number}"`: null interpolates as empty. */
  function NumberText(number: Option<int>): string {
    match number
    case None => ""
    case Some(n) => IntToDecimal(n)
  }

  /** `$"[{organization} / AS{number}] "`. */
  function AsnText(asn: AsnRecord): string {
    "[" + asn.organization.GetOr("") + " / AS" + NumberText(asn.number) + "] "
  }

  /** The AS segment: the bracketed organisation and number, padded to 50;
      a longer text is kept whole. */
  function AsSegment(asn: AsnRecord): (r: string)
    ensures |r| >= 50 && At(r, 0, AsnText(asn))
    ensures |r| == if |AsnText(asn)| < 50 then 50 else |AsnText(asn)|
    ensures |AsnText(asn)| <= 50 ==> |r| == 50
    ensures r[0] == '[' && At(r, 1, asn.organization.GetOr(""))
    ensures forall i :: |AsnText(asn)| <= i < |r| ==> r[i] == ' '
  {
    var text := AsnText(asn);
    var org := asn.organization.GetOr("");
    var r := PadRight(text, 50);
    assert At(text, 1, org);
    r
  }

  /** The carrier segment: five blanks without a label, else the bracketed
      label with a trailing space, left-padded to 5. */
  function CarrierSegment(isp: string): (r: string)
    ensures isp == "" ==> r == "     "
    ensures isp != "" ==> |r| == (if |isp| + 3 < 5 then 5 else |isp| + 3)
    ensures isp != "" ==> At(r, |r| - |isp| - 3, "[" + isp + "] ")
    ensures isp != "" ==> forall k :: 0 <= k < |r| - |isp| - 3 ==> r[k] == ' '
    ensures |isp| >= 2 ==> r == "[" + isp + "] "
  {
    if isp != "" then PadLeft("[" + isp + "] ", 5) else "     "
  }

  /** One city field followed by a space, or nothing when it is null or white space. */
  function Field(s: Option<string>): string {
    if IsNullOrWhiteSpace(s) then "" else s.value + " "
  }

  /** Country ISO, subdivision ISO and city name, each present one followed by a space. */
  function CityFields(city: CityRecord): string {
    Field(city.countryIso) + Field(city.subdivisionIso) + Field(city.cityName)
  }

  /** The city segment: in zh mode the distinct districts joined by spaces
      and padded to 8; otherwise the city fields padded to 20. A longer text
      is kept whole. */
  function CitySegment(isZh: bool, city: CityRecord, districts: seq<string>): (r: string)
    ensures isZh ==> |r| >= 8 && At(r, 0, JoinSpace(Distinct(districts)))
    ensures !isZh ==> |r| >= 20 && At(r, 0, CityFields(city))
    ensures isZh ==> |r| == var t := JoinSpace(Distinct(districts)); if |t| < 8 then 8 else |t|
    ensures !isZh ==> |r| == var t := CityFields(city); if |t| < 20 then 20 else |t|
    ensures isZh ==> forall i :: |JoinSpace(Distinct(districts))| <= i < |r| ==> r[i] == ' '
    ensures !isZh ==> forall i :: |CityFields(city)| <= i < |r| ==> r[i] == ' '
  {
    if isZh then PadRight(JoinSpace(Distinct(districts)), 8)
    else PadRight(CityFields(city), 20)
  }

  /** A city record with every field null or blank prints as twenty blanks. */
  lemma BlankCity(city: CityRecord, districts: seq<string>)
    requires IsNullOrWhiteSpace(city.countryIso) && IsNullOrWhiteSpace(city.subdivisionIso)
    requires IsNullOrWhiteSpace(city.cityName)
    ensures CitySegment(false, city, districts) == Spaces(20)
  {
    var r := CitySegment(false, city, districts);
    assert CityFields(city) == "";
    assert |r| == 20;
  }

  /** A country code that is not blank leads the city segment, followed by
      a space. */
  lemma CountryLeads(city: CityRecord, districts: seq<string>)
    requires !IsNullOrWhiteSpace(city.countryIso)
    ensures At(CitySegment(false, city, districts), 0, city.countryIso.value + " ")
  {
    var country := Field(city.countryIso);
    var rest := Field(city.subdivisionIso) + Field(city.cityName);
    AtConcat(country, rest, "");
    assert CityFields(city) == country + rest + "";
    AtWithin(CitySegment(false, city, districts), 0, CityFields(city), 0, country);
  }

  /** When the district names hold no spaces, the zh city segment still tells
      them apart: splitting its text at spaces gives the distinct districts
      back, in their first-seen order. */
  lemma DistrictsRecoverable(districts: seq<string>)
    requires |districts| >= 1
    requires forall i :: 0 <= i < |districts| ==> NoSpace(districts[i])
    ensures SplitSpace(JoinSpace(Distinct(districts))) == Distinct(districts)
  {
    var d := Distinct(districts);
    assert districts[0] in d;
    forall i | 0 <= i < |d|
      ensures NoSpace(d[i])
    {
      assert d[i] in districts;
    }
    SplitJoin(d);
  }

  /** `GetGeoStr`: nothing for the loopback or the unspecified address;
      otherwise AS segment, carrier segment and city segment. A lookup that
      throws makes the whole string empty; in zh mode the City lookup is not
      made and the carrier is classified against an empty City record. */
  function GeoStr<A(==)>(address: A, any: A, isLoopback: bool, isZh: bool, asn: Option<AsnRecord>,
                         city: Option<CityRecord>, districts: Option<seq<string>>): (r: string)
    ensures isLoopback || address == any ==> r == ""
    ensures r == "" <==> || isLoopback || address == any || asn.None?
                         || (!isZh && city.None?) || (isZh && districts.None?)
    ensures r != "" ==>
              var c := if isZh then NoCity else city.value;
              var isp := CnIsp(c.countryIso, asn.value.organization);
              && r == AsSegment(asn.value) + CarrierSegment(isp) + CitySegment(isZh, c, districts.GetOr([]))
              && |r| >= 55 + (if isZh then 8 else 20)
  {
    if isLoopback || address == any then ""
    else if asn.None? || (!isZh && city.None?) || (isZh && districts.None?) then ""
    else
      var c := if isZh then NoCity else city.value;
      var isp := CnIsp(c.countryIso, asn.value.organization);
      AsSegment(asn.value) + CarrierSegment(isp) + CitySegment(isZh, c, districts.GetOr([]))
  }

  /** In zh mode no carrier label is ever shown: the City lookup is skipped,
      so the country is null and the carrier segment is five blanks. */
  lemma ZhShowsNoCarrier<A>(address: A, any: A, isLoopback: bool, asn: Option<AsnRecord>,
                            city: Option<CityRecord>, districts: Option<seq<string>>)
    requires GeoStr(address, any, isLoopback, true, asn, city, districts) != ""
    ensures var r := GeoStr(address, any, isLoopback, true, asn, city, districts);
            At(r, |AsSegment(asn.value)|, "     ")
  {
    var a := AsSegment(asn.value);
    AtConcat(a, "     ", CitySegment(true, NoCity, districts.value));
  }

  /** Every carrier label but CERNET is two letters, so the carrier segment
      is five columns wide unless the carrier is CERNET. */
  lemma NarrowCarrier(country: Option<string>, organization: Option<string>)
    ensures CnIsp(country, organization) != "CERNET" ==>
              |CarrierSegment(CnIsp(country, organization))| == 5
  {
  }

  /** `r` starts with `head`, holds `cs` from column `|a|` and `ts` right
      after it. */
  predicate Columns(r: string, a: string, cs: string, ts: string, head: string) {
    At(r, 0, head) && At(r, |a|, cs) && At(r, |a| + |cs|, ts)
  }

  /** Three segments laid end to end, the first starting with `head`. */
  lemma ThreeColumns(r: string, a: string, cs: string, ts: string, head: string)
    requires r == a + cs + ts && At(a, 0, head)
    ensures Columns(r, a, cs, ts, head)
  {
    AtConcat(a, cs, ts);
    AtWithin(a + cs + ts, 0, a, 0, head);
  }

  /** A geo string whose lookups all succeeded is its three segments. */
  lemma GeoStrParts<A>(address: A, any: A, isLoopback: bool, isZh: bool, asn: Option<AsnRecord>,
                       city: Option<CityRecord>, districts: Option<seq<string>>)
    requires !isLoopback && address != any && asn.Some?
    requires if isZh then districts.Some? else city.Some?
    ensures var c := if isZh then NoCity else city.value;
            GeoStr(address, any, isLoopback, isZh, asn, city, districts)
              == AsSegment(asn.value) + CarrierSegment(CnIsp(c.countryIso, asn.value.organization))
                 + CitySegment(isZh, c, districts.GetOr([]))
  {
  }

  /** The columns of a geo string: the AS text starts it, the carrier
      segment starts at column 50, or right after an AS text longer than
      that, and the city segment follows the carrier segment. */
  lemma GeoStrColumns<A>(address: A, any: A, isLoopback: bool, isZh: bool, asn: Option<AsnRecord>,
                         city: Option<CityRecord>, districts: Option<seq<string>>)
    requires !isLoopback && address != any && asn.Some?
    requires if isZh then districts.Some? else city.Some?
    ensures var r := GeoStr(address, any, isLoopback, isZh, asn, city, districts);
            var c := if isZh then NoCity else city.value;
            var cs := CarrierSegment(CnIsp(c.countryIso, asn.value.organization));
            var a := AsSegment(asn.value);
            var ts := CitySegment(isZh, c, districts.GetOr([]));
            && |a| == (if |AsnText(asn.value)| < 50 then 50 else |AsnText(asn.value)|)
            && r == a + cs + ts
            && Columns(r, a, cs, ts, AsnText(asn.value))
  {
    var c := if isZh then NoCity else city.value;
    var cs := CarrierSegment(CnIsp(c.countryIso, asn.value.organization));
    var a := AsSegment(asn.value);
    var ts := CitySegment(isZh, c, districts.GetOr([]));
    var r := GeoStr(address, any, isLoopback, isZh, asn, city, districts);
    GeoStrParts(address, any, isLoopback, isZh, asn, city, districts);
    ThreeColumns(r, a, cs, ts, AsnText(asn.value));
  }
}
