/**
 * The geolocation of clicks, src/services/geo.ts. The HTTP call to
 * ip-api.com is not modelled: its result arrives as a `FetchOutcome`.
 */
module Geo {
  import opened Wrappers
  import opened Sequences
  import opened Store

  /** Where a click was made from: the two-letter country code and the city name. */
  datatype GeoData = GeoData(country: string, city: string)

  /** The JSON body ip-api.com answers with. */
  datatype IpApiResponse = IpApiResponse(status: string, country: string, countryCode: string, city: string)

  /**
   * What the lookup got back: `fetch` threw, or a response came with its
   * `ok` flag and its body (`None` when `response.json()` threw).
   */
  datatype FetchOutcome = Threw | Responded(ok: bool, body: Option<IpApiResponse>)

  const LookupBase: string := "http://ip-api.com/json/"
  const SuccessStatus: string := "success"

  /** The address the lookup fetches: the base followed by the address, unescaped. */
  function LookupUrl(ip: string): (url: string)
    ensures |url| == |LookupBase| + |ip|
    ensures url[..|LookupBase|] == LookupBase && url[|LookupBase|..] == ip
  {
    LookupBase + ip
  }

  /**
   * `lookupGeo`: every failure (a thrown fetch, a non-2xx status, an
   * unreadable body or a status other than "success") is `None`; a success
   * reports the country CODE, not the country name, as the country.
   */
  function LookupGeo(outcome: FetchOutcome): (r: Option<GeoData>)
    ensures r.Some? <==> outcome.Responded? && outcome.ok && outcome.body.Some? && outcome.body.value.status == SuccessStatus
    ensures r.Some? ==> r.value.country == outcome.body.value.countryCode && r.value.city == outcome.body.value.city
  {
    match outcome
    case Threw => None
    case Responded(ok, body) =>
      if !ok then None
      else match body
        case None => None
        case Some(data) => if data.status != SuccessStatus then None else Some(GeoData(data.countryCode, data.city))
  }

  /**
   * `updateClickGeo`: a failed lookup changes nothing; a successful one
   * sets the country and city of the click, and only of that click.
   */
  method UpdateClickGeo(db: Database, clickId: string, outcome: FetchOutcome)
    requires db.Valid()
    modifies db
    ensures db.Valid()
    ensures db.links == old(db.links) && db.tags == old(db.tags) && db.linkTags == old(db.linkTags)
    ensures LookupGeo(outcome).None? ==> db.clicks == old(db.clicks)
    ensures LookupGeo(outcome).Some? ==>
      db.clicks == WithGeo(old(db.clicks), clickId, LookupGeo(outcome).value.country, LookupGeo(outcome).value.city)
  {
    var geo := LookupGeo(outcome);
    if geo.Some? {
      db.SetClickGeo(clickId, geo.value.country, geo.value.city);
    }
  }

  /** The update leaves every other click, and the identity and link of every click, as it was. */
  lemma GeoTouchesOnlyItsClick(clicks: seq<ClickRow>, clickId: string, country: string, city: string)
    ensures var updated := WithGeo(clicks, clickId, country, city);
      && ClickIds(updated) == ClickIds(clicks)
      && (forall i :: 0 <= i < |clicks| ==>
            updated[i].id == clicks[i].id && updated[i].linkId == clicks[i].linkId && updated[i].timestamp == clicks[i].timestamp)
      && (forall i :: 0 <= i < |clicks| && clicks[i].id != clickId ==> updated[i] == clicks[i])
      && (forall i :: 0 <= i < |clicks| && clicks[i].id == clickId ==>
            updated[i].country == Some(country) && updated[i].city == Some(city))
  {
  }

  /** An update for a click id that is not stored changes nothing. */
  lemma GeoForMissingClick(clicks: seq<ClickRow>, clickId: string, country: string, city: string)
    requires clickId !in ClickIds(clicks)
    ensures WithGeo(clicks, clickId, country, city) == clicks
  {
  }

  /**
   * The lookups run after the response, unordered: updates of two
   * different clicks give the same table whichever lands first.
   */
  lemma GeoUpdatesCommute(clicks: seq<ClickRow>, a: string, geoA: GeoData, b: string, geoB: GeoData)
    requires a != b
    ensures WithGeo(WithGeo(clicks, a, geoA.country, geoA.city), b, geoB.country, geoB.city)
         == WithGeo(WithGeo(clicks, b, geoB.country, geoB.city), a, geoA.country, geoA.city)
  {
  }

  /** Of two updates of the same click, the one that lands last wins. */
  lemma GeoLastWriteWins(clicks: seq<ClickRow>, clickId: string, first: GeoData, second: GeoData)
    ensures WithGeo(WithGeo(clicks, clickId, first.country, first.city), clickId, second.country, second.city)
         == WithGeo(clicks, clickId, second.country, second.city)
  {
  }
}
