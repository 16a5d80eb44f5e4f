/**
 * The self-contained application factory of src/app.ts: a health route and
 * a smaller `POST /api/links` (no expiry, password or tags) whose slug
 * conflicts are answered with 409 instead of an uncaught error.
 */
module App {
  import opened Wrappers
  import opened Js
  import opened Store
  import opened Schemas
  import opened Http

  /** The alphabet of generated slugs: lower-case letters and digits. */
  const Alphabet: string := "abcdefghijklmnopqrstuvwxyz0123456789"
  const GeneratedSlugLength: nat := 7

  /**
   * `customAlphabet(Alphabet, 7)()`: seven characters of the alphabet;
   * `pick(i)` is the i-th random draw, taken onto the alphabet.
   */
  function GenerateSlug(pick: nat -> nat): (slug: string)
    ensures |slug| == GeneratedSlugLength
    ensures forall i :: 0 <= i < |slug| ==> slug[i] in Alphabet
  {
    seq(GeneratedSlugLength, i requires 0 <= i < GeneratedSlugLength => Alphabet[pick(i) % |Alphabet|])
  }

  /** Every generated slug would also pass the slug rule a caller's own slug must pass. */
  lemma GeneratedSlugAccepted(pick: nat -> nat)
    ensures SlugAccepted(GenerateSlug(pick))
  {
    var slug := GenerateSlug(pick);
    AlphabetIsSlugChars();
    forall i | 0 <= i < |slug| ensures IsSlugChar(slug[i]) {
      var k := pick(i) % |Alphabet|;
      assert slug[i] == Alphabet[k];
    }
    assert AllSlugChars(slug);
    PatternIsAscii(slug);
  }

  /** Every character of the alphabet is in the slug pattern's class. */
  lemma AlphabetIsSlugChars()
    ensures forall k :: 0 <= k < |Alphabet| ==> IsSlugChar(Alphabet[k])
  {
  }

  /** The body `createLinkSchema` of this file reads. */
  datatype AppLinkBody = AppLinkBody(url: string, slug: Option<string>)

  /** `.url().refine(...)`: a URL whose scheme is http or https. */
  predicate UrlAccepted(isUrl: string -> bool, url: string)
    ensures UrlAccepted(isUrl, url) ==> isUrl(url) && |url| >= 7 && url[..4] == "http"
    ensures isUrl(url) && |url| >= 8 && url[..8] == "https://" ==> UrlAccepted(isUrl, url)
  {
    isUrl(url) && (StartsWith(url, "http://") || StartsWith(url, "https://"))
  }

  /** `createLinkSchema.safeParse(body).success` for this file's schema. */
  predicate AppLinkAccepted(isUrl: string -> bool, body: AppLinkBody) {
    UrlAccepted(isUrl, body.url) && OptionalAccepted(body.slug, SlugAccepted)
  }

  /**
   * This schema is stricter than the one of src/schemas/link.ts exactly in
   * the URL scheme: every body it accepts the other accepts, and a body only
   * the other accepts has a URL that is neither http nor https.
   */
  lemma AppSchemaStricter(isUrl: string -> bool, body: AppLinkBody)
    ensures var full := CreateLinkBody(body.url, body.slug, None, None, None);
      && (AppLinkAccepted(isUrl, body) ==> CreateLinkAccepted(isUrl, full))
      && (CreateLinkAccepted(isUrl, full) && !AppLinkAccepted(isUrl, body) ==>
            !StartsWith(body.url, "http://") && !StartsWith(body.url, "https://"))
      && (CreateLinkAccepted(isUrl, full) && !StartsWith(body.url, "http://") && !StartsWith(body.url, "https://") ==>
            !AppLinkAccepted(isUrl, body))
  {
  }

  /** `customSlug || generateSlug()`. */
  function ChosenSlug(body: AppLinkBody, pick: nat -> nat): (slug: string)
    ensures Truthy(body.slug) ==> slug == body.slug.value
    ensures !Truthy(body.slug) ==> |slug| == GeneratedSlugLength && forall i :: 0 <= i < |slug| ==> slug[i] in Alphabet
  {
    if Truthy(body.slug) then body.slug.value else GenerateSlug(pick)
  }

  const InvalidRequest: Response := Failure(400, "Invalid request", ValidationError)
  const SlugTaken: Response := Failure(409, "Slug already exists", Conflict)

  /**
   * `POST /api/links` of `createApp`. A rejected body changes nothing; a
   * taken slug is 409 and changes nothing; a taken id (a nanoid collision)
   * is an uncaught error; otherwise the link is stored without expiry or
   * password and echoed with no tags.
   */
  method CreateLink(db: Database, body: AppLinkBody, isUrl: string -> bool, id: string, pick: nat -> nat,
                    now: int, baseUrl: string) returns (r: Response)
    requires db.Valid()
    modifies db
    ensures db.Valid()
    ensures db.tags == old(db.tags) && db.linkTags == old(db.linkTags) && db.clicks == old(db.clicks)
    ensures !AppLinkAccepted(isUrl, body) ==> r == InvalidRequest && db.links == old(db.links)
    ensures AppLinkAccepted(isUrl, body) ==>
      var slug := ChosenSlug(body, pick);
      && (id in LinkIds(old(db.links)) ==> r == InternalError && db.links == old(db.links))
      && (id !in LinkIds(old(db.links)) && slug in Slugs(old(db.links)) ==> r == SlugTaken && db.links == old(db.links))
      && (id !in LinkIds(old(db.links)) && slug !in Slugs(old(db.links)) ==>
            && r == LinkBody(201, LinkView(id, slug, ShortUrl(baseUrl, slug), body.url, None, false, [], now, now))
            && db.links == old(db.links) + [LinkRow(id, slug, body.url, None, None, now, now)])
  {
    if !AppLinkAccepted(isUrl, body) {
      return InvalidRequest;
    }
    var slug := ChosenSlug(body, pick);
    var outcome := db.InsertLink(LinkRow(id, slug, body.url, None, None, now, now));
    if outcome == UniqueFailed("links.slug") {
      return SlugTaken;
    }
    if outcome != Done {
      return InternalError;
    }
    r := LinkBody(201, LinkView(id, slug, ShortUrl(baseUrl, slug), body.url, None, false, [], now, now));
  }

  /** The slug a successful creation stores is always one the slug rule accepts. */
  lemma CreatedSlugAccepted(isUrl: string -> bool, body: AppLinkBody, pick: nat -> nat)
    requires AppLinkAccepted(isUrl, body)
    ensures SlugAccepted(ChosenSlug(body, pick))
  {
    if !Truthy(body.slug) {
      GeneratedSlugAccepted(pick);
    }
  }
}
