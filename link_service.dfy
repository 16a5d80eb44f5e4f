/**
 * The HTTP handlers of src/index.ts over the tables of `Store`. Each
 * handler takes what the original reads from outside as parameters:
 * `now` and `timestamp` stand for `Date.now()`, `id`, `clickId` and
 * `randomSlug` for nanoid's fresh values, `hash` and `compare` for bcrypt,
 * `isUrl` for zod's URL check and `baseUrl` for the `BASE_URL` setting.
 */
module LinkService {
  import opened Wrappers
  import opened Sequences
  import opened Numbers
  import opened Store
  import opened Schemas
  import opened Http
  import opened Js

  const LinkNotFound: Response := Failure(404, "Link not found", NotFound)
  const DefaultPage: int := 1
  const DefaultLimit: int := 20

  /** `a || b || null`. */
  function Either(a: Option<string>, b: Option<string>): (r: Option<string>)
    ensures Truthy(a) ==> r == a
    ensures !Truthy(a) && Truthy(b) ==> r == b
    ensures !Truthy(a) && !Truthy(b) ==> r == None
  {
    if Truthy(a) then a else if Truthy(b) then b else None
  }

  /** `h || null` for an optional header. */
  function OrNull(h: Option<string>): (r: Option<string>)
    ensures r == if Truthy(h) then h else None
  {
    Either(h, None)
  }

  /** `!!link.password_hash`. */
  predicate IsProtected(l: LinkRow) {
    Truthy(l.passwordHash)
  }

  /** `link.expires_at && link.expires_at < now`: a set, non-zero expiry strictly in the past. */
  predicate IsExpired(l: LinkRow, now: int)
    ensures IsExpired(l, now) ==> l.expiresAt.Some? && now > l.expiresAt.value
    ensures l.expiresAt.None? || l.expiresAt == Some(0) ==> !IsExpired(l, now)
    ensures l.expiresAt.Some? && l.expiresAt.value != 0 && now > l.expiresAt.value ==> IsExpired(l, now)
  {
    l.expiresAt.Some? && l.expiresAt.value != 0 && l.expiresAt.value < now
  }

  // ---------------------------------------------------------------------------
  // Joins with the tags table

  /**
   * `SELECT t.name FROM tags t INNER JOIN link_tags lt ON t.id = lt.tag_id
   * WHERE lt.link_id = ?`, taken in `link_tags` order.
   */
  function TagNamesOf(linkTags: seq<LinkTagRow>, tags: seq<TagRow>, linkId: string): (names: seq<string>)
    ensures |names| <= |linkTags|
    ensures forall n :: n in names ==> n in TagNames(tags)
  {
    if linkTags == [] then []
    else
      var rest := TagNamesOf(linkTags[1..], tags, linkId);
      var row := linkTags[0];
      if row.linkId != linkId then rest
      else
        match Find(tags, (t: TagRow) => t.id == row.tagId)
        case Some(t) => [t.name] + rest
        case None => rest
  }

  /** The join yields exactly the names of the tags associated with the link. */
  lemma {:induction false} TagNamesOfJoin(linkTags: seq<LinkTagRow>, tags: seq<TagRow>, linkId: string)
    requires DistinctKeys(tags, TagIdOf)
    ensures forall n :: n in TagNamesOf(linkTags, tags, linkId) <==>
      exists t :: t in tags && t.name == n && LinkTagRow(linkId, t.id) in linkTags
  {
    if linkTags != [] {
      TagNamesOfJoin(linkTags[1..], tags, linkId);
      var row := linkTags[0];
      assert linkTags == [row] + linkTags[1..];
      var found := Find(tags, (t: TagRow) => t.id == row.tagId);
      forall n | exists t :: t in tags && t.name == n && LinkTagRow(linkId, t.id) in linkTags
        ensures n in TagNamesOf(linkTags, tags, linkId)
      {
        var t :| t in tags && t.name == n && LinkTagRow(linkId, t.id) in linkTags;
        if LinkTagRow(linkId, t.id) != row {
          assert LinkTagRow(linkId, t.id) in linkTags[1..];
        } else {
          RowByKey(tags, TagIdOf, t, found.value);
        }
      }
    }
  }

  /**
   * The `link_tags` rows that `POST /api/links` inserts for the requested
   * names, in request order: one per name that names an existing tag.
   */
  function TagLinkRows(linkId: string, names: seq<string>, tags: seq<TagRow>): (rows: seq<LinkTagRow>)
    ensures |rows| <= |names|
    ensures forall r :: r in rows ==> r.linkId == linkId && r.tagId in TagIds(tags)
  {
    if names == [] then []
    else
      var init := TagLinkRows(linkId, names[..|names| - 1], tags);
      match FindTagByName(tags, names[|names| - 1])
      case Some(t) => init + [LinkTagRow(linkId, t.id)]
      case None => init
  }

  /** Each row inserted for a prefix of the names is a prefix of the rows for all of them. */
  lemma {:induction false} TagLinkRowsPrefix(linkId: string, names: seq<string>, tags: seq<TagRow>, i: nat)
    requires i <= |names|
    ensures TagLinkRows(linkId, names[..i], tags) <= TagLinkRows(linkId, names, tags)
  {
    if i < |names| {
      TagLinkRowsPrefix(linkId, names[..|names| - 1], tags, i);
      assert names[..|names| - 1][..i] == names[..i];
    } else {
      assert names[..i] == names;
    }
  }

  /**
   * The rows inserted for a new link associate it with exactly the existing
   * tags whose names were requested.
   */
  lemma {:induction false} TagLinkRowsExact(linkId: string, names: seq<string>, tags: seq<TagRow>)
    requires DistinctKeys(tags, TagNameOf)
    ensures forall r :: r in TagLinkRows(linkId, names, tags) ==>
      r.linkId == linkId && exists t :: t in tags && t.id == r.tagId && t.name in names
    ensures forall t :: t in tags && t.name in names ==> LinkTagRow(linkId, t.id) in TagLinkRows(linkId, names, tags)
  {
    if names != [] {
      var init := names[..|names| - 1];
      var last := names[|names| - 1];
      TagLinkRowsExact(linkId, init, tags);
      assert names == init + [last];
      forall t | t in tags && t.name in names
        ensures LinkTagRow(linkId, t.id) in TagLinkRows(linkId, names, tags)
      {
        if t.name == last {
          var found := FindTagByName(tags, last);
          RowByKey(tags, TagNameOf, t, found.value);
        } else {
          assert t.name in init;
        }
      }
    }
  }

  /**
   * After `POST /api/links` has inserted its rows, reading the link back
   * shows exactly the requested names that are existing tags.
   */
  lemma CreatedLinkTags(linkTags: seq<LinkTagRow>, tags: seq<TagRow>, linkId: string, names: seq<string>)
    requires DistinctKeys(tags, TagIdOf) && DistinctKeys(tags, TagNameOf)
    requires forall r :: r in linkTags ==> r.linkId != linkId
    ensures forall n :: n in TagNamesOf(linkTags + TagLinkRows(linkId, names, tags), tags, linkId) <==>
      n in names && n in TagNames(tags)
  {
    var rows := TagLinkRows(linkId, names, tags);
    TagNamesOfJoin(linkTags + rows, tags, linkId);
    TagLinkRowsExact(linkId, names, tags);
    forall n | n in TagNamesOf(linkTags + rows, tags, linkId) ensures n in names && n in TagNames(tags) {
      var t :| t in tags && t.name == n && LinkTagRow(linkId, t.id) in linkTags + rows;
      var r := LinkTagRow(linkId, t.id);
      assert r in rows;
      var t' :| t' in tags && t'.id == r.tagId && t'.name in names;
      RowByKey(tags, TagIdOf, t, t');
    }
  }

  /** `COUNT(lt.link_id)` for one tag of the LEFT JOIN: the number of `link_tags` rows naming it. */
  function LinkCount(linkTags: seq<LinkTagRow>, tagId: string): (n: nat)
    ensures n <= |linkTags|
    ensures n == 0 <==> forall r :: r in linkTags ==> r.tagId != tagId
  {
    var rows := Filter(linkTags, (r: LinkTagRow) => r.tagId == tagId);
    assert forall r :: r in linkTags && r.tagId == tagId ==> r in rows && |rows| > 0;
    assert |rows| > 0 ==> rows[0] in linkTags && rows[0].tagId == tagId;
    |rows|
  }

  /** The link ids named by some rows of `link_tags`. */
  function LinkIdsOf(rows: seq<LinkTagRow>): set<string> {
    set r | r in rows :: r.linkId
  }

  /** The links a tag is attached to. */
  function LinksOfTag(linkTags: seq<LinkTagRow>, tagId: string): set<string> {
    set r | r in linkTags && r.tagId == tagId :: r.linkId
  }

  /** The link ids of a non-empty sequence of rows: the first row's, and those of the rest. */
  lemma LinkIdsOfCons(rows: seq<LinkTagRow>)
    requires rows != []
    ensures LinkIdsOf(rows) == {rows[0].linkId} + LinkIdsOf(rows[1..])
  {
    assert rows == [rows[0]] + rows[1..];
  }

  /** Among distinct rows of one tag, the first row's link appears in no later row. */
  lemma FirstLinkUnrepeated(rows: seq<LinkTagRow>, tagId: string)
    requires rows != [] && Distinct(rows)
    requires forall i :: 0 <= i < |rows| ==> rows[i].tagId == tagId
    ensures rows[0].linkId !in LinkIdsOf(rows[1..])
  {
  }

  /** Distinct rows of one tag carry distinct links, so there are as many links as rows. */
  lemma {:induction false} DistinctRowsCountLinks(rows: seq<LinkTagRow>, tagId: string)
    requires Distinct(rows)
    requires forall i :: 0 <= i < |rows| ==> rows[i].tagId == tagId
    ensures |LinkIdsOf(rows)| == |rows|
  {
    if rows != [] {
      var rest := rows[1..];
      assert Distinct(rest) by {
        forall i, j | 0 <= i < j < |rest| ensures rest[i] != rest[j] {
          assert rest[i] == rows[i + 1] && rest[j] == rows[j + 1];
        }
      }
      DistinctRowsCountLinks(rest, tagId);
      LinkIdsOfCons(rows);
      FirstLinkUnrepeated(rows, tagId);
    }
  }

  /** `linkCount` is the number of distinct links carrying the tag, and 0 for an unused tag. */
  lemma LinkCountIsLinks(linkTags: seq<LinkTagRow>, tagId: string)
    requires Distinct(linkTags)
    ensures LinkCount(linkTags, tagId) == |LinksOfTag(linkTags, tagId)|
    ensures (forall r :: r in linkTags ==> r.tagId != tagId) ==> LinkCount(linkTags, tagId) == 0
  {
    var rows := Filter(linkTags, (r: LinkTagRow) => r.tagId == tagId);
    FilterKeepsDistinct(linkTags, (r: LinkTagRow) => r.tagId == tagId);
    DistinctRowsCountLinks(rows, tagId);
    assert LinkIdsOf(rows) == LinksOfTag(linkTags, tagId);
  }

  /** The rows of `GET /api/tags`: every tag with its link count, listed in the order of the tags table. */
  function TagSummaries(tags: seq<TagRow>, linkTags: seq<LinkTagRow>): (r: seq<TagSummary>)
    ensures |r| == |tags|
  {
    seq(|tags|, i requires 0 <= i < |tags| => TagSummary(tags[i].id, tags[i].name, LinkCount(linkTags, tags[i].id)))
  }

  /** A link row with its tag names, as the API shows it. */
  function ViewOf(l: LinkRow, tagNames: seq<string>, baseUrl: string): LinkView {
    LinkView(l.id, l.slug, ShortUrl(baseUrl, l.slug), l.targetUrl, l.expiresAt, IsProtected(l), tagNames, l.createdAt, l.updatedAt)
  }

  /** The `.map` over the selected rows of `GET /api/links`. */
  function Views(rows: seq<LinkRow>, linkTags: seq<LinkTagRow>, tags: seq<TagRow>, baseUrl: string): (r: seq<LinkView>)
    ensures |r| == |rows|
    ensures forall i :: 0 <= i < |r| ==> r[i].id == rows[i].id && r[i].createdAt == rows[i].createdAt
  {
    seq(|rows|, i requires 0 <= i < |rows| => ViewOf(rows[i], TagNamesOf(linkTags, tags, rows[i].id), baseUrl))
  }

  // ---------------------------------------------------------------------------
  // Listing and paging

  /** The `GET /api/links` parameters, already read by `parseInt`; `None` is an absent or empty parameter. */
  datatype ListQuery = ListQuery(page: Option<int>, limit: Option<int>, tag: Option<string>)

  /** The tag filter: the inner join on `link_tags` and `tags` with `t.name = ?`. */
  function TaggedLinks(links: seq<LinkRow>, tags: seq<TagRow>, linkTags: seq<LinkTagRow>, name: string): (r: seq<LinkRow>)
    ensures |r| <= |links|
    ensures forall l :: l in r ==> l in links
    ensures name !in TagNames(tags) ==> r == []
  {
    match FindTagByName(tags, name)
    case None => []
    case Some(t) => Filter(links, (l: LinkRow) => LinkTagRow(l.id, t.id) in linkTags)
  }

  /** The tag filter keeps exactly the links associated with a tag of that name. */
  lemma TaggedLinksJoin(links: seq<LinkRow>, tags: seq<TagRow>, linkTags: seq<LinkTagRow>, name: string)
    requires DistinctKeys(tags, TagNameOf)
    ensures forall l :: l in TaggedLinks(links, tags, linkTags, name) <==>
      l in links && exists t :: t in tags && t.name == name && LinkTagRow(l.id, t.id) in linkTags
  {
    var found := FindTagByName(tags, name);
    forall l, t | l in links && t in tags && t.name == name && LinkTagRow(l.id, t.id) in linkTags
      ensures l in TaggedLinks(links, tags, linkTags, name)
    {
      RowByKey(tags, TagNameOf, t, found.value);
    }
  }

  function CreatedAtOf(l: LinkRow): int { l.createdAt }

  /** `ORDER BY l.created_at DESC`. */
  function NewestFirst(links: seq<LinkRow>): (r: seq<LinkRow>)
    ensures SortedDesc(r, CreatedAtOf)
    ensures multiset(r) == multiset(links)
  {
    SortDesc(links, CreatedAtOf)
  }

  /** `Math.ceil(total / limit)`; `None` for a zero limit, where JSON prints the infinite or NaN quotient as `null`. */
  function TotalPages(total: nat, limit: int): (pages: Option<int>)
    ensures pages.None? <==> limit == 0
    ensures limit > 0 ==> pages.value >= 0 && (pages.value - 1) * limit < total <= pages.value * limit
    ensures limit < 0 ==> pages.value <= 0 && pages.value * limit <= total < (pages.value - 1) * limit
  {
    if limit == 0 then None else Some(CeilDiv(total, limit))
  }

  /** Pages 1 to `n` of `s`, each `limit` long, one after the other. */
  function Pages<T>(s: seq<T>, limit: int, n: nat): seq<T>
    requires limit > 0
  {
    if n == 0 then [] else Pages(s, limit, n - 1) + LimitOffset(s, limit, (n - 1) * limit)
  }

  /** The offset of page `n` is non-negative and one limit short of the offset of page `n + 1`. */
  lemma NextPageOffset(n: nat, limit: int)
    requires n > 0 && limit > 0
    ensures 0 <= (n - 1) * limit && (n - 1) * limit + limit == n * limit
  {
  }

  /** The first `n` pages together are the first `n * limit` rows. */
  lemma {:induction false} PagesArePrefix<T>(s: seq<T>, limit: int, n: nat)
    requires limit > 0
    ensures Pages(s, limit, n) == s[..if n * limit < |s| then n * limit else |s|]
  {
    if n > 0 {
      PagesArePrefix(s, limit, n - 1);
      var before := (n - 1) * limit;
      NextPageOffset(n, limit);
      var a := if before < |s| then before else |s|;
      var b := if n * limit < |s| then n * limit else |s|;
      var page := LimitOffset(s, limit, before);
      assert page == s[a..b];
      assert s[..a] + s[a..b] == s[..b];
    }
  }

  /**
   * Paging with a positive limit loses and repeats nothing: pages 1 to
   * `totalPages` together are the whole ordered listing, and the page after
   * the last is empty.
   */
  lemma PagesCoverListing<T>(s: seq<T>, limit: int)
    requires limit > 0
    ensures Pages(s, limit, TotalPages(|s|, limit).value) == s
    ensures LimitOffset(s, limit, TotalPages(|s|, limit).value * limit) == []
  {
    var n := TotalPages(|s|, limit).value;
    PagesArePrefix(s, limit, n);
    assert s[..|s|] == s;
  }

  /** The links the listing ranges over: all of them, or those carrying the requested tag. */
  function Candidates(links: seq<LinkRow>, tags: seq<TagRow>, linkTags: seq<LinkTagRow>, tag: Option<string>): seq<LinkRow> {
    if Truthy(tag) then TaggedLinks(links, tags, linkTags, tag.value) else links
  }

  // ---------------------------------------------------------------------------
  // The redirect state machine of `GET /:slug`

  /** Where a redirect request stops: one of the four refusals, or open for the click. */
  datatype Gate = Unknown | Expired | PasswordRequired | PasswordInvalid | Open(link: LinkRow)

  /**
   * Steps 1 to 3 of `GET /:slug`: lookup, then expiry, then the password.
   * `compare(password, hash)` stands for `bcrypt.compare`.
   */
  function Resolve(found: Option<LinkRow>, now: int, password: Option<string>,
                   compare: (string, string) -> bool): (g: Gate)
    ensures g == Unknown <==> found.None?
    ensures g == Expired <==> found.Some? && IsExpired(found.value, now)
    ensures g.Open? <==> (found.Some? && !IsExpired(found.value, now)
      && (IsProtected(found.value) ==> Truthy(password) && compare(password.value, found.value.passwordHash.value)))
    ensures g.Open? ==> g.link == found.value
    ensures g == PasswordRequired <==> found.Some? && !IsExpired(found.value, now) && IsProtected(found.value) && !Truthy(password)
    ensures g == PasswordInvalid <==> (found.Some? && !IsExpired(found.value, now) && IsProtected(found.value)
      && Truthy(password) && !compare(password.value, found.value.passwordHash.value))
  {
    match found
    case None => Unknown
    case Some(link) =>
      if IsExpired(link, now) then Expired
      else if IsProtected(link) && !Truthy(password) then PasswordRequired
      else if IsProtected(link) && !compare(password.value, link.passwordHash.value) then PasswordInvalid
      else Open(link)
  }

  /** An expired link is refused whatever password comes with it, the right one included. */
  lemma ExpiredBeforePassword(link: LinkRow, now: int, password: Option<string>, compare: (string, string) -> bool)
    requires IsExpired(link, now)
    ensures Resolve(Some(link), now, password, compare) == Expired
  {
  }

  /** The error response for each refusal. */
  function Refusal(g: Gate): (r: Response)
    requires !g.Open?
    ensures r.Failure?
  {
    match g
    case Unknown => LinkNotFound
    case Expired => Failure(410, "Link expired", Gone)
    case PasswordRequired => Failure(401, "Password required", Unauthorized)
    case PasswordInvalid => Failure(401, "Invalid password", Unauthorized)
  }

  /** What `GET /:slug` reads from the request besides the path. */
  datatype RedirectRequest = RedirectRequest(
    slug: string,
    password: Option<string>,
    forwardedFor: Option<string>,
    realIp: Option<string>,
    userAgent: Option<string>,
    referer: Option<string>)

  /** `x-forwarded-for`, else `x-real-ip`, else null. */
  function ClickIp(req: RedirectRequest): (ip: Option<string>)
    ensures ip.Some? ==> ip.value != "" && (ip == req.forwardedFor || ip == req.realIp)
    ensures Truthy(req.forwardedFor) ==> ip == req.forwardedFor
    ensures ip.None? <==> !Truthy(req.forwardedFor) && !Truthy(req.realIp)
  {
    Either(req.forwardedFor, req.realIp)
  }

  /** The click row recorded for a successful redirect; its geo fields start empty. */
  function NewClick(clickId: string, linkId: string, timestamp: int, req: RedirectRequest): (c: ClickRow)
    ensures c.id == clickId && c.linkId == linkId && c.timestamp == timestamp
    ensures c.ip == ClickIp(req)
    ensures c.userAgent == OrNull(req.userAgent) && c.referrer == OrNull(req.referer)
    ensures c.country.None? && c.city.None?
  {
    ClickRow(clickId, linkId, timestamp, ClickIp(req), OrNull(req.userAgent), OrNull(req.referer), None, None)
  }

  /** The geo lookup a successful redirect leaves behind, to run after the response. */
  datatype GeoJob = GeoJob(clickId: string, ip: string)

  /**
   * `GET /:slug`. A refused request changes nothing. An admitted one records
   * exactly one click (when the fresh click id is indeed fresh), schedules a
   * geo lookup only when the request carried an address, and redirects.
   */
  method ResolveSlug(db: Database, req: RedirectRequest, now: int, clickId: string, timestamp: int,
                     compare: (string, string) -> bool) returns (r: Response, job: Option<GeoJob>)
    requires db.Valid()
    modifies db
    ensures db.Valid()
    ensures db.links == old(db.links) && db.tags == old(db.tags) && db.linkTags == old(db.linkTags)
    ensures var gate := Resolve(FindLinkBySlug(old(db.links), req.slug), now, req.password, compare);
      && (!gate.Open? ==> r == Refusal(gate) && db.clicks == old(db.clicks) && job == None)
      && (gate.Open? && clickId !in ClickIds(old(db.clicks)) ==>
            && r == Redirect(gate.link.targetUrl)
            && db.clicks == old(db.clicks) + [NewClick(clickId, gate.link.id, timestamp, req)]
            && job == if ClickIp(req).Some? then Some(GeoJob(clickId, ClickIp(req).value)) else None)
      && (gate.Open? && clickId in ClickIds(old(db.clicks)) ==>
            r == InternalError && db.clicks == old(db.clicks) && job == None)
    ensures |db.clicks| == |old(db.clicks)| + if r.Redirect? then 1 else 0
  {
    var found := FindLinkBySlug(db.links, req.slug);
    var gate := Resolve(found, now, req.password, compare);
    if !gate.Open? {
      return Refusal(gate), None;
    }
    var link := gate.link;
    var ip := ClickIp(req);
    var outcome := db.InsertClick(NewClick(clickId, link.id, timestamp, req));
    if outcome != Done {
      return InternalError, None;
    }
    job := if ip.Some? then Some(GeoJob(clickId, ip.value)) else None;
    r := Redirect(link.targetUrl);
  }

  // ---------------------------------------------------------------------------
  // The other handlers

  /** `GET /api/health`. */
  function HealthCheck(): (r: Response)
    ensures StatusOf(r) == 200 && r == Health("ok")
  {
    Health("ok")
  }

  /** One more name adds at most its tag's row. */
  lemma TagLinkRowsStep(id: string, names: seq<string>, tags: seq<TagRow>, i: nat)
    requires i < |names|
    ensures TagLinkRows(id, names[..i + 1], tags) ==
      TagLinkRows(id, names[..i], tags) + match FindTagByName(tags, names[i])
                                          case Some(t) => [LinkTagRow(id, t.id)]
                                          case None => []
  {
    assert names[..i + 1][..i] == names[..i];
  }

  /**
   * When the row for name `i` repeats an earlier one, the rows inserted so
   * far are the longest repetition-free prefix of all the rows.
   */
  lemma RepeatedTagStops(id: string, names: seq<string>, tags: seq<TagRow>, i: nat)
    requires i < |names| && FindTagByName(tags, names[i]).Some?
    requires Distinct(TagLinkRows(id, names[..i], tags))
    requires LinkTagRow(id, FindTagByName(tags, names[i]).value.id) in TagLinkRows(id, names[..i], tags)
    ensures var rows := TagLinkRows(id, names, tags);
      var k := |TagLinkRows(id, names[..i], tags)|;
      && k < |rows| && rows[k] in rows[..k] && Distinct(rows[..k])
      && rows[..k] == TagLinkRows(id, names[..i], tags) && !Distinct(rows)
  {
    var rows := TagLinkRows(id, names, tags);
    var done := TagLinkRows(id, names[..i], tags);
    var link := LinkTagRow(id, FindTagByName(tags, names[i]).value.id);
    var next := TagLinkRows(id, names[..i + 1], tags);
    TagLinkRowsStep(id, names, tags, i);
    assert next == done + [link];
    TagLinkRowsPrefix(id, names, tags, i + 1);
    var k := |done|;
    assert next == rows[..k + 1];
    assert rows[..k] == next[..k] == done;
    assert rows[k] == next[k] == link;
    var j :| 0 <= j < k && done[j] == link;
    assert rows[j] == rows[k];
  }

  /**
   * One turn of the tag loop of `POST /api/links`: look up the tag named
   * `names[i]` and, if there is one, associate it with the new link. The
   * insertion fails exactly when the same tag was associated earlier in the
   * loop.
   */
  method AssociateName(db: Database, id: string, names: seq<string>, i: nat,
                       ghost tags: seq<TagRow>, ghost linkTags0: seq<LinkTagRow>) returns (ok: bool)
    requires db.Valid() && db.tags == tags
    requires i < |names|
    requires id in LinkIds(db.links)
    requires forall x :: x in linkTags0 ==> x.linkId != id
    requires db.linkTags == linkTags0 + TagLinkRows(id, names[..i], tags)
    requires Distinct(TagLinkRows(id, names[..i], tags))
    modifies db
    ensures db.Valid()
    ensures db.links == old(db.links) && db.tags == tags && db.clicks == old(db.clicks)
    ensures ok ==>
      && db.linkTags == linkTags0 + TagLinkRows(id, names[..i + 1], tags)
      && Distinct(TagLinkRows(id, names[..i + 1], tags))
    ensures !ok ==>
      var done := TagLinkRows(id, names[..i], tags);
      var rows := TagLinkRows(id, names, tags);
      && db.linkTags == old(db.linkTags)
      && |done| < |rows| && rows[|done|] in rows[..|done|] && rows[..|done|] == done && !Distinct(rows)
  {
    var tag := FindTagByName(db.tags, names[i]);
    TagLinkRowsStep(id, names, tags, i);
    if tag.None? {
      return true;
    }
    ok := AssociateTag(db, LinkTagRow(id, tag.value.id), TagLinkRows(id, names[..i], tags), linkTags0);
    if !ok {
      RepeatedTagStops(id, names, tags, i);
    }
  }

  /**
   * The `INSERT INTO link_tags` of one turn of the tag loop, after the rows
   * `done` of the earlier turns: it fails exactly when `link` is among them.
   */
  method AssociateTag(db: Database, link: LinkTagRow, ghost done: seq<LinkTagRow>, ghost linkTags0: seq<LinkTagRow>)
    returns (ok: bool)
    requires db.Valid()
    requires link.linkId in LinkIds(db.links) && link.tagId in TagIds(db.tags)
    requires forall x :: x in linkTags0 ==> x.linkId != link.linkId
    requires db.linkTags == linkTags0 + done && Distinct(done)
    modifies db
    ensures db.Valid()
    ensures db.links == old(db.links) && db.tags == old(db.tags) && db.clicks == old(db.clicks)
    ensures ok <==> link !in done
    ensures ok ==> db.linkTags == linkTags0 + (done + [link]) && Distinct(done + [link])
    ensures !ok ==> db.linkTags == old(db.linkTags)
  {
    assert link !in linkTags0;
    var inserted := db.InsertLinkTag(link);
    ok := inserted == Done;
    if ok {
      DistinctSnoc(done, link);
    }
  }

  /**
   * The tag loop of `POST /api/links`: for each requested name in order,
   * insert the association of the new link with the tag of that name, if
   * there is one. A name requested twice makes its second insertion fail,
   * and the loop stops there with the earlier rows stored.
   */
  method InsertTagLinks(db: Database, id: string, names: seq<string>) returns (ok: bool)
    requires db.Valid()
    requires id in LinkIds(db.links)
    requires forall x :: x in db.linkTags ==> x.linkId != id
    modifies db
    ensures db.Valid()
    ensures db.links == old(db.links) && db.tags == old(db.tags) && db.clicks == old(db.clicks)
    ensures var rows := TagLinkRows(id, names, old(db.tags));
      && (ok <==> Distinct(rows))
      && (ok ==> db.linkTags == old(db.linkTags) + rows)
      && (!ok ==> exists k :: 0 <= k < |rows| && rows[k] in rows[..k] && Distinct(rows[..k])
                           && db.linkTags == old(db.linkTags) + rows[..k])
  {
    ghost var linkTags0 := db.linkTags;
    var i := 0;
    while i < |names|
      invariant 0 <= i <= |names|
      invariant db.Valid()
      invariant db.links == old(db.links) && db.tags == old(db.tags) && db.clicks == old(db.clicks)
      invariant db.linkTags == linkTags0 + TagLinkRows(id, names[..i], db.tags)
      invariant Distinct(TagLinkRows(id, names[..i], db.tags))
    {
      ok := AssociateName(db, id, names, i, old(db.tags), linkTags0);
      if !ok {
        return;
      }
      i := i + 1;
    }
    assert names[..|names|] == names;
    ok := true;
  }

  /**
   * `POST /api/links`. A body the schema rejects changes nothing. Otherwise
   * the link is inserted (a taken id or slug is an uncaught error) and then
   * its tag associations; the response echoes every requested name, tag or
   * not.
   */
  method CreateLink(db: Database, body: CreateLinkBody, isUrl: string -> bool, id: string, randomSlug: string,
                    hash: string -> string, now: int, baseUrl: string) returns (r: Response)
    requires db.Valid()
    modifies db
    ensures db.Valid()
    ensures db.tags == old(db.tags) && db.clicks == old(db.clicks)
    ensures !CreateLinkAccepted(isUrl, body) ==>
      r == SchemaRejected && db.links == old(db.links) && db.linkTags == old(db.linkTags)
    ensures CreateLinkAccepted(isUrl, body) ==>
      var row := NewLink(body, id, randomSlug, hash, now);
      var rows := TagLinkRows(id, body.tags.GetOr([]), old(db.tags));
      && (id in LinkIds(old(db.links)) || row.slug in Slugs(old(db.links)) ==>
            r == InternalError && db.links == old(db.links) && db.linkTags == old(db.linkTags))
      && (id !in LinkIds(old(db.links)) && row.slug !in Slugs(old(db.links)) ==>
            && db.links == old(db.links) + [row]
            && (Distinct(rows) ==>
                  && r == LinkBody(201, LinkView(id, row.slug, ShortUrl(baseUrl, row.slug), body.url, row.expiresAt,
                                                 Truthy(body.password), body.tags.GetOr([]), now, now))
                  && db.linkTags == old(db.linkTags) + rows)
            && (!Distinct(rows) ==>
                  && r == InternalError
                  && exists k :: 0 <= k < |rows| && rows[k] in rows[..k] && Distinct(rows[..k])
                               && db.linkTags == old(db.linkTags) + rows[..k]))
  {
    if !CreateLinkAccepted(isUrl, body) {
      return SchemaRejected;
    }
    var row := NewLink(body, id, randomSlug, hash, now);
    var outcome := db.InsertLink(row);
    if outcome != Done {
      return InternalError;
    }
    assert row in db.links;
    var names := body.tags.GetOr([]);
    var ok := InsertTagLinks(db, id, names);
    if !ok {
      return InternalError;
    }
    r := LinkBody(201, LinkView(id, row.slug, ShortUrl(baseUrl, row.slug), body.url, row.expiresAt,
                                Truthy(body.password), names, now, now));
  }

  /**
   * The row `POST /api/links` inserts: the requested slug or the random one,
   * the hash of a given password, a given expiry, and equal creation and
   * update times.
   */
  function NewLink(body: CreateLinkBody, id: string, randomSlug: string, hash: string -> string, now: int): (row: LinkRow)
    ensures row.id == id && row.targetUrl == body.url
    ensures row.slug == if Truthy(body.slug) then body.slug.value else randomSlug
    ensures row.passwordHash.Some? <==> Truthy(body.password)
    ensures Truthy(body.password) ==> row.passwordHash == Some(hash(body.password.value))
    ensures row.expiresAt.Some? <==> body.expiresAt.Some? && body.expiresAt.value != 0.0
    ensures row.expiresAt.Some? ==> row.expiresAt.value == body.expiresAt.value.Floor
    ensures row.createdAt == row.updatedAt == now
  {
    LinkRow(
      id,
      if Truthy(body.slug) then body.slug.value else randomSlug,
      body.url,
      if Truthy(body.password) then Some(hash(body.password.value)) else None,
      if body.expiresAt.Some? && body.expiresAt.value != 0.0 then Some(body.expiresAt.value.Floor) else None,
      now,
      now)
  }

  /** `GET /api/tags`: every tag with the number of links it is attached to. */
  method ListTags(db: Database) returns (r: Response)
    requires db.Valid()
    ensures r.TagList? && |r.tags| == |db.tags|
    ensures forall i :: 0 <= i < |r.tags| ==>
      && r.tags[i].id == db.tags[i].id && r.tags[i].name == db.tags[i].name
      && r.tags[i].linkCount == |LinksOfTag(db.linkTags, db.tags[i].id)|
  {
    var summaries := TagSummaries(db.tags, db.linkTags);
    forall i | 0 <= i < |summaries|
      ensures summaries[i].linkCount == |LinksOfTag(db.linkTags, db.tags[i].id)|
    {
      LinkCountIsLinks(db.linkTags, db.tags[i].id);
    }
    r := TagList(summaries);
  }

  /**
   * `POST /api/tags`. Either unique constraint of `tags` failing (the name,
   * or the fresh id) is answered with 409; otherwise the tag is stored.
   */
  method CreateTag(db: Database, body: CreateTagBody, id: string) returns (r: Response)
    requires db.Valid()
    modifies db
    ensures db.Valid()
    ensures db.links == old(db.links) && db.linkTags == old(db.linkTags) && db.clicks == old(db.clicks)
    ensures !CreateTagAccepted(body) ==> r == SchemaRejected && db.tags == old(db.tags)
    ensures CreateTagAccepted(body) && (id in TagIds(old(db.tags)) || body.name in TagNames(old(db.tags))) ==>
      r == Failure(409, "Tag already exists", Conflict) && db.tags == old(db.tags)
    ensures CreateTagAccepted(body) && id !in TagIds(old(db.tags)) && body.name !in TagNames(old(db.tags)) ==>
      r == TagCreated(id, body.name) && db.tags == old(db.tags) + [TagRow(id, body.name)]
  {
    if !CreateTagAccepted(body) {
      return SchemaRejected;
    }
    var outcome := db.InsertTag(TagRow(id, body.name));
    if outcome.UniqueFailed? {
      return Failure(409, "Tag already exists", Conflict);
    }
    if outcome != Done {
      return InternalError;
    }
    r := TagCreated(id, body.name);
  }

  /** A page of a newest-first listing is itself newest first. */
  lemma PageNewestFirst(all: seq<LinkRow>, limit: int, offset: int)
    requires SortedDesc(all, CreatedAtOf)
    ensures SortedDesc(LimitOffset(all, limit, offset), CreatedAtOf)
  {
    var page := LimitOffset(all, limit, offset);
    var start := if offset < 0 then 0 else if offset > |all| then |all| else offset;
    forall i, j | 0 <= i < j < |page| ensures CreatedAtOf(page[i]) >= CreatedAtOf(page[j]) {
      assert page[i] == all[start + i] && page[j] == all[start + j];
    }
  }

  /**
   * `GET /api/links`: the page of the (optionally tag-filtered) links,
   * newest first, with the pagination summary.
   */
  method ListLinks(db: Database, q: ListQuery, baseUrl: string) returns (r: Response)
    requires db.Valid()
    ensures r.LinkPage?
    ensures var page := q.page.GetOr(DefaultPage);
      var limit := q.limit.GetOr(DefaultLimit);
      var all := NewestFirst(Candidates(db.links, db.tags, db.linkTags, q.tag));
      && r.pagination == Pagination(page, limit, |all|, TotalPages(|all|, limit))
      && r.links == Views(LimitOffset(all, limit, (page - 1) * limit), db.linkTags, db.tags, baseUrl)
    ensures forall i, j :: 0 <= i < j < |r.links| ==> r.links[i].createdAt >= r.links[j].createdAt
    ensures q.limit.GetOr(DefaultLimit) >= 0 ==> |r.links| <= q.limit.GetOr(DefaultLimit)
  {
    var page := q.page.GetOr(DefaultPage);
    var limit := q.limit.GetOr(DefaultLimit);
    var offset := (page - 1) * limit;
    var all := NewestFirst(Candidates(db.links, db.tags, db.linkTags, q.tag));
    var total := |all|;
    var selected := LimitOffset(all, limit, offset);
    var views := Views(selected, db.linkTags, db.tags, baseUrl);
    PageNewestFirst(all, limit, offset);
    r := LinkPage(views, Pagination(page, limit, total, TotalPages(total, limit)));
  }

  function TimestampOf(c: ClickRow): int { c.timestamp }

  function ClickViewOf(c: ClickRow): ClickView {
    ClickView(c.id, c.timestamp, c.ip, c.userAgent, c.referrer, c.country, c.city)
  }

  /** The click list of one link: its clicks, `ORDER BY timestamp DESC`, as the API shows them. */
  function LinkClicks(clicks: seq<ClickRow>, id: string): (views: seq<ClickView>)
    ensures |views| <= |clicks|
    ensures forall i, j :: 0 <= i < j < |views| ==> views[i].timestamp >= views[j].timestamp
  {
    var ordered := SortDesc(Filter(clicks, (c: ClickRow) => c.linkId == id), TimestampOf);
    seq(|ordered|, i requires 0 <= i < |ordered| => ClickViewOf(ordered[i]))
  }

  /** Every entry of the click list is one of the link's clicks. */
  lemma LinkClicksSound(clicks: seq<ClickRow>, id: string, v: ClickView)
    requires v in LinkClicks(clicks, id)
    ensures exists c :: c in clicks && c.linkId == id && v == ClickViewOf(c)
  {
    var own := Filter(clicks, (c: ClickRow) => c.linkId == id);
    var ordered := SortDesc(own, TimestampOf);
    var views := LinkClicks(clicks, id);
    var i :| 0 <= i < |views| && views[i] == v;
    assert ordered[i] in multiset(ordered);
    assert ordered[i] in own;
  }

  /** Every click of the link is in the click list. */
  lemma LinkClicksComplete(clicks: seq<ClickRow>, id: string, c: ClickRow)
    requires c in clicks && c.linkId == id
    ensures ClickViewOf(c) in LinkClicks(clicks, id)
  {
    var own := Filter(clicks, (c: ClickRow) => c.linkId == id);
    var ordered := SortDesc(own, TimestampOf);
    var views := LinkClicks(clicks, id);
    assert c in own;
    assert c in multiset(own);
    assert c in multiset(ordered);
    var i :| 0 <= i < |ordered| && ordered[i] == c;
    assert views[i] == ClickViewOf(c);
  }

  /** The click list shows each of the link's clicks and nothing else, latest first. */
  lemma LinkClicksExact(clicks: seq<ClickRow>, id: string)
    ensures var views := LinkClicks(clicks, id);
      && |views| == |Filter(clicks, (c: ClickRow) => c.linkId == id)|
      && (forall v :: v in views <==> exists c :: c in clicks && c.linkId == id && v == ClickViewOf(c))
      && (forall i, j :: 0 <= i < j < |views| ==> views[i].timestamp >= views[j].timestamp)
  {
    var ordered := SortDesc(Filter(clicks, (c: ClickRow) => c.linkId == id), TimestampOf);
    var views := LinkClicks(clicks, id);
    forall v | v in views ensures exists c :: c in clicks && c.linkId == id && v == ClickViewOf(c) {
      LinkClicksSound(clicks, id, v);
    }
    forall c | c in clicks && c.linkId == id ensures ClickViewOf(c) in views {
      LinkClicksComplete(clicks, id, c);
    }
    forall i, j | 0 <= i < j < |views| ensures views[i].timestamp >= views[j].timestamp {
      assert TimestampOf(ordered[i]) >= TimestampOf(ordered[j]);
    }
  }

  /** `GET /api/links/:id/clicks`: 404 for an unknown link, else its clicks, latest first. */
  method ListClicks(db: Database, id: string) returns (r: Response)
    requires db.Valid()
    ensures id !in LinkIds(db.links) ==> r == LinkNotFound
    ensures id in LinkIds(db.links) ==> r.ClickList?
    ensures r.ClickList? ==>
      && |r.clicks| == |Filter(db.clicks, (c: ClickRow) => c.linkId == id)|
      && (forall v :: v in r.clicks <==> exists c :: c in db.clicks && c.linkId == id && v == ClickViewOf(c))
      && (forall i, j :: 0 <= i < j < |r.clicks| ==> r.clicks[i].timestamp >= r.clicks[j].timestamp)
  {
    if FindLinkById(db.links, id).None? {
      return LinkNotFound;
    }
    LinkClicksExact(db.clicks, id);
    r := ClickList(LinkClicks(db.clicks, id));
  }

  /** `GET /api/links/:id`: the link with the names of its tags. */
  method GetLink(db: Database, id: string, baseUrl: string) returns (r: Response)
    requires db.Valid()
    ensures id !in LinkIds(db.links) ==> r == LinkNotFound
    ensures id in LinkIds(db.links) ==> r.LinkBody? && r.status == 200
    ensures r.LinkBody? ==>
      && (exists l :: l in db.links && l.id == id && r.link == ViewOf(l, r.link.tags, baseUrl))
      && forall n :: n in r.link.tags <==> exists t :: t in db.tags && t.name == n && LinkTagRow(id, t.id) in db.linkTags
  {
    var found := FindLinkById(db.links, id);
    if found.None? {
      return LinkNotFound;
    }
    var names := TagNamesOf(db.linkTags, db.tags, id);
    TagNamesOfJoin(db.linkTags, db.tags, id);
    r := LinkBody(200, ViewOf(found.value, names, baseUrl));
  }

  /** Deleting a link with ids unique removes exactly that one row. */
  lemma {:induction false} DeleteRemovesOne(links: seq<LinkRow>, id: string)
    requires DistinctKeys(links, LinkIdOf) && id in LinkIds(links)
    ensures id !in LinkIds(Filter(links, (l: LinkRow) => l.id != id))
    ensures |Filter(links, (l: LinkRow) => l.id != id)| == |links| - 1
  {
    var p := (l: LinkRow) => l.id != id;
    var rest := links[1..];
    assert links == [links[0]] + rest;
    assert DistinctKeys(rest, LinkIdOf) by {
      forall i, j | 0 <= i < j < |rest| ensures rest[i].id != rest[j].id {
        assert rest[i] == links[i + 1] && rest[j] == links[j + 1];
      }
    }
    if links[0].id == id {
      forall l | l in rest ensures p(l) {
        var k :| 0 <= k < |rest| && rest[k] == l;
        assert links[k + 1] == l;
      }
      FilterKeepsAll(rest, p);
    } else {
      DeleteRemovesOne(rest, id);
    }
  }

  /**
   * `DELETE /api/links/:id`: 404 for an unknown id; otherwise the link goes,
   * and with it, by the foreign keys' cascade, its tag associations and
   * clicks; nothing else changes.
   */
  method RemoveLink(db: Database, id: string) returns (r: Response)
    requires db.Valid()
    modifies db
    ensures db.Valid()
    ensures id !in LinkIds(old(db.links)) ==>
      r == LinkNotFound && db.links == old(db.links) && db.linkTags == old(db.linkTags) && db.clicks == old(db.clicks)
    ensures id in LinkIds(old(db.links)) ==>
      && r == NoContent
      && db.links == Filter(old(db.links), (l: LinkRow) => l.id != id)
      && db.linkTags == Filter(old(db.linkTags), (x: LinkTagRow) => x.linkId != id)
      && db.clicks == Filter(old(db.clicks), (c: ClickRow) => c.linkId != id)
      && |db.links| == |old(db.links)| - 1
      && id !in LinkIds(db.links)
    ensures db.tags == old(db.tags)
  {
    if FindLinkById(db.links, id).None? {
      return LinkNotFound;
    }
    DeleteRemovesOne(db.links, id);
    db.DeleteLink(id);
    r := NoContent;
  }
}
