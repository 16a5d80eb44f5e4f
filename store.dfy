/**
 * The SQLite tables of src/db/schema.ts as sequences of rows (in insertion
 * order), with the schema's PRIMARY KEY, UNIQUE and REFERENCES constraints
 * as the database invariant. Foreign keys are assumed to be enforced, as on
 * a connection from `getDb` in src/db/index.ts, which turns `foreign_keys`
 * on; deleting a link then cascades to its tag associations and its clicks.
 */
module Store {
  import opened Wrappers
  import opened Sequences

  /** A row of `links`; `api_key_id` is never written by the modelled handlers and is left out. */
  datatype LinkRow = LinkRow(
    id: string,
    slug: string,
    targetUrl: string,
    passwordHash: Option<string>,
    expiresAt: Option<int>,
    createdAt: int,
    updatedAt: int)

  /** A row of `tags`. */
  datatype TagRow = TagRow(id: string, name: string)

  /** A row of `link_tags`. */
  datatype LinkTagRow = LinkTagRow(linkId: string, tagId: string)

  /** A row of `clicks`; `country` and `city` are filled in later by the geo lookup, or never. */
  datatype ClickRow = ClickRow(
    id: string,
    linkId: string,
    timestamp: int,
    ip: Option<string>,
    userAgent: Option<string>,
    referrer: Option<string>,
    country: Option<string>,
    city: Option<string>)

  /** The result of a statement: done, or the constraint error SQLite raises (named as in its message). */
  datatype SqlOutcome = Done | UniqueFailed(columns: string) | ForeignKeyFailed

  function LinkIdOf(l: LinkRow): string { l.id }
  function SlugOf(l: LinkRow): string { l.slug }
  function TagIdOf(t: TagRow): string { t.id }
  function TagNameOf(t: TagRow): string { t.name }
  function ClickIdOf(c: ClickRow): string { c.id }

  function LinkIds(links: seq<LinkRow>): set<string> { set l | l in links :: l.id }
  function Slugs(links: seq<LinkRow>): set<string> { set l | l in links :: l.slug }
  function TagIds(tags: seq<TagRow>): set<string> { set t | t in tags :: t.id }
  function TagNames(tags: seq<TagRow>): set<string> { set t | t in tags :: t.name }
  function ClickIds(clicks: seq<ClickRow>): set<string> { set c | c in clicks :: c.id }

  /**
   * The schema constraints: `links.id` and `links.slug` unique, `tags.id` and
   * `tags.name` unique, `(link_id, tag_id)` the key of `link_tags` and both
   * its columns references, `clicks.id` unique and `clicks.link_id` a reference.
   */
  predicate Consistent(links: seq<LinkRow>, tags: seq<TagRow>, linkTags: seq<LinkTagRow>, clicks: seq<ClickRow>) {
    && DistinctKeys(links, LinkIdOf)
    && DistinctKeys(links, SlugOf)
    && DistinctKeys(tags, TagIdOf)
    && DistinctKeys(tags, TagNameOf)
    && Distinct(linkTags)
    && (forall r :: r in linkTags ==> r.linkId in LinkIds(links) && r.tagId in TagIds(tags))
    && DistinctKeys(clicks, ClickIdOf)
    && (forall c :: c in clicks ==> c.linkId in LinkIds(links))
  }

  /** `SELECT ... FROM links WHERE slug = ?`. */
  function FindLinkBySlug(links: seq<LinkRow>, slug: string): (r: Option<LinkRow>)
    ensures r.None? <==> slug !in Slugs(links)
    ensures r.Some? ==> r.value in links && r.value.slug == slug
  {
    var r := Find(links, (l: LinkRow) => l.slug == slug);
    assert r.None? ==> forall l :: l in links ==> l.slug != slug;
    r
  }

  /** `SELECT ... FROM links WHERE id = ?`. */
  function FindLinkById(links: seq<LinkRow>, id: string): (r: Option<LinkRow>)
    ensures r.None? <==> id !in LinkIds(links)
    ensures r.Some? ==> r.value in links && r.value.id == id
  {
    var r := Find(links, (l: LinkRow) => l.id == id);
    assert r.None? ==> forall l :: l in links ==> l.id != id;
    r
  }

  /** `SELECT id FROM tags WHERE name = ?`. */
  function FindTagByName(tags: seq<TagRow>, name: string): (r: Option<TagRow>)
    ensures r.None? <==> name !in TagNames(tags)
    ensures r.Some? ==> r.value in tags && r.value.name == name
  {
    var r := Find(tags, (t: TagRow) => t.name == name);
    assert r.None? ==> forall t :: t in tags ==> t.name != name;
    r
  }

  /** With unique keys, a row is determined by its key. */
  lemma RowByKey<T, K>(s: seq<T>, key: T -> K, a: T, b: T)
    requires DistinctKeys(s, key)
    requires a in s && b in s && key(a) == key(b)
    ensures a == b
  {
    var i :| 0 <= i < |s| && s[i] == a;
    var j :| 0 <= j < |s| && s[j] == b;
    assert !(i < j) && !(j < i);
  }

  /**
   * SQLite's `LIMIT limit OFFSET offset` over an already ordered result:
   * a negative offset counts as zero and a negative limit means no limit.
   */
  function LimitOffset<T>(s: seq<T>, limit: int, offset: int): (r: seq<T>)
    ensures var start := if offset < 0 then 0 else if offset > |s| then |s| else offset;
      && |r| <= |s| - start
      && (limit >= 0 ==> |r| == if limit < |s| - start then limit else |s| - start)
      && (limit < 0 ==> |r| == |s| - start)
      && forall i :: 0 <= i < |r| ==> r[i] == s[start + i]
  {
    var start := if offset < 0 then 0 else if offset > |s| then |s| else offset;
    var end := if limit < 0 || start + limit > |s| then |s| else start + limit;
    s[start..end]
  }

  /** Sets `country` and `city` of the click whose id is `clickId`: `UPDATE clicks SET country = ?, city = ? WHERE id = ?`. */
  function WithGeo(clicks: seq<ClickRow>, clickId: string, country: string, city: string): (r: seq<ClickRow>)
    ensures |r| == |clicks|
    ensures forall i :: 0 <= i < |r| ==>
      r[i] == if clicks[i].id == clickId then clicks[i].(country := Some(country), city := Some(city)) else clicks[i]
  {
    seq(|clicks|, i requires 0 <= i < |clicks| =>
      if clicks[i].id == clickId then clicks[i].(country := Some(country), city := Some(city)) else clicks[i])
  }

  /** Deleting a link with its dependent rows keeps the unique keys unique. */
  lemma DeleteKeepsKeys(links: seq<LinkRow>, linkTags: seq<LinkTagRow>, clicks: seq<ClickRow>, id: string)
    requires DistinctKeys(links, LinkIdOf) && DistinctKeys(links, SlugOf)
    requires Distinct(linkTags) && DistinctKeys(clicks, ClickIdOf)
    ensures DistinctKeys(Filter(links, (l: LinkRow) => l.id != id), LinkIdOf)
    ensures DistinctKeys(Filter(links, (l: LinkRow) => l.id != id), SlugOf)
    ensures Distinct(Filter(linkTags, (r: LinkTagRow) => r.linkId != id))
    ensures DistinctKeys(Filter(clicks, (c: ClickRow) => c.linkId != id), ClickIdOf)
  {
    FilterKeepsDistinctKeys(links, (l: LinkRow) => l.id != id, LinkIdOf);
    FilterKeepsDistinctKeys(links, (l: LinkRow) => l.id != id, SlugOf);
    FilterKeepsDistinctKeys(clicks, (c: ClickRow) => c.linkId != id, ClickIdOf);
    FilterKeepsDistinct(linkTags, (r: LinkTagRow) => r.linkId != id);
  }

  /** Every link other than the deleted one survives the deletion. */
  lemma DeleteKeepsOthers(links: seq<LinkRow>, id: string)
    ensures LinkIds(links) - {id} <= LinkIds(Filter(links, (l: LinkRow) => l.id != id))
  {
    var kept := Filter(links, (l: LinkRow) => l.id != id);
    forall x | x in LinkIds(links) && x != id ensures x in LinkIds(kept) {
      var l :| l in links && l.id == x;
      assert l in kept;
    }
  }

  /**
   * Deleting a link together with the rows that reference it, as the
   * cascade does, keeps the tables consistent.
   */
  lemma DeleteKeepsConsistent(links: seq<LinkRow>, tags: seq<TagRow>, linkTags: seq<LinkTagRow>,
                              clicks: seq<ClickRow>, id: string)
    requires Consistent(links, tags, linkTags, clicks)
    ensures Consistent(Filter(links, (l: LinkRow) => l.id != id), tags,
                       Filter(linkTags, (r: LinkTagRow) => r.linkId != id),
                       Filter(clicks, (c: ClickRow) => c.linkId != id))
  {
    DeleteKeepsKeys(links, linkTags, clicks, id);
    DeleteKeepsOthers(links, id);
  }

  /** The database a handler works on; each method is one SQL statement. */
  class Database {
    var links: seq<LinkRow>
    var tags: seq<TagRow>
    var linkTags: seq<LinkTagRow>
    var clicks: seq<ClickRow>

    ghost predicate Valid()
      reads this
    {
      Consistent(links, tags, linkTags, clicks)
    }

    /** A freshly initialised database: every table empty. */
    constructor ()
      ensures Valid()
      ensures links == [] && tags == [] && linkTags == [] && clicks == []
    {
      links, tags, linkTags, clicks := [], [], [], [];
    }

    /** `INSERT INTO links`: fails on a taken id, then on a taken slug. */
    method InsertLink(row: LinkRow) returns (outcome: SqlOutcome)
      requires Valid()
      modifies this
      ensures Valid()
      ensures outcome == if row.id in LinkIds(old(links)) then UniqueFailed("links.id")
                         else if row.slug in Slugs(old(links)) then UniqueFailed("links.slug")
                         else Done
      ensures links == if outcome == Done then old(links) + [row] else old(links)
      ensures tags == old(tags) && linkTags == old(linkTags) && clicks == old(clicks)
    {
      if row.id in LinkIds(links) {
        return UniqueFailed("links.id");
      }
      if row.slug in Slugs(links) {
        return UniqueFailed("links.slug");
      }
      assert forall l :: l in links ==> l.id != row.id && l.slug != row.slug;
      assert LinkIds(links + [row]) == LinkIds(links) + {row.id};
      links := links + [row];
      outcome := Done;
    }

    /** `INSERT INTO tags`: fails on a taken id, then on a taken name. */
    method InsertTag(row: TagRow) returns (outcome: SqlOutcome)
      requires Valid()
      modifies this
      ensures Valid()
      ensures outcome == if row.id in TagIds(old(tags)) then UniqueFailed("tags.id")
                         else if row.name in TagNames(old(tags)) then UniqueFailed("tags.name")
                         else Done
      ensures tags == if outcome == Done then old(tags) + [row] else old(tags)
      ensures links == old(links) && linkTags == old(linkTags) && clicks == old(clicks)
    {
      if row.id in TagIds(tags) {
        return UniqueFailed("tags.id");
      }
      if row.name in TagNames(tags) {
        return UniqueFailed("tags.name");
      }
      assert forall t :: t in tags ==> t.id != row.id && t.name != row.name;
      assert TagIds(tags + [row]) == TagIds(tags) + {row.id};
      tags := tags + [row];
      outcome := Done;
    }

    /** `INSERT INTO link_tags`: fails on a pair already present, then on a missing link or tag. */
    method InsertLinkTag(row: LinkTagRow) returns (outcome: SqlOutcome)
      requires Valid()
      modifies this
      ensures Valid()
      ensures outcome == if row in old(linkTags) then UniqueFailed("link_tags.link_id, link_tags.tag_id")
                         else if row.linkId !in LinkIds(old(links)) || row.tagId !in TagIds(old(tags)) then ForeignKeyFailed
                         else Done
      ensures linkTags == if outcome == Done then old(linkTags) + [row] else old(linkTags)
      ensures links == old(links) && tags == old(tags) && clicks == old(clicks)
    {
      if row in linkTags {
        return UniqueFailed("link_tags.link_id, link_tags.tag_id");
      }
      if row.linkId !in LinkIds(links) || row.tagId !in TagIds(tags) {
        return ForeignKeyFailed;
      }
      linkTags := linkTags + [row];
      outcome := Done;
    }

    /** `INSERT INTO clicks`: fails on a taken id, then on a missing link. */
    method InsertClick(row: ClickRow) returns (outcome: SqlOutcome)
      requires Valid()
      modifies this
      ensures Valid()
      ensures outcome == if row.id in ClickIds(old(clicks)) then UniqueFailed("clicks.id")
                         else if row.linkId !in LinkIds(old(links)) then ForeignKeyFailed
                         else Done
      ensures clicks == if outcome == Done then old(clicks) + [row] else old(clicks)
      ensures links == old(links) && tags == old(tags) && linkTags == old(linkTags)
    {
      if row.id in ClickIds(clicks) {
        return UniqueFailed("clicks.id");
      }
      if row.linkId !in LinkIds(links) {
        return ForeignKeyFailed;
      }
      assert forall c :: c in clicks ==> c.id != row.id;
      clicks := clicks + [row];
      outcome := Done;
    }

    /** `DELETE FROM links WHERE id = ?`, cascading to `link_tags` and `clicks`. */
    method DeleteLink(id: string)
      requires Valid()
      modifies this
      ensures Valid()
      ensures links == Filter(old(links), (l: LinkRow) => l.id != id)
      ensures linkTags == Filter(old(linkTags), (r: LinkTagRow) => r.linkId != id)
      ensures clicks == Filter(old(clicks), (c: ClickRow) => c.linkId != id)
      ensures tags == old(tags)
    {
      var keptLinks := Filter(links, (l: LinkRow) => l.id != id);
      var keptLinkTags := Filter(linkTags, (r: LinkTagRow) => r.linkId != id);
      var keptClicks := Filter(clicks, (c: ClickRow) => c.linkId != id);
      DeleteKeepsConsistent(links, tags, linkTags, clicks, id);
      links, linkTags, clicks := keptLinks, keptLinkTags, keptClicks;
    }

    /** `UPDATE clicks SET country = ?, city = ? WHERE id = ?`. */
    method SetClickGeo(clickId: string, country: string, city: string)
      requires Valid()
      modifies this
      ensures Valid()
      ensures clicks == WithGeo(old(clicks), clickId, country, city)
      ensures links == old(links) && tags == old(tags) && linkTags == old(linkTags)
    {
      var updated := WithGeo(clicks, clickId, country, city);
      assert forall i :: 0 <= i < |clicks| ==> updated[i].id == clicks[i].id && updated[i].linkId == clicks[i].linkId;
      forall c | c in updated ensures c.linkId in LinkIds(links) {
        var i :| 0 <= i < |updated| && updated[i] == c;
        assert clicks[i] in clicks;
      }
      clicks := updated;
    }
  }
}
