# Link shortener core, modelled in Dafny

This project models the core of a small TypeScript link shortener:

- the HTTP handlers of `src/index.ts`:
  - the redirect `GET /:slug`;
  - link creation, listing, reading and deletion;
  - click listing;
  - tag listing and creation;
- the smaller application factory of `src/app.ts`;
- the request schemas of `src/schemas/`;
- the geolocation of clicks in `src/services/geo.ts`;
- the sliding-window rate limiter of `src/middleware/rateLimit.ts`.

The SQLite tables of `src/db/schema.ts` form one object, `Store.Database`.
Each table is a sequence of rows in insertion order. The schema constraints
are the object's invariant: primary keys, `UNIQUE` columns, and foreign keys
with their `ON DELETE CASCADE`. Foreign keys are taken to be enforced, as on
a connection opened by `getDb` in src/db/index.ts, which sets
`foreign_keys = ON`.

Each SQL statement is a method. A statement that breaks a constraint returns
the constraint failure instead of changing anything. A handler that does not
catch that failure answers with the framework's 500, `InternalError`.

Values the original takes from outside become parameters of the handlers:

- the clock (`Date.now()`);
- nanoid's fresh ids and random slugs;
- bcrypt's hash and compare;
- zod's `.url()` check;
- the `BASE_URL` setting;
- the set of valid API keys;
- the outcome of the ip-api.com request.

Modules:

- `Wrappers` holds `Option`.
- `Js` holds JavaScript truthiness of optional strings and `startsWith`.
- `Numbers` holds `Math.ceil` of a quotient.
- `Sequences` holds the search, filter and descending sort that the SQL
  queries are built from.
- `Schemas` holds the request schemas.
- `RateLimit` holds the limiter, as pure decision functions plus the
  `RateLimiter` class that owns the store.
- `Store` holds the tables.
- `Http` holds the responses.
- `LinkService` holds the handlers of `src/index.ts`.
- `Geo` holds the click geolocation.
- `App` holds `createApp`.

## Model

| member | source | states |
|---|---|---|
| Numbers.CeilDiv | src/index.ts:90 | The result is the least integer at or above the quotient, for either sign of the divisor. |
| Sequences.Filter | src/middleware/rateLimit.ts:13 | `Array.prototype.filter` keeps exactly the elements that satisfy the predicate and never lengthens the sequence. |
| Sequences.FilterMultiset | src/middleware/rateLimit.ts:13 | The filter keeps every passing element as often as it occurs, and no other element. |
| Sequences.FilterConcat | src/middleware/rateLimit.ts:13 | Filtering a concatenation is the concatenation of the filtered parts, so order is kept. |
| Sequences.FilterKeepsAll | src/middleware/rateLimit.ts:13 | A filter that every element passes returns the whole sequence. |
| Sequences.FilterKeepsDistinctKeys | src/db/schema.ts:10-11 | Deleting rows keeps a unique column unique. |
| Sequences.FilterKeepsDistinct | src/db/schema.ts:28 | Deleting rows keeps a composite primary key unique. |
| Sequences.SortDesc | src/index.ts:84 | `ORDER BY ... DESC`: the result is in descending key order and is a permutation of the input. |
| Schemas.Utf16Length | src/schemas/link.ts:7-8 | The JavaScript length lies between the character count and twice it. It equals the character count exactly when no character is outside the Basic Multilingual Plane. |
| Schemas.AllSlugChars | src/schemas/link.ts:9 | The scan is true exactly when every character is in `[a-z0-9-]`. |
| Schemas.PatternIsAscii | src/schemas/link.ts:9 | A string matching the slug pattern has a JavaScript length equal to its character count. |
| Schemas.SlugRule | src/schemas/link.ts:5-10 | A slug is accepted if and only if it has 3 to 50 characters, all from `[a-z0-9-]`. |
| Schemas.TagNameRule | src/schemas/tag.ts:4-8 | A tag name is accepted if and only if it has 1 to 30 characters, all from `[a-z0-9-]`. |
| Schemas.TagNameRejections | src/schemas/tag.ts:6-8 | The empty name, a name over 30 characters, and a name with an upper-case letter or a space are all rejected. |
| Schemas.TagNameIsSlug | src/schemas/tag.ts:6-8 | Every accepted tag name of length 3 or more is an accepted slug. |
| Schemas.PasswordRule | src/schemas/link.ts:12 | A password is accepted if and only if it has at least 4 UTF-16 code units. |
| Schemas.ExpiresAtRule | src/schemas/link.ts:11 | `expiresAt` is accepted if and only if it is a positive integer, so 0 and negative values are rejected. |
| Schemas.CreateLinkAccepted | src/schemas/link.ts:3-14 | An accepted body has a `.url()`-valid URL. With no slug, expiry or password, that is the whole condition. |
| Schemas.UpdateLinkAccepted | src/schemas/link.ts:16-27 | An update that sets no field is accepted. A URL it does set must pass `.url()`. |
| Schemas.CreateTagAccepted | src/schemas/tag.ts:3-9 | A tag body is accepted if and only if its name has 1 to 30 characters, all from `[a-z0-9-]`. |
| Schemas.UpdateMatchesCreate | src/schemas/link.ts:16-27 | The update schema accepts a full body exactly when the create schema does. |
| Schemas.CreateMinimalBody | src/schemas/link.ts:3-14 | A body with only a valid URL is accepted, and `tags` places no rule on its elements. |
| RateLimit.CleanupOldEntries | src/middleware/rateLimit.ts:12-14 | Cleanup keeps exactly the timestamps less than 60000 ms old, with their multiplicities. |
| RateLimit.CleanupKeepsOrder | src/middleware/rateLimit.ts:12-14 | Cleanup acts on each part of a concatenation separately, so the kept timestamps stay in order. |
| RateLimit.CleanupBoundary | src/middleware/rateLimit.ts:13 | A timestamp exactly 60000 ms old is dropped. One a millisecond younger is kept. |
| RateLimit.Min | src/middleware/rateLimit.ts:18 | `Math.min` returns an element that is at most every element. |
| RateLimit.RetryAfterSeconds | src/middleware/rateLimit.ts:16-21 | The hint is the ceiling, in seconds, of the time until the oldest timestamp leaves the window. It lies in 1..60 when every timestamp is inside the window and not in the future. |
| RateLimit.ClientIp | src/middleware/rateLimit.ts:39 | The client address is a truthy `x-forwarded-for`, else `127.0.0.1`. It is never empty. |
| RateLimit.LimitFor | src/middleware/rateLimit.ts:8-9 | A key with the `apikey:` prefix has limit 100. Every other key has limit 20. |
| RateLimit.SelectIdentity | src/middleware/rateLimit.ts:39-60 | A `Bearer` key found in the key set gives `apikey:<key>` with limit 100. Anything else gives `ip:<x-forwarded-for or 127.0.0.1>` with limit 20. |
| RateLimit.Step | src/middleware/rateLimit.ts:62-76 | A request is denied exactly when the pruned history has reached the limit. A denial carries the `Retry-After` hint of the pruned history and leaves the store unchanged. An admission stores the pruned history followed by `now`. No other key changes. |
| RateLimit.StepKeepsBounded | src/middleware/rateLimit.ts:50-76 | No stored history ever exceeds the limit of its key. |
| RateLimit.DenialHint | src/middleware/rateLimit.ts:67-71 | The hint of a denial is between 1 and 60 seconds when no stored timestamp lies in the future. |
| RateLimit.ReadmittedAfterWindow | src/middleware/rateLimit.ts:63-67 | Once every stored timestamp is at least 60000 ms old, the next request is admitted with a fresh history. |
| RateLimit.AdmittedOnceOldestLeaves | src/middleware/rateLimit.ts:63-67 | Within the limit, the next request is admitted as soon as the oldest stored timestamp is 60000 ms old, even if the others are younger. |
| RateLimit.RetryHonoured | src/middleware/rateLimit.ts:16-21 | A denied request retried at least `Retry-After` seconds later is admitted. |
| RateLimit.IdentitiesIndependent | src/middleware/rateLimit.ts:63-76 | A request under one key never changes the next decision for another key. |
| RateLimit.ReplayUnderLimit | src/middleware/rateLimit.ts:62-76 | From an empty history, up to `limit` requests within one window are all admitted, and the history is then exactly their times. |
| RateLimit.DeniedAtLimit | src/middleware/rateLimit.ts:67-71 | A full history inside the window, with no timestamp in the future, is denied with a hint of 1 to 60 seconds. |
| RateLimit.LimitPlusOneDenied | src/middleware/rateLimit.ts:62-76 | With `limit + 1` requests within one window, the first `limit` are admitted and the last is denied with a hint of 1 to 60 seconds. |
| RateLimit.RateLimiter.constructor | src/middleware/rateLimit.ts:6 | The store starts empty. |
| RateLimit.RateLimiter.Reset | src/middleware/rateLimit.ts:23-25 | `resetRateLimits` empties the store. |
| RateLimit.RateLimiter.Handle | src/middleware/rateLimit.ts:27-79 | `/api/health` passes with the store untouched. Any other path gets the decision and new store of `Step` for the selected identity, and keeps the store bounded. |
| Store.FindLinkBySlug | src/index.ts:279-283 | Returns a row with that slug if one exists, and nothing only when no row has it. |
| Store.FindLinkById | src/index.ts:197-211 | Returns a row with that id if one exists, and nothing only when no row has it. |
| Store.FindTagByName | src/index.ts:40-43 | Returns a tag with that name if one exists, and nothing only when no tag has it. |
| Store.RowByKey | src/db/schema.ts:10-11 | Under a unique column, two rows with the same key are the same row. |
| Store.LimitOffset | src/index.ts:84 | SQLite's `LIMIT ? OFFSET ?` returns the slice starting at the clamped offset, of length `limit`, or unlimited when `limit` is negative. |
| Store.WithGeo | src/services/geo.ts:41-43 | The `UPDATE` sets country and city of the rows with that id, and leaves every other row unchanged. |
| Store.DeleteKeepsConsistent | src/db/schema.ts:25-33 | Deleting a link together with the rows that reference it keeps every key unique and every reference resolved. |
| Store.Database.constructor | src/db/schema.ts:9-40 | All four tables start empty and consistent. |
| Store.Database.InsertLink | src/db/schema.ts:9-18 | A taken id or slug fails with its unique constraint and changes nothing. Otherwise the row is appended. |
| Store.Database.InsertTag | src/db/schema.ts:20-23 | A taken id or name fails with its unique constraint and changes nothing. Otherwise the row is appended. |
| Store.Database.InsertLinkTag | src/db/schema.ts:25-29 | A repeated pair fails its primary key, and a missing link or tag fails its foreign key. Otherwise the row is appended. |
| Store.Database.InsertClick | src/db/schema.ts:31-40 | A taken id or a missing link fails. Otherwise the row is appended. |
| Store.Database.DeleteLink | src/db/schema.ts:26-33 | Removes the link, and by cascade its tag associations and clicks. Tags are kept. |
| Store.Database.SetClickGeo | src/services/geo.ts:41-43 | The clicks table becomes `WithGeo` of itself. Nothing else changes. |
| LinkService.IsExpired | src/index.ts:290 | A link expires only with a set, non-zero expiry strictly before now. A missing expiry or an expiry of 0 never expires. |
| LinkService.ClickIp | src/index.ts:315-316 | The click's address is `x-forwarded-for` when truthy, else `x-real-ip` when truthy, else null. It is never the empty string. |
| LinkService.NewClick | src/index.ts:313-323 | The click row has the fresh id, the link and the time, the chosen address, each of the user-agent and referer headers when truthy and null otherwise, and no geo data yet. |
| LinkService.Either | src/index.ts:315-316 | `a \|\| b \|\| null` picks the first truthy header, or nothing. |
| LinkService.TagNamesOf | src/index.ts:218-224 | The join yields at most one name per `link_tags` row, and every name is the name of a stored tag. |
| LinkService.TagNamesOfJoin | src/index.ts:218-224 | The tag-name join returns exactly the names of the tags associated with the link. |
| LinkService.TagLinkRows | src/index.ts:42-47 | The loop inserts at most one row per requested name, each for the new link and an existing tag. |
| LinkService.TagLinkRowsExact | src/index.ts:35-47 | The tag loop's rows associate the new link with exactly the existing tags whose names were requested. |
| LinkService.TagLinkRowsPrefix | src/index.ts:42-47 | The rows inserted for the first names are a prefix of the rows for all the names. |
| LinkService.CreatedLinkTags | src/index.ts:35-47 | After creation, reading the link back shows exactly the requested names that are existing tags. |
| LinkService.LinkCount | src/index.ts:243 | `COUNT(lt.link_id)` is 0 exactly for a tag with no `link_tags` row, and never exceeds the number of rows. |
| LinkService.DistinctRowsCountLinks | src/db/schema.ts:28 | Distinct rows of one tag name distinct links. |
| LinkService.LinkCountIsLinks | src/index.ts:241-248 | `linkCount` is the number of distinct links carrying the tag, and 0 for an unused tag. |
| LinkService.Views | src/index.ts:119-132 | One view per selected row, in the same order, each with that row's id and creation time. |
| LinkService.TaggedLinks | src/index.ts:78-82 | The tag filter keeps only stored links, never more of them, and none for a tag name that does not exist. |
| LinkService.TaggedLinksJoin | src/index.ts:78-82 | The tag filter keeps exactly the links associated with a tag of that name. |
| LinkService.NewestFirst | src/index.ts:84 | The listing is ordered by `created_at` descending and is a permutation of the candidate links. |
| LinkService.TotalPages | src/index.ts:90 | `totalPages` is the ceiling of total divided by limit, for a positive and for a negative limit alike, and null for a zero limit. |
| LinkService.PagesArePrefix | src/index.ts:70-84 | Pages 1 to n, with `offset = (page - 1) * limit`, together are the first `n * limit` rows. |
| LinkService.PagesCoverListing | src/index.ts:70-90 | Pages 1 to `totalPages` together are the whole listing, and the page after the last is empty. |
| LinkService.Resolve | src/index.ts:285-310 | Unknown is answered first, then expired, then a missing password, then a wrong one. Each refusal happens exactly in its own case. The redirect is open exactly for a live link that is unprotected or given the matching password. |
| LinkService.ExpiredBeforePassword | src/index.ts:289-292 | An expired link is refused as expired whatever password is given, the right one included. |
| LinkService.ResolveSlug | src/index.ts:275-333 | A refusal answers 404, 410 or 401 with no click and no geo job. Success records exactly one click (link id, first present address, no geo), schedules a geo job only when an address exists, and redirects with 302. No other table changes. |
| LinkService.HealthCheck | src/index.ts:14-16 | `{status: "ok"}` with status 200. The same handler is at src/app.ts:26-28. |
| LinkService.RepeatedTagStops | src/index.ts:42-47 | When a requested name repeats a tag, the rows stored so far are the longest repetition-free prefix of the loop's rows. |
| LinkService.AssociateTag | src/index.ts:45 | The insertion of an association fails exactly when the same pair was inserted earlier in the loop. |
| LinkService.AssociateName | src/index.ts:43-46 | One turn of the loop adds the row of the named tag, or nothing when no tag has that name. A failure leaves the table unchanged, at the first repetition of the loop's rows. |
| LinkService.InsertTagLinks | src/index.ts:35-48 | The loop stores all its rows when they are distinct. Otherwise it fails on the first repetition, with the earlier rows stored. |
| LinkService.NewLink | src/index.ts:21-32 | The stored row has the requested slug or the random one, and the hash of the password exactly when a truthy password is given. It has the given expiry exactly when one is given and non-zero (`body.expiresAt \|\| null`), and equal creation and update times. |
| LinkService.CreateLink | src/index.ts:17-64 | A rejected body changes nothing. A taken id or slug is a 500. Otherwise the link and its tag rows are stored, and the 201 echoes every requested name, `hasPassword` as given, and `createdAt == updatedAt`. |
| LinkService.ListLinks | src/index.ts:65-143 | Page and limit default to 1 and 20. The page is the `LIMIT`/`OFFSET` slice of the newest-first (optionally tag-filtered) links, with total and `totalPages`. Views are newest first and at most `limit` of them. |
| LinkService.LinkClicks | src/index.ts:153-177 | The click list is never longer than the clicks table and is ordered by timestamp, latest first. |
| LinkService.LinkClicksExact | src/index.ts:153-177 | The click list shows each of the link's clicks and nothing else, latest first. |
| LinkService.ListClicks | src/index.ts:144-179 | An unknown link is 404. Otherwise the response holds exactly the link's clicks, ordered by timestamp descending. |
| LinkService.GetLink | src/index.ts:193-237 | An unknown id is 404. Otherwise the response is 200 with the stored row and exactly the names of its tags. |
| LinkService.DeleteRemovesOne | src/index.ts:189 | Deleting an existing id removes exactly one link row. |
| LinkService.RemoveLink | src/index.ts:180-192 | An unknown id is 404 and changes nothing. Otherwise the link, its tag rows and its clicks are deleted, tags are kept, and 204 is answered. |
| LinkService.ListTags | src/index.ts:238-251 | One summary per tag, with `linkCount` the number of distinct links carrying it. The model lists them in the order of the tags table. |
| LinkService.CreateTag | src/index.ts:252-274 | A rejected body changes nothing. A taken name (or id) is 409 `CONFLICT` with tags unchanged. Otherwise the tag is stored and echoed with 201. |
| Geo.LookupUrl | src/services/geo.ts:17 | The request address is the ip-api.com base followed by the address. |
| Geo.LookupGeo | src/services/geo.ts:15-32 | A thrown request, a non-ok response, an unreadable body and a non-"success" status all give nothing. Success gives the country code as the country, and the city. |
| Geo.UpdateClickGeo | src/services/geo.ts:34-45 | A failed lookup changes nothing. A successful one sets country and city of that click only. |
| Geo.GeoTouchesOnlyItsClick | src/services/geo.ts:40-44 | The update keeps every click's id, link and timestamp, and leaves every other click as it was. |
| Geo.GeoForMissingClick | src/services/geo.ts:41-43 | An update for a click id that does not exist changes nothing. |
| Geo.GeoUpdatesCommute | src/index.ts:326-330 | The fire-and-forget updates of two different clicks give the same table in either order. |
| Geo.GeoLastWriteWins | src/services/geo.ts:41-43 | Of two updates of one click, the later one decides the stored values. |
| App.GenerateSlug | src/app.ts:6 | A generated slug has 7 characters, all from `[a-z0-9]`. |
| App.GeneratedSlugAccepted | src/app.ts:6-21 | Every generated slug passes the slug rule. |
| App.UrlAccepted | src/app.ts:9-15 | An accepted URL passes `.url()` and starts with `http`. Every `.url()`-valid `https://` URL is accepted. |
| App.AppSchemaStricter | src/app.ts:8-22 | This schema accepts only bodies that the schema of src/schemas/link.ts also accepts. Of the bodies the other accepts, it rejects exactly those whose URL is neither http nor https, in both directions. |
| App.ChosenSlug | src/app.ts:46 | A truthy custom slug is used as given. Otherwise the slug is 7 generated characters from the alphabet. |
| App.CreateLink | src/app.ts:29-82 | A rejected body is 400 `VALIDATION_ERROR` with nothing inserted. A taken slug is 409 `CONFLICT` with links unchanged. Success stores the link and answers 201 with no expiry, no password, no tags and `createdAt == updatedAt`. |
| App.CreatedSlugAccepted | src/app.ts:44-46 | The slug a successful creation stores always passes the slug rule. |

## Left out

- Routing, server start-up and the `PORT` setting are not modelled. The Hono router, the `zValidator` middleware's error body and src/index.ts:335-341 are therefore absent. A schema rejection is the opaque 400 `SchemaRejected`.
- Foreign libraries are parameters: bcrypt, zod's `.url()`, nanoid, `fetch`, `Date.now()` and `process.env`. Each nanoid value is an explicit parameter. An id that is not fresh follows the constraint-failure path.
- The random slug of `POST /api/links` in src/index.ts is a parameter. Its alphabet, nanoid's URL-safe one, is not modelled.
- Concurrency is not modelled: the fire-and-forget geo promise and concurrent use of the limiter's map. The redirect returns a `GeoJob`, which `Geo.UpdateClickGeo` runs later as a separate step. `Geo.GeoUpdatesCommute` states that the order of two such steps does not matter.
- The rate limiter is modelled on its own, because no handler mounts it. The `api_keys` lookup is the `apiKeys` set parameter.
- `parseInt` of a query parameter that is not a number (`NaN`) is not modelled. `ListQuery` carries integers.
- zod's safe-integer bound on `expiresAt` is not modelled, nor are JSON fields of the wrong type.
- `links.api_key_id` is not modelled, because no modelled handler writes it.
- Rows that tie under an `ORDER BY` come out in the order the model's insertion sort leaves them. SQLite leaves the order of ties, and of the tag-name join, unspecified, and the model does not state which order of ties it picks.
- LinkService.ListTags: the query of `GET /api/tags` has a `GROUP BY` and no `ORDER BY`, so SQLite promises no order of the summaries (in practice groups come out sorted by tag id). The model lists them in the order of the tags table; only the set of summaries and their counts are what the source fixes.
- LinkService.CreateLink: when a name is requested twice, the second association fails its primary key after the link and the earlier associations are stored, and the request ends in a 500. The model states this outcome rather than a success.
- The `/api/links/:id/stats` endpoint is not modelled, because no source for it exists in src/.
- src/db/index.ts and src/db/init.ts (file system and connection set-up) are not part of this model. Every handler obtains its connection from `getDatabase()`, imported from src/db/index.ts, but that file defines only `getDb`, and no `getDatabase` definition appears in src/. The model assumes the handlers' connection has foreign keys on, as `getDb` sets them. Store.Database.DeleteLink's cascade and the foreign-key part of its invariant rest on that assumption.
- App.CreateLink: a request body that is not JSON makes `c.req.json()` at src/app.ts:30 throw outside the `try`, so the framework answers 500. `AppLinkBody` holds only a parsed body, so the model does not cover that path.
