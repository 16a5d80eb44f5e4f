/** The JSON responses the handlers of src/index.ts and src/app.ts send. */
module Http {
  import opened Wrappers

  /** The `code` field of an error body. */
  datatype ErrorCode = NotFound | Gone | Unauthorized | Conflict | ValidationError

  /** A link as the API shows it. */
  datatype LinkView = LinkView(
    id: string,
    slug: string,
    shortUrl: string,
    targetUrl: string,
    expiresAt: Option<int>,
    hasPassword: bool,
    tags: seq<string>,
    createdAt: int,
    updatedAt: int)

  /** A click as `GET /api/links/:id/clicks` shows it. */
  datatype ClickView = ClickView(
    id: string,
    timestamp: int,
    ip: Option<string>,
    userAgent: Option<string>,
    referrer: Option<string>,
    country: Option<string>,
    city: Option<string>)

  /** A row of `GET /api/tags`. */
  datatype TagSummary = TagSummary(id: string, name: string, linkCount: nat)

  /** The `pagination` object of `GET /api/links`; `totalPages` is `None` where JSON would print `null`. */
  datatype Pagination = Pagination(page: int, limit: int, total: nat, totalPages: Option<int>)

  datatype Response =
    | Failure(status: int, error: string, code: ErrorCode)  // `{error, code}` with an error status
    | SchemaRejected                                        // the validator middleware's 400
    | Redirect(location: string)                            // 302 with `Location`
    | LinkBody(status: int, link: LinkView)                 // 201 on create, 200 on read
    | LinkPage(links: seq<LinkView>, pagination: Pagination)
    | ClickList(clicks: seq<ClickView>)
    | TagList(tags: seq<TagSummary>)
    | TagCreated(id: string, name: string)                  // 201
    | NoContent                                             // 204
    | Health(state: string)                                 // 200 `{status}`
    | InternalError                                         // an uncaught exception: the framework's 500

  /** The public address of a short link: `${BASE_URL}/${slug}`. */
  function ShortUrl(baseUrl: string, slug: string): string {
    baseUrl + "/" + slug
  }

  /** The HTTP status line of a response. */
  function StatusOf(r: Response): int {
    match r
    case Failure(status, _, _) => status
    case SchemaRejected => 400
    case Redirect(_) => 302
    case LinkBody(status, _) => status
    case TagCreated(_, _) => 201
    case NoContent => 204
    case InternalError => 500
    case _ => 200
  }
}
