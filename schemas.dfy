/**
 * The request-body schemas of src/schemas/link.ts and src/schemas/tag.ts.
 * Each zod field rule becomes a predicate; string lengths are measured the
 * way JavaScript measures them, in UTF-16 code units.
 */
module Schemas {
  import opened Wrappers

  /** True for characters outside the Basic Multilingual Plane, which JavaScript stores as two code units. */
  predicate IsAstral(c: char) {
    c as int > 0xFFFF
  }

  /** `String.prototype.length`: the number of UTF-16 code units of `s`. */
  function Utf16Length(s: string): (n: nat)
    ensures |s| <= n <= 2 * |s|
    ensures n == |s| <==> forall i :: 0 <= i < |s| ==> !IsAstral(s[i])
  {
    if s == [] then 0
    else
      var rest := Utf16Length(s[1..]);
      assert forall i :: 1 <= i < |s| ==> s[i] == s[1..][i - 1];
      (if IsAstral(s[0]) then 2 else 1) + rest
  }

  /** The character class `[a-z0-9-]`. */
  predicate IsSlugChar(c: char) {
    'a' <= c <= 'z' || '0' <= c <= '9' || c == '-'
  }

  /** Scans `s` left to right, checking each character against `[a-z0-9-]`. */
  function AllSlugChars(s: string): (b: bool)
    ensures b <==> forall i :: 0 <= i < |s| ==> IsSlugChar(s[i])
  {
    if s == [] then true
    else
      assert forall i :: 1 <= i < |s| ==> s[i] == s[1..][i - 1];
      IsSlugChar(s[0]) && AllSlugChars(s[1..])
  }

  /** The anchored pattern `/^[a-z0-9-]+$/`: at least one character, all from the class. */
  predicate MatchesSlugPattern(s: string) {
    |s| >= 1 && AllSlugChars(s)
  }

  /** A string matching the pattern is ASCII, so its JavaScript length is its character count. */
  lemma PatternIsAscii(s: string)
    requires MatchesSlugPattern(s)
    ensures Utf16Length(s) == |s|
  {
  }

  /** The `slug` rule of `createLinkSchema`: `.min(3).max(50).regex(/^[a-z0-9-]+$/)`. */
  predicate SlugAccepted(s: string) {
    3 <= Utf16Length(s) <= 50 && MatchesSlugPattern(s)
  }

  /** The `name` rule of `createTagSchema`: `.min(1).max(30).regex(/^[a-z0-9-]+$/)`. */
  predicate TagNameAccepted(s: string) {
    1 <= Utf16Length(s) <= 30 && MatchesSlugPattern(s)
  }

  /** The `password` rule: `.min(4)`, counted in UTF-16 code units. */
  predicate PasswordAccepted(s: string) {
    Utf16Length(s) >= 4
  }

  /** The `expiresAt` rule: `z.number().int().positive()`. */
  predicate ExpiresAtAccepted(x: real) {
    x.Floor as real == x && x > 0.0
  }

  /** An `.optional()` field: absent, or present and accepted by `rule`. */
  predicate OptionalAccepted<T>(field: Option<T>, rule: T -> bool) {
    field.None? || rule(field.value)
  }

  /** The body of `POST /api/links`; `url` is required, the rest optional. */
  datatype CreateLinkBody = CreateLinkBody(
    url: string,
    slug: Option<string>,
    expiresAt: Option<real>,
    password: Option<string>,
    tags: Option<seq<string>>)

  /** The body of a link update: every field optional. */
  datatype UpdateLinkBody = UpdateLinkBody(
    url: Option<string>,
    slug: Option<string>,
    expiresAt: Option<real>,
    password: Option<string>,
    tags: Option<seq<string>>)

  /** The body of `POST /api/tags`. */
  datatype CreateTagBody = CreateTagBody(name: string)

  /**
   * `createLinkSchema.safeParse(body).success`; `isUrl` stands for zod's
   * `.url()` check. `tags` takes any array of strings.
   */
  predicate CreateLinkAccepted(isUrl: string -> bool, body: CreateLinkBody)
    ensures CreateLinkAccepted(isUrl, body) ==> isUrl(body.url)
    ensures body.slug.None? && body.expiresAt.None? && body.password.None? ==>
      (CreateLinkAccepted(isUrl, body) <==> isUrl(body.url))
  {
    && isUrl(body.url)
    && OptionalAccepted(body.slug, SlugAccepted)
    && OptionalAccepted(body.expiresAt, ExpiresAtAccepted)
    && OptionalAccepted(body.password, PasswordAccepted)
  }

  /** `updateLinkSchema.safeParse(body).success`. */
  predicate UpdateLinkAccepted(isUrl: string -> bool, body: UpdateLinkBody)
    ensures body.url.None? && body.slug.None? && body.expiresAt.None? && body.password.None? ==> UpdateLinkAccepted(isUrl, body)
    ensures UpdateLinkAccepted(isUrl, body) && body.url.Some? ==> isUrl(body.url.value)
  {
    && OptionalAccepted(body.url, isUrl)
    && OptionalAccepted(body.slug, SlugAccepted)
    && OptionalAccepted(body.expiresAt, ExpiresAtAccepted)
    && OptionalAccepted(body.password, PasswordAccepted)
  }

  /** `createTagSchema.safeParse(body).success`. */
  predicate CreateTagAccepted(body: CreateTagBody)
    ensures CreateTagAccepted(body) <==> 1 <= |body.name| <= 30 && forall i :: 0 <= i < |body.name| ==> IsSlugChar(body.name[i])
  {
    TagNameRule(body.name);
    TagNameAccepted(body.name)
  }

  /** A slug is accepted exactly when it has 3 to 50 characters, all from `[a-z0-9-]`. */
  lemma SlugRule(s: string)
    ensures SlugAccepted(s) <==> 3 <= |s| <= 50 && forall i :: 0 <= i < |s| ==> IsSlugChar(s[i])
  {
    if 3 <= |s| && forall i :: 0 <= i < |s| ==> IsSlugChar(s[i]) {
      PatternIsAscii(s);
    }
  }

  /** A tag name is accepted exactly when it has 1 to 30 characters, all from `[a-z0-9-]`. */
  lemma TagNameRule(s: string)
    ensures TagNameAccepted(s) <==> 1 <= |s| <= 30 && forall i :: 0 <= i < |s| ==> IsSlugChar(s[i])
  {
    if 1 <= |s| && forall i :: 0 <= i < |s| ==> IsSlugChar(s[i]) {
      PatternIsAscii(s);
    }
  }

  /** The empty name, a 31-character name, and names with an upper-case letter or a space are rejected. */
  lemma TagNameRejections(s: string)
    ensures !TagNameAccepted("")
    ensures |s| > 30 ==> !TagNameAccepted(s)
    ensures (exists i :: 0 <= i < |s| && (s[i] == ' ' || 'A' <= s[i] <= 'Z')) ==> !TagNameAccepted(s)
  {
    TagNameRule(s);
  }

  /** Every accepted tag name of at least three characters is also an accepted slug. */
  lemma TagNameIsSlug(s: string)
    requires TagNameAccepted(s) && |s| >= 3
    ensures SlugAccepted(s)
  {
    TagNameRule(s);
    SlugRule(s);
  }

  /** The password rule: absent is fine, three characters are not, four are. */
  lemma PasswordRule(s: string)
    ensures |s| >= 4 ==> PasswordAccepted(s)
    ensures Utf16Length(s) < 4 ==> !PasswordAccepted(s)
    ensures (forall i :: 0 <= i < |s| ==> !IsAstral(s[i])) ==> (PasswordAccepted(s) <==> |s| >= 4)
  {
  }

  /** `expiresAt` rejects zero, negatives and fractions, and accepts every positive integer. */
  lemma ExpiresAtRule(x: real, n: int)
    ensures x <= 0.0 ==> !ExpiresAtAccepted(x)
    ensures x.Floor as real != x ==> !ExpiresAtAccepted(x)
    ensures n > 0 ==> ExpiresAtAccepted(n as real)
  {
  }

  /**
   * The update schema applies the create schema's field rules: an update
   * that carries a URL is accepted exactly when the same fields form an
   * accepted create body, and the empty update is accepted.
   */
  lemma UpdateMatchesCreate(isUrl: string -> bool, body: CreateLinkBody)
    ensures UpdateLinkAccepted(isUrl, UpdateLinkBody(Some(body.url), body.slug, body.expiresAt, body.password, body.tags))
        <==> CreateLinkAccepted(isUrl, body)
    ensures UpdateLinkAccepted(isUrl, UpdateLinkBody(None, None, None, None, None))
  {
  }

  /** A create body with only a valid URL is accepted whatever its tags: no rule applies to tag names. */
  lemma CreateMinimalBody(isUrl: string -> bool, url: string, tags: Option<seq<string>>)
    requires isUrl(url)
    ensures CreateLinkAccepted(isUrl, CreateLinkBody(url, None, None, None, tags))
  {
  }
}
