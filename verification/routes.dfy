/** The Express API: create, read, raw read, update and delete of pastes.
    Each handler is a total function from the store, the clock and the
    request to a response and the store it leaves behind. */
module Routes {
  import opened Values
  import opened Pastes
  import Text
  import RateLimit

  /** Everything the Express process keeps between requests. */
  datatype Server = Server(store: Store, limits: RateLimit.Limits)

  datatype ServerOutcome = ServerOutcome(response: Response, server: Server)

  /** The JSON body of `POST /api/pastes`. */
  datatype CreateBody = CreateBody(title: Field, content: Field, language: Field, privacy: Field, expiration: Field)

  /** The JSON body of `PATCH /api/pastes/:slug`. */
  datatype UpdateBody = UpdateBody(token: Field, title: Field, content: Field, language: Field, privacy: Field, expiration: Field)

  /** The expiry a new paste gets: one hour, day or week ahead for the three
      recognised choices, and none for "never", for an absent or empty choice,
      and for anything unrecognised. */
  function CreateExpiry(spec: Field, now: int): (e: Option<int>)
    ensures spec == Str("1h") ==> e == Some(now + 3_600_000)
    ensures spec == Str("1d") ==> e == Some(now + 86_400_000)
    ensures spec == Str("1w") ==> e == Some(now + 604_800_000)
    ensures !(spec == Str("1h") || spec == Str("1d") || spec == Str("1w")) ==> e == None
  {
    if Truthy(spec) && spec.text != "never" then
      match Lifetime(spec.text)
      case Some(d) => Some(now + d)
      case None => None
    else None
  }

  /** The expiry after an update: kept when no choice is supplied, cleared by
      "never", restarted from `now` by a recognised choice, and kept for
      anything else (including `null`). */
  function UpdateExpiry(spec: Field, now: int, previous: Option<int>): (e: Option<int>)
    ensures spec == Str("never") ==> e == None
    ensures spec == Str("1h") ==> e == Some(now + 3_600_000)
    ensures spec == Str("1d") ==> e == Some(now + 86_400_000)
    ensures spec == Str("1w") ==> e == Some(now + 604_800_000)
    ensures !(spec == Str("never") || spec == Str("1h") || spec == Str("1d") || spec == Str("1w"))
            ==> e == previous
  {
    if spec.Undefined? then previous
    else if spec == Str("never") then None
    else if spec.Str? && Lifetime(spec.text).Some? then Some(now + Lifetime(spec.text).value)
    else previous
  }

  /** Whether a request token passes the private-paste check: `!token ||
      token !== secret` denies, so an empty token never passes. */
  predicate TokenOpens(p: Paste, token: Field) {
    !p.IsPrivate() || (Truthy(token) && token.text == p.secretToken)
  }

  /** `POST /api/pastes` from client `ip`; `slug` and `token` are the freshly
      generated identifier and secret. The rate limit is consulted first, so a
      rejected or invalid request still uses up an admission. */
  function Create(server: Server, ip: string, now: int, body: CreateBody, slug: string, token: string): (r: ServerOutcome)
    requires |slug| == SlugLength && |token| == TokenLength
    ensures r.server.limits == RateLimit.Check(server.limits, ip, now).limits
    ensures Status(r.response) == 429
            <==> |RateLimit.RecentIndices(RateLimit.HistoryOf(server.limits, ip), now)| >= RateLimit.MaxRequests
    ensures Status(r.response) == 400
            <==> Status(r.response) != 429 && (!body.content.Str? || Text.IsBlank(body.content.text))
    ensures Status(r.response) == 500
            <==> Status(r.response) != 429 && Status(r.response) != 400 && slug in server.store
    ensures r.response.Failure? ==> r.server.store == server.store
    ensures r.response.Failure? ==> Status(r.response) in {429, 400, 500}
    ensures !r.response.Failure? ==> r.response == Created(slug, token)
    ensures r.response.Created? ==>
              && r.server.store.Keys == server.store.Keys + {slug}
              && SameElsewhere(server.store, r.server.store, slug)
              && var p := r.server.store[slug];
              && p.slug == slug && p.secretToken == token
              && p.content == Some(body.content.text)
              && p.title == (if Truthy(body.title) then Some(body.title.text) else None)
              && p.language == Some(if Truthy(body.language) then body.language.text else "plaintext")
              && p.privacy == Some(if Truthy(body.privacy) then body.privacy.text else "unlisted")
              && p.createdAt == now
              && p.expiresAt == CreateExpiry(body.expiration, now)
              && p.views == 0
  {
    var d := RateLimit.Check(server.limits, ip, now);
    if !d.allowed then
      ServerOutcome(Failure(429, "Rate limit exceeded. Please try again later."), server)
    else
      var admitted := server.(limits := d.limits);
      if !Truthy(body.content) || Text.IsBlank(body.content.text) then
        ServerOutcome(Failure(400, "Content is required"), admitted)
      else if slug in server.store then
        // the datastore's uniqueness constraint on slugs refuses the insert
        ServerOutcome(Failure(500, "Failed to create paste"), admitted)
      else
        var p := Paste(
          slug,
          if Truthy(body.title) then Some(body.title.text) else None,
          Some(body.content.text),
          Some(OrElse(body.language, "plaintext")),
          Some(OrElse(body.privacy, "unlisted")),
          token,
          now,
          CreateExpiry(body.expiration, now),
          0);
        ServerOutcome(Created(slug, token), admitted.(store := server.store[slug := p]))
  }

  /** `GET /api/pastes/:slug?token=`: not found, then expired, then private
      without the right token; a successful read counts one more view. */
  function Get(store: Store, now: int, slug: string, token: Field): (r: Outcome)
    ensures Status(r.response) == 404 <==> slug !in store
    ensures Status(r.response) == 410 <==> slug in store && store[slug].ExpiredAt(now)
    ensures Status(r.response) == 403
            <==> slug in store && !store[slug].ExpiredAt(now) && store[slug].IsPrivate()
                 && !(token == Str(store[slug].secretToken) && store[slug].secretToken != "")
    ensures r.response.Failure? ==> r.store == store
    ensures r.response.Failure? ==> Status(r.response) in {404, 410, 403}
    ensures !r.response.Failure? ==>
              && r.response.Record?
              && slug in store && r.store.Keys == store.Keys
              && SameElsewhere(store, r.store, slug)
              && r.store[slug].views == store[slug].views + 1
              && r.store[slug].(views := store[slug].views) == store[slug]
              && r.response.paste == Redact(r.store[slug])
  {
    if slug !in store then Outcome(Failure(404, "Paste not found"), store)
    else
      var p := store[slug];
      if p.ExpiredAt(now) then Outcome(Failure(410, "Paste has expired"), store)
      else if !TokenOpens(p, token) then Outcome(Failure(403, "Access denied. Secret token required."), store)
      else Outcome(Record(Redact(Viewed(p))), store[slug := Viewed(p)])
  }

  /** `GET /api/pastes/:slug/raw?token=`: the same checks as a read, the
      content as plain text, and no view counted. */
  function GetRaw(store: Store, now: int, slug: string, token: Field): (r: Outcome)
    ensures r.store == store
    ensures r.response.Failure? ==> Status(r.response) in {404, 410, 403}
    ensures Status(r.response) == 404 <==> slug !in store
    ensures Status(r.response) == 410 <==> slug in store && store[slug].ExpiredAt(now)
    ensures Status(r.response) == 403
            <==> slug in store && !store[slug].ExpiredAt(now) && store[slug].IsPrivate()
                 && !(token == Str(store[slug].secretToken) && store[slug].secretToken != "")
    ensures !r.response.Failure? ==> slug in store && r.response == RawText(store[slug].content)
  {
    if slug !in store then Outcome(Failure(404, "Paste not found"), store)
    else
      var p := store[slug];
      if p.ExpiredAt(now) then Outcome(Failure(410, "Paste has expired"), store)
      else if !TokenOpens(p, token) then Outcome(Failure(403, "Access denied"), store)
      else Outcome(RawText(p.content), store)
  }

  /** The row after a partial update: each text column is replaced only when
      its field is supplied, and the expiry follows `UpdateExpiry`. */
  function Patched(p: Paste, body: UpdateBody, now: int): (q: Paste)
    ensures q.slug == p.slug && q.secretToken == p.secretToken
    ensures q.views == p.views && q.createdAt == p.createdAt
    ensures body.title.Undefined? ==> q.title == p.title
    ensures body.title.Str? ==> q.title == Some(body.title.text)
    ensures body.title.Null? ==> q.title == None
    ensures body.content.Undefined? ==> q.content == p.content
    ensures body.content.Str? ==> q.content == Some(body.content.text)
    ensures body.content.Null? ==> q.content == None
    ensures body.language.Undefined? ==> q.language == p.language
    ensures body.language.Str? ==> q.language == Some(body.language.text)
    ensures body.language.Null? ==> q.language == None
    ensures body.privacy.Undefined? ==> q.privacy == p.privacy
    ensures body.privacy.Str? ==> q.privacy == Some(body.privacy.text)
    ensures body.privacy.Null? ==> q.privacy == None
    ensures q.expiresAt == UpdateExpiry(body.expiration, now, p.expiresAt)
  {
    p.(title := Overwrite(body.title, p.title),
       content := Overwrite(body.content, p.content),
       language := Overwrite(body.language, p.language),
       privacy := Overwrite(body.privacy, p.privacy),
       expiresAt := UpdateExpiry(body.expiration, now, p.expiresAt))
  }

  /** `PATCH /api/pastes/:slug`: no token (401) before any lookup, then not
      found (404), then wrong token (403). Expiry is not checked. */
  function Update(store: Store, now: int, slug: string, body: UpdateBody): (r: Outcome)
    ensures Status(r.response) == 401 <==> !Truthy(body.token)
    ensures Status(r.response) == 404 <==> Truthy(body.token) && slug !in store
    ensures Status(r.response) == 403
            <==> Truthy(body.token) && slug in store && store[slug].secretToken != body.token.text
    ensures r.response.Failure? ==> r.store == store
    ensures r.response.Failure? ==> Status(r.response) in {401, 404, 403}
    ensures !r.response.Failure? ==>
              && slug in store && body.token == Str(store[slug].secretToken)
              && r.store == store[slug := Patched(store[slug], body, now)]
              && r.response == Record(Redact(r.store[slug]))
  {
    if !Truthy(body.token) then Outcome(Failure(401, "Secret token required"), store)
    else if slug !in store then Outcome(Failure(404, "Paste not found"), store)
    else
      var p := store[slug];
      if p.secretToken != body.token.text then Outcome(Failure(403, "Invalid secret token"), store)
      else
        var q := Patched(p, body, now);
        Outcome(Record(Redact(q)), store[slug := q])
  }

  /** `DELETE /api/pastes/:slug` with body `{token}`: the same 401, 404, 403
      order as an update; success removes that one row. */
  function Delete(store: Store, slug: string, token: Field): (r: Outcome)
    ensures Status(r.response) == 401 <==> !Truthy(token)
    ensures Status(r.response) == 404 <==> Truthy(token) && slug !in store
    ensures Status(r.response) == 403
            <==> Truthy(token) && slug in store && store[slug].secretToken != token.text
    ensures r.response.Failure? ==> r.store == store
    ensures r.response.Failure? ==> Status(r.response) in {401, 404, 403}
    ensures !r.response.Failure? ==>
              && r.response == Removed
              && slug in store && token == Str(store[slug].secretToken)
              && r.store.Keys == store.Keys - {slug}
              && SameElsewhere(store, r.store, slug)
  {
    if !Truthy(token) then Outcome(Failure(401, "Secret token required"), store)
    else if slug !in store then Outcome(Failure(404, "Paste not found"), store)
    else if store[slug].secretToken != token.text then Outcome(Failure(403, "Invalid secret token"), store)
    else Outcome(Removed, store - {slug})
  }
}
