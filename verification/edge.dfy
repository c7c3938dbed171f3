/** The serverless edge function `paste-operations`: one entry point that
    dispatches on the `operation` and `slug` query parameters to view, edit or
    delete a paste. Its policy differs from the Express API: a view does not
    look at the expiry, and a missing paste on edit or delete is refused as a
    bad token (403) rather than reported as not found. */
module EdgeFunction {
  import opened Values
  import opened Pastes

  /** The JSON body; `edit` reads every field, `view` and `delete` only the token.
      The four text fields are what the edit writes, `None` being `null`. */
  datatype Body = Body(token: Field, title: Option<string>, content: Option<string>,
                       language: Option<string>, privacy: Option<string>)

  /** One HTTP request: its method, the `operation` and `slug` query
      parameters (`None` when absent) and its body. */
  datatype Request = Request(httpMethod: string, operation: Option<string>, slug: Option<string>, body: Body)

  /** `data.secret_token !== token` is false only for the exact secret string. */
  predicate TokenMatches(p: Paste, token: Field) {
    token == Str(p.secretToken)
  }

  /** `operation=view`: not found (404), then private with a wrong token (403);
      the expiry is never consulted. A successful view stores and reports one
      more view. */
  function View(store: Store, slug: string, token: Field): (r: Outcome)
    ensures Status(r.response) == 404 <==> slug !in store
    ensures Status(r.response) == 403
            <==> slug in store && store[slug].IsPrivate() && token != Str(store[slug].secretToken)
    ensures r.response.Failure? ==> r.store == store
    ensures r.response.Failure? ==> Status(r.response) in {404, 403}
    ensures !r.response.Failure? ==>
              && r.response.Record?
              && slug in store && r.store.Keys == store.Keys
              && SameElsewhere(store, r.store, slug)
              && r.store[slug].views == store[slug].views + 1
              && r.store[slug].(views := store[slug].views) == store[slug]
              && r.response.paste == Redact(r.store[slug])
  {
    if slug !in store then Outcome(Failure(404, "Paste not found"), store)
    else
      var p := store[slug];
      if p.IsPrivate() && !TokenMatches(p, token) then Outcome(Failure(403, "Invalid token"), store)
      else Outcome(Record(Redact(Viewed(p))), store[slug := Viewed(p)])
  }

  /** The row after an edit: the four text columns written as given, nothing else touched. */
  function Edited(p: Paste, body: Body): (q: Paste)
    ensures q.title == body.title && q.content == body.content
    ensures q.language == body.language && q.privacy == body.privacy
    ensures q.slug == p.slug && q.secretToken == p.secretToken && q.views == p.views
    ensures q.createdAt == p.createdAt && q.expiresAt == p.expiresAt
  {
    p.(title := body.title, content := body.content, language := body.language, privacy := body.privacy)
  }

  /** `operation=edit`: a missing paste and a wrong token are both refused
      with 403; there is no 401 and no 404. */
  function Edit(store: Store, slug: string, body: Body): (r: Outcome)
    ensures Status(r.response) == 403 <==> slug !in store || !TokenMatches(store[slug], body.token)
    ensures r.response.Failure? ==> Status(r.response) == 403 && r.store == store
    ensures !r.response.Failure? ==>
              && slug in store && body.token == Str(store[slug].secretToken)
              && r.store == store[slug := Edited(store[slug], body)]
              && r.response == Record(Redact(r.store[slug]))
  {
    if slug !in store || !TokenMatches(store[slug], body.token) then
      Outcome(Failure(403, "Invalid token"), store)
    else
      var q := Edited(store[slug], body);
      Outcome(Record(Redact(q)), store[slug := q])
  }

  /** `operation=delete`: the same 403 gate as an edit; success removes that one row. */
  function Remove(store: Store, slug: string, token: Field): (r: Outcome)
    ensures Status(r.response) == 403 <==> slug !in store || !TokenMatches(store[slug], token)
    ensures r.response.Failure? ==> Status(r.response) == 403 && r.store == store
    ensures !r.response.Failure? ==>
              && r.response == Removed
              && slug in store && token == Str(store[slug].secretToken)
              && r.store.Keys == store.Keys - {slug}
              && SameElsewhere(store, r.store, slug)
  {
    if slug !in store || !TokenMatches(store[slug], token) then
      Outcome(Failure(403, "Invalid token"), store)
    else Outcome(Removed, store - {slug})
  }

  /** Whether a query parameter is present and non-empty. */
  predicate Given(param: Option<string>) {
    param.Some? && param.value != ""
  }

  /** The whole function: a CORS preflight is answered "ok"; otherwise the
      operation runs when it is one of the three and a slug is given, and
      anything else is answered 400 "Invalid operation". */
  function Handle(store: Store, req: Request): (r: Outcome)
    ensures req.httpMethod == "OPTIONS" ==> r == Outcome(Preflight, store)
    ensures req.httpMethod != "OPTIONS" && !(req.operation.Some? && req.operation.value in {"view", "edit", "delete"})
            ==> r == Outcome(Failure(400, "Invalid operation"), store)
    ensures req.httpMethod != "OPTIONS" && !Given(req.slug)
            ==> r == Outcome(Failure(400, "Invalid operation"), store)
    ensures req.httpMethod != "OPTIONS" && Given(req.slug) && req.operation == Some("view")
            ==> r == View(store, req.slug.value, req.body.token)
    ensures req.httpMethod != "OPTIONS" && Given(req.slug) && req.operation == Some("edit")
            ==> r == Edit(store, req.slug.value, req.body)
    ensures req.httpMethod != "OPTIONS" && Given(req.slug) && req.operation == Some("delete")
            ==> r == Remove(store, req.slug.value, req.body.token)
  {
    if req.httpMethod == "OPTIONS" then Outcome(Preflight, store)
    else if req.operation == Some("view") && Given(req.slug) then View(store, req.slug.value, req.body.token)
    else if req.operation == Some("edit") && Given(req.slug) then Edit(store, req.slug.value, req.body)
    else if req.operation == Some("delete") && Given(req.slug) then Remove(store, req.slug.value, req.body.token)
    else Outcome(Failure(400, "Invalid operation"), store)
  }
}
