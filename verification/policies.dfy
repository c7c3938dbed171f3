/** The two access policies side by side: where the Express API and the edge
    function agree and exactly where they differ. */
module Policies {
  import opened Values
  import opened Pastes
  import Routes
  import EdgeFunction

  /** Same status, same resulting store, and the same body on success; the
      wording of error messages is allowed to differ. */
  predicate SameEffect(a: Outcome, b: Outcome) {
    && Status(a.response) == Status(b.response)
    && a.store == b.store
    && (!a.response.Failure? ==> a.response == b.response)
  }

  /** The token checks differ only on an empty secret: Express refuses an empty
      token outright, while the edge function compares strings. */
  lemma TokenChecksDifferOnlyOnEmptySecret(p: Paste, token: Field)
    ensures p.secretToken != "" ==>
              (Routes.TokenOpens(p, token) <==> !p.IsPrivate() || EdgeFunction.TokenMatches(p, token))
    ensures p.secretToken == "" && p.IsPrivate() ==>
              !Routes.TokenOpens(p, Str("")) && EdgeFunction.TokenMatches(p, Str(""))
  {
  }

  /** On a paste that has not expired, an edge view and an Express read have
      the same effect; on an expired one the Express read answers 410 while
      the edge view behaves as the Express read would have before the expiry. */
  lemma ReadsDifferOnlyOnExpiry(store: Store, now: int, slug: string, token: Field)
    requires WellFormed(store)
    ensures !(slug in store && store[slug].ExpiredAt(now)) ==>
              SameEffect(Routes.Get(store, now, slug, token), EdgeFunction.View(store, slug, token))
    ensures slug in store && store[slug].ExpiredAt(now) ==>
              && Status(Routes.Get(store, now, slug, token).response) == 410
              && Routes.Get(store, now, slug, token).store == store
              && SameEffect(Routes.Get(store, store[slug].expiresAt.value, slug, token),
                            EdgeFunction.View(store, slug, token))
  {
    if slug in store {
      assert |store[slug].secretToken| == TokenLength;
    }
  }

  /** Deletion: both paths remove the row under exactly the same condition and
      leave the same store; Express reports the failure as 401, 404 or 403
      where the edge function always says 403. */
  lemma DeletePoliciesAgreeOnOutcome(store: Store, slug: string, token: Field)
    requires WellFormed(store)
    ensures var express := Routes.Delete(store, slug, token);
            var edge := EdgeFunction.Remove(store, slug, token);
            && express.store == edge.store
            && (express.response == Removed <==> edge.response == Removed)
            && (Status(express.response) == 401 <==> !Truthy(token))
            && (Status(express.response) == 404 <==> Truthy(token) && slug !in store)
            && (express.response.Failure? ==> Status(edge.response) == 403)
  {
    if slug in store {
      assert |store[slug].secretToken| == TokenLength;
    }
  }

  /** The Express update request that carries the same four fields as an edge
      edit and no expiration choice. */
  function AsUpdate(body: EdgeFunction.Body): (u: Routes.UpdateBody)
    ensures u.token == body.token && u.expiration.Undefined?
    ensures !u.title.Undefined? && !u.content.Undefined? && !u.language.Undefined? && !u.privacy.Undefined?
  {
    Routes.UpdateBody(body.token, FromNullable(body.title), FromNullable(body.content),
                      FromNullable(body.language), FromNullable(body.privacy), Undefined)
  }

  /** An edge edit is an Express update that supplies all four text fields and
      no expiration: same authorisation outcome, same store, same record. */
  lemma EditIsFullUpdate(store: Store, now: int, slug: string, body: EdgeFunction.Body)
    requires WellFormed(store)
    ensures var express := Routes.Update(store, now, slug, AsUpdate(body));
            var edge := EdgeFunction.Edit(store, slug, body);
            && express.store == edge.store
            && (express.response.Failure? <==> edge.response.Failure?)
            && (!edge.response.Failure? ==> express.response == edge.response)
  {
    if slug in store {
      assert |store[slug].secretToken| == TokenLength;
    }
  }

  /** An edge edit never moves the expiry, while an Express update naming
      "never" clears it. */
  lemma OnlyExpressUpdatesExpiry(store: Store, now: int, slug: string, body: EdgeFunction.Body, u: Routes.UpdateBody)
    requires u.expiration == Str("never")
    requires !EdgeFunction.Edit(store, slug, body).response.Failure?
    requires !Routes.Update(store, now, slug, u).response.Failure?
    ensures EdgeFunction.Edit(store, slug, body).store[slug].expiresAt == store[slug].expiresAt
    ensures Routes.Update(store, now, slug, u).store[slug].expiresAt == None
  {
  }

  /** The edge operations keep every row filed under its own slug with a
      generated-length token. */
  lemma EdgeOperationsPreserveWellFormed(store: Store, req: EdgeFunction.Request)
    requires WellFormed(store)
    ensures WellFormed(EdgeFunction.Handle(store, req).store)
  {
  }
}
