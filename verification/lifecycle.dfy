/** Properties of the paste lifecycle through the Express API that relate
    several requests: create then read, reads that count views, expiry,
    privacy, delete then read, partial updates, and the rate limit seen
    through paste creation. */
module Lifecycle {
  import opened Values
  import opened Pastes
  import opened Routes
  import RateLimit
  import Text

  /** The raw endpoint makes exactly the access decision of a read, answers
      with the content that read would show, and changes nothing, whereas the
      read changes only the view count. */
  lemma RawReadMatchesRead(store: Store, now: int, slug: string, token: Field)
    ensures Status(GetRaw(store, now, slug, token).response) == Status(Get(store, now, slug, token).response)
    ensures GetRaw(store, now, slug, token).store == store
    ensures !Get(store, now, slug, token).response.Failure? ==>
              GetRaw(store, now, slug, token).response == RawText(Get(store, now, slug, token).response.paste.content)
  {
  }

  /** The store after `n` reads in a row of the same slug with the same token. */
  function ReadRepeatedly(store: Store, now: int, slug: string, token: Field, n: nat): (s: Store)
    ensures s.Keys == store.Keys
  {
    if n == 0 then store else Get(ReadRepeatedly(store, now, slug, token, n - 1), now, slug, token).store
  }

  /** `n` successful reads raise the view count by exactly `n` and touch
      nothing else. */
  lemma {:induction false} ReadsCountViews(store: Store, now: int, slug: string, token: Field, n: nat)
    requires Status(Get(store, now, slug, token).response) == 200
    ensures var s := ReadRepeatedly(store, now, slug, token, n);
            && slug in s
            && s[slug] == store[slug].(views := store[slug].views + n)
            && SameElsewhere(store, s, slug)
  {
    if n > 0 {
      ReadsCountViews(store, now, slug, token, n - 1);
      OneMoreRead(store, ReadRepeatedly(store, now, slug, token, n - 1), now, slug, token, n - 1);
    }
  }

  /** A read ignores the view count: after `k` successful reads, one more read
      succeeds too and raises the count to `k + 1`. */
  lemma OneMoreRead(store: Store, s: Store, now: int, slug: string, token: Field, k: nat)
    requires Status(Get(store, now, slug, token).response) == 200
    requires slug in s && s[slug] == store[slug].(views := store[slug].views + k)
    requires SameElsewhere(store, s, slug)
    ensures var s' := Get(s, now, slug, token).store;
            && slug in s'
            && s'[slug] == store[slug].(views := store[slug].views + k + 1)
            && SameElsewhere(store, s', slug)
  {
  }

  /** A request the limiter admits, with non-blank content and an unused slug,
      creates the paste. */
  lemma CreateSucceedsWhenAllowed(server: Server, ip: string, now: int, body: CreateBody, slug: string, token: string)
    requires |slug| == SlugLength && |token| == TokenLength
    requires |RateLimit.RecentIndices(RateLimit.HistoryOf(server.limits, ip), now)| < RateLimit.MaxRequests
    requires body.content.Str? && !Text.IsBlank(body.content.text)
    requires slug !in server.store
    ensures Create(server, ip, now, body, slug, token).response == Created(slug, token)
  {
  }

  /** A live public paste is served to anyone, with one more view. */
  lemma PublicPasteServed(store: Store, now: int, slug: string, token: Field)
    requires slug in store && !store[slug].ExpiredAt(now) && !store[slug].IsPrivate()
    ensures Get(store, now, slug, token).response.Record?
    ensures Get(store, now, slug, token).store[slug].views == store[slug].views + 1
  {
  }

  /** A paste just created can be read back with its token until its expiry,
      showing its content and one view; after its expiry it is gone. */
  lemma CreatedPasteReadable(server: Server, ip: string, now: int, body: CreateBody, slug: string, token: string, at: int)
    requires |slug| == SlugLength && |token| == TokenLength
    requires Create(server, ip, now, body, slug, token).response.Created?
    ensures var store := Create(server, ip, now, body, slug, token).server.store;
            var expiry := CreateExpiry(body.expiration, now);
            var read := Get(store, at, slug, Str(token));
            && ((expiry.None? || at <= expiry.value) ==>
                  && read.response.Record?
                  && read.response.paste.content == Some(body.content.text)
                  && read.response.paste.views == 1)
            && (expiry.Some? && at > expiry.value ==> Status(read.response) == 410)
  {
  }

  /** A paste created to last one hour is readable at exactly one hour and
      gone at any later instant, whatever token is offered. */
  lemma OneHourPasteExpires(server: Server, ip: string, now: int, body: CreateBody, slug: string, token: string, later: int, anyToken: Field)
    requires |slug| == SlugLength && |token| == TokenLength
    requires body.expiration == Str("1h")
    requires Create(server, ip, now, body, slug, token).response.Created?
    requires later > now + 3_600_000
    ensures var store := Create(server, ip, now, body, slug, token).server.store;
            && Status(Get(store, now + 3_600_000, slug, Str(token)).response) == 200
            && Status(Get(store, later, slug, anyToken).response) == 410
  {
    CreatedPasteReadable(server, ip, now, body, slug, token, now + 3_600_000);
  }

  /** A live private paste is readable with exactly its own secret token and
      with no other. */
  lemma PrivateReadNeedsExactToken(store: Store, now: int, slug: string, token: Field)
    requires WellFormed(store)
    requires slug in store && store[slug].IsPrivate() && !store[slug].ExpiredAt(now)
    ensures Status(Get(store, now, slug, token).response) == 200 <==> token == Str(store[slug].secretToken)
    ensures Status(Get(store, now, slug, token).response) != 200 ==> Status(Get(store, now, slug, token).response) == 403
  {
    assert |store[slug].secretToken| == TokenLength;
  }

  /** Once deleted, a paste is not found by either read endpoint. */
  lemma DeletedPasteNotFound(store: Store, slug: string, token: Field, now: int, anyToken: Field)
    requires Delete(store, slug, token).response == Removed
    ensures Status(Get(Delete(store, slug, token).store, now, slug, anyToken).response) == 404
    ensures Status(GetRaw(Delete(store, slug, token).store, now, slug, anyToken).response) == 404
  {
  }

  /** An update that supplies only a title changes only the title. */
  lemma TitleOnlyUpdate(store: Store, now: int, slug: string, token: string, title: string)
    requires Status(Update(store, now, slug, UpdateBody(Str(token), Str(title), Undefined, Undefined, Undefined, Undefined)).response) == 200
    ensures var s := Update(store, now, slug, UpdateBody(Str(token), Str(title), Undefined, Undefined, Undefined, Undefined)).store;
            && slug in store
            && s == store[slug := store[slug].(title := Some(title))]
  {
  }

  /** Creation, reads, updates and deletes keep every row filed under its own
      slug with a generated-length token. */
  lemma CreatePreservesWellFormed(server: Server, ip: string, now: int, body: CreateBody, slug: string, token: string)
    requires |slug| == SlugLength && |token| == TokenLength
    requires WellFormed(server.store)
    ensures WellFormed(Create(server, ip, now, body, slug, token).server.store)
  {
  }

  lemma ReadsAndMutationsPreserveWellFormed(store: Store, now: int, slug: string, token: Field, body: UpdateBody)
    requires WellFormed(store)
    ensures WellFormed(Get(store, now, slug, token).store)
    ensures WellFormed(GetRaw(store, now, slug, token).store)
    ensures WellFormed(Update(store, now, slug, body).store)
    ensures WellFormed(Delete(store, slug, token).store)
  {
  }

  /** Creation is refused with 429 exactly when five creations from the same
      client were admitted within the last minute: the server's stored history
      for the client is the one its earlier requests left behind. */
  lemma CreateFollowsSlidingWindow(server: Server, ip: string, now: int, body: CreateBody, slug: string, token: string, earlier: seq<int>)
    requires |slug| == SlugLength && |token| == TokenLength
    requires RateLimit.Nondecreasing(earlier)
    requires |earlier| > 0 ==> earlier[|earlier| - 1] <= now
    requires RateLimit.HistoryOf(server.limits, ip) == RateLimit.Replay(earlier).history
    ensures Status(Create(server, ip, now, body, slug, token).response) == 429
            <==> |RateLimit.RecentIndices(RateLimit.Replay(earlier).admitted, now)| >= RateLimit.MaxRequests
  {
    RateLimit.PrunedHistoryIsExact(earlier, now);
  }

  /** Creation replays the client's request stream: whatever the request
      body, a server whose stored history for `ip` is the one `earlier` left
      behind stores, after one more create at `now`, the history the stream
      `earlier + [now]` leaves behind. A chain of creates from one client
      therefore keeps meeting the history condition of
      `CreateFollowsSlidingWindow`. */
  lemma CreateExtendsReplay(server: Server, ip: string, now: int, body: CreateBody, slug: string, token: string, earlier: seq<int>)
    requires |slug| == SlugLength && |token| == TokenLength
    requires RateLimit.HistoryOf(server.limits, ip) == RateLimit.Replay(earlier).history
    ensures RateLimit.HistoryOf(Create(server, ip, now, body, slug, token).server.limits, ip)
            == RateLimit.Replay(earlier + [now]).history
  {
  }
}
