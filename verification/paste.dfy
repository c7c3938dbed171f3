/** The paste record, the keyed store both request handlers work on, and the
    responses they produce. Times are milliseconds since the epoch. */
module Pastes {
  import opened Values

  /** Lengths the identifier generator produces for slugs and secret tokens. */
  const SlugLength: nat := 8
  const TokenLength: nat := 32

  const Hour: int := 60 * 60 * 1000
  const Day: int := 24 * Hour
  const Week: int := 7 * Day

  const PrivateLevel: string := "private"

  /** One row of the `pastes` table. The four user-editable text columns are
      nullable, since an update may write `null` into any of them. */
  datatype Paste = Paste(
    slug: string,
    title: Option<string>,
    content: Option<string>,
    language: Option<string>,
    privacy: Option<string>,
    secretToken: string,
    createdAt: int,
    expiresAt: Option<int>,
    views: nat)
  {
    predicate IsPrivate() {
      privacy == Some(PrivateLevel)
    }

    /** Expiry is strict: a paste is still readable at its expiry instant. */
    predicate ExpiredAt(now: int) {
      expiresAt.Some? && expiresAt.value < now
    }
  }

  /** The datastore, keyed by slug. */
  type Store = map<string, Paste>

  /** Every row is filed under its own slug and holds a generated-length token. */
  ghost predicate WellFormed(store: Store) {
    forall s :: s in store ==> store[s].slug == s && |store[s].secretToken| == TokenLength
  }

  /** `store'` agrees with `store` on every slug other than `slug`. */
  ghost predicate SameElsewhere(store: Store, store': Store, slug: string) {
    && (forall s :: s != slug ==> (s in store <==> s in store'))
    && (forall s :: s != slug && s in store ==> store'[s] == store[s])
  }

  /** A row as sent to clients: every column but the secret token. */
  datatype PasteView = PasteView(
    slug: string,
    title: Option<string>,
    content: Option<string>,
    language: Option<string>,
    privacy: Option<string>,
    createdAt: int,
    expiresAt: Option<int>,
    views: nat)

  /** The row with its secret token dropped. */
  function Redact(p: Paste): PasteView
  {
    PasteView(p.slug, p.title, p.content, p.language, p.privacy, p.createdAt, p.expiresAt, p.views)
  }

  /** What a client sees determines the row up to its secret token: two rows
      look alike exactly when they differ at most in the token. */
  lemma RedactHidesOnlyToken(p: Paste, q: Paste)
    ensures Redact(p) == Redact(q) <==> p.(secretToken := q.secretToken) == q
  {
  }

  /** What a handler sends back. */
  datatype Response =
    | Failure(code: nat, message: string)
    | Created(createdSlug: string, createdToken: string)
    | Record(paste: PasteView)
    | RawText(text: Option<string>)
    | Removed
    | Preflight

  /** The HTTP status of a response; every non-failure is sent with 200. */
  function Status(r: Response): nat
  {
    if r.Failure? then r.code else 200
  }

  /** A handler's response together with the store it leaves behind. */
  datatype Outcome = Outcome(response: Response, store: Store)

  /** How far ahead a recognised expiration choice lies; `None` for anything else. */
  function Lifetime(spec: string): (d: Option<int>)
    ensures d.Some? <==> spec == "1h" || spec == "1d" || spec == "1w"
    ensures d.Some? ==> d.value > 0
  {
    match spec
    case "1h" => Some(Hour)
    case "1d" => Some(Day)
    case "1w" => Some(Week)
    case _ => None
  }

  /** The view counter after one more read. */
  function Viewed(p: Paste): (q: Paste)
    ensures q.views == p.views + 1
    ensures q.(views := p.views) == p
  {
    p.(views := p.views + 1)
  }
}
