/**
  `GET /api/v1/revalidate` (app/api/v1/revalidate/route.ts): a cache tag is revalidated only for
  a request carrying the shared secret as `id`. The guard as written rejects exactly the tags
  the application knows (`!!CACHE_KEYS.includes(tag)` is true for them); `Guard` is the evidently
  intended version that accepts only those.
*/
module Revalidate {
  import opened Results

  /** What the handler does: reject with 400, or revalidate the tag and answer 200. */
  datatype Outcome = Rejected | Revalidated(tag: string)

  /** The status of the JSON reply. */
  function Status(o: Outcome): int {
    if o.Rejected? then 400 else 200
  }

  /** A query parameter is truthy: present and not the empty string. */
  predicate Truthy(p: Option<string>) {
    p.Some? && p.value != ""
  }

  /**
    The guard as written: `tag` and `id` present and non-empty, `id` equal to the secret, and
    `tag` NOT among the cache keys.
  */
  function GuardAsWritten(tag: Option<string>, id: Option<string>, cacheKeys: seq<string>, secret: string): (o: Outcome)
    ensures o.Revalidated? <==> Truthy(tag) && tag.value !in cacheKeys && Truthy(id) && id.value == secret
    ensures o.Revalidated? ==> o.tag == tag.value
  {
    if !Truthy(tag) || tag.value in cacheKeys || !Truthy(id) || id.value != secret then Rejected
    else Revalidated(tag.value)
  }

  /** The corrected guard: only a known tag, with the secret. */
  function Guard(tag: Option<string>, id: Option<string>, cacheKeys: seq<string>, secret: string): (o: Outcome)
    ensures o.Revalidated? <==> Truthy(tag) && tag.value in cacheKeys && Truthy(id) && id.value == secret
    ensures o.Revalidated? ==> o.tag == tag.value && o.tag in cacheKeys
  {
    if !Truthy(tag) || tag.value !in cacheKeys || !Truthy(id) || id.value != secret then Rejected
    else Revalidated(tag.value)
  }

  /**
    The two guards disagree on every well-authenticated request with a non-empty tag: the
    written one revalidates exactly the tags the corrected one refuses, and the reverse.
  */
  lemma GuardsDisagree(tag: string, secret: string, cacheKeys: seq<string>)
    requires tag != "" && secret != ""
    ensures GuardAsWritten(Some(tag), Some(secret), cacheKeys, secret).Revalidated?
        <==> !Guard(Some(tag), Some(secret), cacheKeys, secret).Revalidated?
    ensures tag in cacheKeys ==> Status(GuardAsWritten(Some(tag), Some(secret), cacheKeys, secret)) == 400
    ensures tag in cacheKeys ==> Status(Guard(Some(tag), Some(secret), cacheKeys, secret)) == 200
  {
  }

  /** Without the right secret, nothing is revalidated, by either guard. */
  lemma WrongSecretRejected(tag: Option<string>, id: Option<string>, cacheKeys: seq<string>, secret: string)
    requires id != Some(secret)
    ensures GuardAsWritten(tag, id, cacheKeys, secret) == Rejected
    ensures Guard(tag, id, cacheKeys, secret) == Rejected
  {
  }

  /** An empty secret can never be matched, since an empty `id` is refused first. */
  lemma EmptySecretRejects(tag: Option<string>, id: Option<string>, cacheKeys: seq<string>)
    ensures GuardAsWritten(tag, id, cacheKeys, "") == Rejected
    ensures Guard(tag, id, cacheKeys, "") == Rejected
  {
  }
}
