/** Whether the server gets a sorted-set cache client, decided once from
    `REDIS_URL`, and the options that client is given. */
module RedisConfig {
  import opened Wrappers
  import opened Text

  /** TLS settings: managed providers' certificates are accepted unchecked. */
  datatype TlsOptions = TlsOptions(rejectUnauthorized: bool)

  /** `maxRetriesPerRequest` is `None` for `null` (retry without limit). */
  datatype ClientOptions = ClientOptions(maxRetriesPerRequest: Option<nat>, enableReadyCheck: bool, tls: Option<TlsOptions>)

  /** Why no client was made: no usable value, or a value with another scheme. */
  datatype Warning = NotSet | LooksInvalid(url: string)

  datatype Setup = NoClient(warning: Warning) | Client(url: string, options: ClientOptions)

  /** `/^rediss?:\/\//i`: the scheme `redis` or `rediss`, in any letter case. */
  predicate HasRedisScheme(url: string) {
    StartsWith(ToLower(url), "redis://") || StartsWith(ToLower(url), "rediss://")
  }

  predicate IsTlsUrl(url: string) {
    StartsWith(ToLower(url), "rediss://")
  }

  function Classify(redisUrl: Option<string>): (r: Setup)
    ensures r.Client? <==> redisUrl.Some? && HasRedisScheme(Trim(redisUrl.value))
    ensures r.Client? ==> r.url == Trim(redisUrl.value)
    ensures r.Client? ==> r.options.maxRetriesPerRequest.None? && r.options.enableReadyCheck
    ensures r.Client? ==> (r.options.tls.Some? <==> IsTlsUrl(r.url))
    ensures r.Client? && r.options.tls.Some? ==> !r.options.tls.value.rejectUnauthorized
    ensures r == NoClient(NotSet) <==> redisUrl.None? || Trim(redisUrl.value) == ""
  {
    var url := if redisUrl.None? then "" else Trim(redisUrl.value);
    if url != "" && HasRedisScheme(url) then
      var tls := if IsTlsUrl(url) then Some(TlsOptions(false)) else None;
      Client(url, ClientOptions(None, true, tls))
    else if url != "" then NoClient(LooksInvalid(url))
    else NoClient(NotSet)
  }

  /** A blank value (white space only) gives no client, like an absent one. */
  lemma BlankUrlNoClient(redisUrl: string)
    requires IsBlank(redisUrl)
    ensures Classify(Some(redisUrl)) == Classify(None) == NoClient(NotSet)
  {
    TrimEmptyIffBlank(redisUrl);
  }

  /** A non-blank value with another scheme gives no client. */
  lemma OtherSchemeNoClient(redisUrl: string)
    requires !IsBlank(redisUrl) && !HasRedisScheme(Trim(redisUrl))
    ensures Classify(Some(redisUrl)) == NoClient(LooksInvalid(Trim(redisUrl)))
  {
    TrimEmptyIffBlank(redisUrl);
  }

  /** Letter case never changes the decision: lower-casing the value gives
      a client exactly when the value does, with the same TLS setting. */
  lemma ClassifyIgnoresCase(redisUrl: string)
    ensures Classify(Some(ToLower(redisUrl))).Client? == Classify(Some(redisUrl)).Client?
    ensures Classify(Some(redisUrl)).Client? ==>
      Classify(Some(ToLower(redisUrl))).options == Classify(Some(redisUrl)).options
  {
    var u := Trim(redisUrl);
    TrimLower(redisUrl);
    LowerIdempotent(u);
    var lu := Trim(ToLower(redisUrl));
    assert lu == ToLower(u) && |lu| == |u|;
    assert HasRedisScheme(lu) == HasRedisScheme(u);
    assert IsTlsUrl(lu) == IsTlsUrl(u);
  }

  /** Every TLS URL has the Redis scheme, so TLS is only ever set on a client. */
  lemma TlsImpliesScheme(url: string)
    requires IsTlsUrl(url)
    ensures HasRedisScheme(url)
  {
  }
}
