/**
  The two request handlers: create a short code for a URL, and redirect a
  short code to its URL. The database table is `store`, the Redis keyspace
  (URL cache and identifier counter together) is `redis`, and the memoised
  provider choice is `registry`. HTTP responses become `Response` values.
*/
module Routes {
  import opened Wrappers
  import Utils
  import Redis
  import Providers
  import Services
  import opened Models

  /** The body of a create request. */
  datatype ShortenRequest = ShortenRequest(url: string, expirationTime: Option<int>)

  /**
    The handlers' outcomes: 201 with the new record, 400, 404, a 302 redirect,
    and 500 for an exception the handler does not catch.
  */
  datatype Response =
    | Created(record: UrlRecord)
    | BadRequest(detail: string)
    | NotFound(detail: string)
    | Found(location: string)
    | InternalError(detail: string)

  const InvalidUrlDetail: string := "Invalid URL provided"
  const DuplicateCodeDetail: string := "Short code already exists"
  const NotFoundDetail: string := "Short URL not found"

  /**
    What every stored row satisfies: it is keyed by its own code, its URL
    passed `IsUrl`, and its code is a string of base-62 symbols.
  */
  ghost predicate StoredRow(code: string, row: UrlRecord) {
    row.shortCode == code && Utils.IsUrl(row.originalUrl) && Utils.AllBase62(code)
  }

  /**
    The table and the cache agree: every row is well formed and every cached
    URL equals the `originalUrl` of the row with the same code.
  */
  ghost predicate Consistent(store: map<string, UrlRecord>, cache: map<string, string>) {
    && (forall code :: code in store ==> StoredRow(code, store[code]))
    && (forall code :: code in cache ==> code in store && cache[code] == store[code].originalUrl)
  }

  /**
    Every code in the table encodes an identifier already issued (at most
    `counter`). This holds while only this service writes the table and the
    counter is never reset; the handlers do not rely on it.
  */
  ghost predicate Fresh(store: map<string, UrlRecord>, counter: nat) {
    forall code :: code in store ==> Utils.AllBase62(code) && Utils.DecodeBase62(code) <= counter
  }

  /** The code of the next identifier is not yet a key of a fresh table. */
  lemma NextCodeIsFresh(store: map<string, UrlRecord>, counter: nat)
    requires Fresh(store, counter)
    ensures Utils.Base62(counter + 1) !in store
  {
    Utils.Base62RoundTrip(counter + 1);
  }

  /** Drawing identifiers keeps the table fresh. */
  lemma FreshAfterDraw(store: map<string, UrlRecord>, counter: nat, counter': nat)
    requires Fresh(store, counter) && counter <= counter'
    ensures Fresh(store, counter')
  {
  }

  /** Inserting the row for the latest identifier keeps the table fresh. */
  lemma FreshAfterInsert(store: map<string, UrlRecord>, counter: nat, row: UrlRecord)
    requires Fresh(store, counter) && row.shortCode == Utils.Base62(counter)
    ensures Fresh(store[row.shortCode := row], counter)
  {
    Utils.Base62RoundTrip(counter);
  }

  /**
    A table written before a counter reset: consistent with its cache, yet
    the very first code drawn afterwards is already a key.
  */
  lemma StaleCounterMeetsDuplicate(url: string)
    requires url == "//x.com"
    ensures var store := map["1" := UrlRecord("1", url, None)];
      Consistent(store, map[]) && Utils.Base62(0 + 1) in store && !Fresh(store, 0)
  {
    Utils.AcceptsWithoutScheme(url);
    Utils.AlphabetAt(1);
    assert Utils.Base62(1) == "1";
    assert Utils.DecodeBase62("1") == 1 by { assert "1"[..0] == []; }
  }

  /** Inserting a well-formed row and caching its URL keeps table and cache consistent. */
  lemma ConsistentAfterInsert(store: map<string, UrlRecord>, cache: map<string, string>, row: UrlRecord)
    requires Consistent(store, cache)
    requires Utils.AllBase62(row.shortCode) && Utils.IsUrl(row.originalUrl)
    ensures Consistent(store[row.shortCode := row], cache[row.shortCode := row.originalUrl])
  {
  }

  /** Writing a row's own URL back to the cache keeps them consistent. */
  lemma ConsistentAfterBackfill(store: map<string, UrlRecord>, cache: map<string, string>, code: string)
    requires Consistent(store, cache) && code in store
    ensures Consistent(store, cache[code := store[code].originalUrl])
  {
  }

  /** Dropping a cache entry keeps them consistent: absence is always safe. */
  lemma ConsistentAfterEviction(store: map<string, UrlRecord>, cache: map<string, string>, code: string)
    requires Consistent(store, cache)
    ensures Consistent(store, cache - {code})
  {
  }

  /**
    Whatever the cache holds, a code answers with its row's URL: a cached
    value is that URL and is never empty, so a hit and a miss agree.
  */
  lemma CachedValueIsRowUrl(store: map<string, UrlRecord>, cache: map<string, string>, code: string)
    requires Consistent(store, cache) && code in cache
    ensures code in store && cache[code] == store[code].originalUrl && cache[code] != ""
  {
    assert StoredRow(code, store[code]);
    Utils.IsUrlNonEmpty(store[code].originalUrl);
  }

  class Api {
    const redis: Redis.Client
    const registry: Providers.ProviderRegistry
    /** The `urls` table, by short code. */
    var store: map<string, UrlRecord>
    /** How many times a handler has read the table (the store-call counter). */
    ghost var storeLookups: nat

    /** The identifier counter, which lives in the same keyspace as the cache. */
    ghost function Counter(): nat
      reads redis
    {
      redis.CounterValue(Providers.DefaultKey)
    }

    /** A provider can be had: one is memoised, or the configured type is supported. */
    ghost predicate ProviderAvailable()
      reads registry
    {
      registry.memo != null || registry.providerType == Providers.RedisProviderType
    }

    /** The service invariant. */
    ghost predicate Valid()
      reads this, redis, registry
    {
      && redis.Valid()
      && registry.Valid()
      && registry.client == redis
      && redis.counters.Keys <= {Providers.DefaultKey}
      && Consistent(store, redis.strings)
    }

    /** A fresh service: empty table, empty keyspace, no provider chosen yet. */
    constructor (providerType: string)
      ensures Valid() && Fresh(store, Counter()) && fresh(redis) && fresh(registry)
      ensures store == map[] && redis.strings == map[] && redis.counters == map[]
      ensures registry.providerType == providerType && registry.memo == null
      ensures storeLookups == 0
    {
      var client := new Redis.Client();
      redis := client;
      registry := new Providers.ProviderRegistry(providerType, client);
      store := map[];
      storeLookups := 0;
    }

    /** The cache never holds the counter key, so INCR always finds an integer. */
    lemma CounterKeyNotCached()
      requires Valid()
      ensures Providers.DefaultKey !in redis.strings
      ensures Providers.DefaultKey !in store
    {
      Providers.DefaultKeyIsNotACode();
    }

    /** `get_shortener_service`: a new service around the memoised provider. */
    method GetShortenerService() returns (r: Result<Services.ShortenerService, string>)
      requires Valid()
      modifies registry
      ensures Valid()
      ensures r.Success? <==> old(ProviderAvailable())
      ensures r.Success? ==>
        fresh(r.value) && r.value.idProvider == registry.memo &&
        r.value.idProvider.client == redis && r.value.idProvider.key == Providers.DefaultKey
      ensures r.Failure? ==> r.error == "Unsupported provider: " + registry.providerType && registry.memo == null
      ensures old(registry.memo) != null ==> registry.memo == old(registry.memo)
    {
      var provider := registry.GetIdProvider();
      if provider.Failure? {
        return Failure(provider.error);
      }
      var service := new Services.ShortenerService(provider.value);
      return Success(service);
    }

    /**
      `create_short_url`. The service dependency is resolved first; an
      unsupported provider type is an uncaught error. Then the URL is checked
      before any identifier is drawn; a drawn code that is already a key is
      rolled back with 400 and no cache write; otherwise the row is inserted
      and the cache maps the code to the URL.
    */
    method Create(request: ShortenRequest) returns (resp: Response)
      requires Valid()
      modifies this, redis, registry
      ensures Valid()
      ensures storeLookups == old(storeLookups)
      ensures old(registry.memo) != null ==> registry.memo == old(registry.memo)
      ensures old(ProviderAvailable()) ==> registry.memo != null
      ensures !old(ProviderAvailable()) ==> registry.memo == null
      ensures !old(ProviderAvailable()) ==>
        && resp == InternalError("Unsupported provider: " + registry.providerType)
        && store == old(store) && redis.strings == old(redis.strings) && redis.counters == old(redis.counters)
      ensures old(ProviderAvailable()) && !Utils.IsUrl(request.url) ==>
        && resp == BadRequest(InvalidUrlDetail)
        && store == old(store) && redis.strings == old(redis.strings) && redis.counters == old(redis.counters)
      ensures old(ProviderAvailable()) && Utils.IsUrl(request.url) ==>
        && Counter() == old(Counter()) + 1
        && redis.counters == old(redis.counters)[Providers.DefaultKey := Counter()]
      ensures old(ProviderAvailable()) && Utils.IsUrl(request.url) && Utils.Base62(Counter()) in old(store) ==>
        && resp == BadRequest(DuplicateCodeDetail)
        && store == old(store) && redis.strings == old(redis.strings)
      ensures old(ProviderAvailable()) && Utils.IsUrl(request.url) && Utils.Base62(Counter()) !in old(store) ==>
        && resp == Created(UrlRecord(Utils.Base62(Counter()), request.url, request.expirationTime))
        && store == old(store)[Utils.Base62(Counter()) := resp.record]
        && redis.strings == old(redis.strings)[Utils.Base62(Counter()) := request.url]
      ensures old(Fresh(store, Counter())) ==> Fresh(store, Counter()) && resp != BadRequest(DuplicateCodeDetail)
    {
      var service := GetShortenerService();
      if service.Failure? {
        return InternalError(service.error);
      }
      if !Utils.IsUrl(request.url) {
        return BadRequest(InvalidUrlDetail);
      }
      CounterKeyNotCached();
      ghost var before := Counter();
      ghost var wasFresh := Fresh(store, before);
      if wasFresh {
        NextCodeIsFresh(store, before);
      }
      var shortCode := service.value.GenerateCode();
      assert Counter() == before + 1 && shortCode == Utils.Base62(Counter());
      if wasFresh {
        FreshAfterDraw(store, before, Counter());
      }
      if shortCode in store {
        // The table's primary key refuses the row; the transaction is rolled back.
        return BadRequest(DuplicateCodeDetail);
      }
      var row := UrlRecord(shortCode, request.url, request.expirationTime);
      if wasFresh {
        FreshAfterInsert(store, Counter(), row);
      }
      Insert(row);
      return Created(row);
    }

    /** The row is committed to the table, then its URL is cached under its code. */
    method Insert(row: UrlRecord)
      requires Valid()
      requires row.shortCode == Utils.Base62(Counter()) && Utils.IsUrl(row.originalUrl)
      modifies this`store, redis
      ensures Valid()
      ensures store == old(store)[row.shortCode := row]
      ensures redis.strings == old(redis.strings)[row.shortCode := row.originalUrl]
      ensures redis.counters == old(redis.counters)
    {
      Utils.Base62Symbols(Counter());
      Providers.DefaultKeyIsNotACode();
      assert row.shortCode !in redis.counters;
      ConsistentAfterInsert(store, redis.strings, row);
      store := store[row.shortCode := row];
      redis.SetEx(row.shortCode, row.originalUrl);
      assert redis.counters == old(redis.counters);
    }

    /**
      `redirect_to_url`. The keyspace is read first and a non-empty value is
      the answer; otherwise the table is read, a missing row is 404, and a
      found row's URL is written back to the cache and returned. As the
      counter shares the keyspace, its key reads back as the counter's
      decimal text. The row's expiration time is never consulted.
    */
    method Redirect(shortCode: string) returns (resp: Response)
      requires Valid()
      modifies this`storeLookups, redis
      ensures Valid()
      ensures store == old(store) && redis.counters == old(redis.counters)
      ensures shortCode in redis.counters ==> resp == Found(Redis.DecimalString(redis.counters[shortCode]))
      ensures shortCode !in redis.counters ==>
        resp == if shortCode in store then Found(store[shortCode].originalUrl) else NotFound(NotFoundDetail)
      ensures shortCode in old(redis.strings) || shortCode in redis.counters ==>
        storeLookups == old(storeLookups) && redis.strings == old(redis.strings)
      ensures shortCode !in old(redis.strings) && shortCode !in redis.counters ==>
        && storeLookups == old(storeLookups) + 1
        && redis.strings ==
             if shortCode in store then old(redis.strings)[shortCode := store[shortCode].originalUrl]
             else old(redis.strings)
    {
      var cached := redis.Get(shortCode);
      if shortCode in redis.strings {
        CachedValueIsRowUrl(store, redis.strings, shortCode);
      }
      if cached.Some? && cached.value != "" {
        resp := Found(cached.value);
      } else {
        storeLookups := storeLookups + 1;
        if shortCode in store {
          var originalUrl := store[shortCode].originalUrl;
          Backfill(shortCode);
          resp := Found(originalUrl);
        } else {
          resp := NotFound(NotFoundDetail);
        }
      }
    }

    /** A row found on a cache miss has its URL written back to the cache. */
    method Backfill(shortCode: string)
      requires Valid() && shortCode in store && shortCode !in redis.counters
      modifies redis
      ensures Valid()
      ensures redis.strings == old(redis.strings)[shortCode := store[shortCode].originalUrl]
      ensures redis.counters == old(redis.counters)
    {
      ConsistentAfterBackfill(store, redis.strings, shortCode);
      redis.SetEx(shortCode, store[shortCode].originalUrl);
      assert redis.counters == old(redis.counters);
    }

    /** A cache entry's TTL runs out; the table still answers for it. */
    method ExpireCacheEntry(shortCode: string)
      requires Valid()
      modifies redis
      ensures Valid()
      ensures redis.strings == old(redis.strings) - {shortCode} && redis.counters == old(redis.counters)
    {
      ConsistentAfterEviction(store, redis.strings, shortCode);
      redis.Expire(shortCode);
    }

    /** A code just created redirects to the submitted URL, from the warm cache. */
    method CreateThenRedirect(request: ShortenRequest) returns (created: Response, redirected: Response)
      requires Valid()
      modifies this, redis, registry
      ensures Valid()
      ensures old(ProviderAvailable()) && Utils.IsUrl(request.url) && old(Fresh(store, Counter())) ==> created.Created?
      ensures created.Created? ==>
        redirected == Found(request.url) && storeLookups == old(storeLookups)
    {
      created := Create(request);
      var code := if created.Created? then created.record.shortCode else "";
      redirected := Redirect(code);
    }
  }
}
