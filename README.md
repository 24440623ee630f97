# Shortly URL shortener: a verified model of its core

Shortly turns a long URL into a short code and redirects a short code back to
its URL. It has three layers, and this project models each one in Dafny.

- **Pure helpers** (`utils.dfy`, module `Utils`):
  - `is_url` is a syntactic URL check built from three regular expressions.
    Here it is the string predicate `IsUrl`. Beside each regular expression
    stands a ghost predicate saying what that expression matches, with
    Python's `re.match` anchoring and its `$` that also matches before a
    final newline. A lemma proves that the two agree.
  - `encode_base62` is the method `EncodeBase62`, proved equal to the
    specification function `Base62`. Lemmas about `Base62` prove that zero
    encodes as "0", that only alphabet symbols are used, the round trip
    through `DecodeBase62` in both directions, injectivity, a canonical
    form, and the code length.
- **Identifier issuance** (`redis.dfy`, `providers.dfy`, `services.dfy`):
  - The Redis keyspace is the class `Redis.Client`. It holds text keys
    written by SETEX (the URL cache) and integer keys written by INCR (the
    counter).
  - `RedisIDProvider.get_next_id` increments the counter under its key.
  - `get_id_provider` is a memoised choice of provider.
  - `ShortenerService.generate_code` draws one identifier and encodes it.
- **Request handlers** (`routes.dfy`):
  - `create_short_url` and `redirect_to_url` are the methods of the class
    `Api`. It holds the `urls` table as a map, the shared Redis keyspace and
    the provider registry.
  - The invariant `Valid` says that every cached URL equals the
    `original_url` of the row with the same code. Both handlers preserve
    it, so a redirect answers with the same URL whether the cache hits or
    misses.
  - A second property, `Fresh`, says that every row's code encodes an
    identifier already issued. It holds while only this service writes the
    table and the counter is never reset. It is not part of `Valid`, and
    `Create` preserves it. While it holds, a freshly drawn code is never
    already a key of the table.

A few behaviours of the code are modelled as written:

- `get_shortener_service` is a FastAPI dependency, so it runs before the
  handler body. An unsupported provider type therefore gives an uncaught
  error (`InternalError`), even for an invalid URL.
- The counter and the cache share one Redis keyspace. GET on the counter
  key reads back the counter's decimal text, so a redirect of the code
  "shortly:id_counter" answers with that number. No generated code can
  collide with the counter key, because the key contains ':'
  (`Providers.DefaultKeyIsNotACode`).
- `if cached_url:` treats an empty cached string as a miss. The invariant
  shows that a cached URL is never empty.
- The "Short code already exists" branch is modelled for any consistent
  table, such as one written before a counter reset
  (`Routes.StaleCounterMeetsDuplicate`). That branch answers 400 and leaves
  the table and the cache unchanged, but the counter has still advanced. On
  a fresh table the branch never fires.
- A row's `expiration_time` is stored but never consulted on redirect.

## Model

| member | source | states |
|---|---|---|
| Utils.WordRun | app/core/utils.py:3 | the longest run of `\w` characters at the start: all of it is word characters and the next character is not |
| Utils.StripFinalNewline | app/core/utils.py:3 | the body `$` leaves is the rest itself or the rest less one final '\n' |
| Utils.ProtocolGroup | app/core/utils.py:15-17 | group 1 is never empty and has no white space, so the emptiness test never fires |
| Utils.SchemeAndSlashesIsUnique | app/core/utils.py:3 | any prefix `(?:\w+:)?//` of the input is exactly the one the explicit split skips: the split is unique |
| Utils.AfterSlashesIsScheme | app/core/utils.py:3 | the text the explicit split skips is a scheme followed by "//" |
| Utils.StripFinalNewlineMatch | app/core/utils.py:3 | the stripped body sits right after the prefix and ends where `$` matches |
| Utils.ProtocolGroupIsSound | app/core/utils.py:3 | what the explicit split finds is group 1 of a match of the protocol expression |
| Utils.ProtocolGroupIsComplete | app/core/utils.py:3 | whenever the protocol expression matches, the explicit split finds the same group 1 |
| Utils.ProtocolGroupIsRegexGroup | app/core/utils.py:11-15 | the explicit split yields `g` if and only if the protocol expression matches with group 1 equal to `g` |
| Utils.PortRun | app/core/utils.py:4 | the longest run from the character class `[:?\d]`: all of it is in the class and the next character is not |
| Utils.LocalhostRegexIsPrefix | app/core/utils.py:4 | on text without white space, the localhost expression matches if and only if the text starts with "localhost" |
| Utils.FirstDot | app/core/utils.py:5 | the index of the first '.', with no '.' before it, or the length when there is none |
| Utils.FirstDotAt | app/core/utils.py:5 | a '.' with none before it is the first one |
| Utils.DomainRegexIsFirstDot | app/core/utils.py:5 | on text without white space, the domain expression matches if and only if the first '.' is at index 1 or later with two or more characters after it |
| Utils.IsUrlIsRegexCheck | app/core/utils.py:7-23 | `IsUrl` holds if and only if the protocol expression matches and its group 1 matches the localhost or the domain expression |
| Utils.IsUrlNonEmpty | app/core/utils.py:11-17 | an accepted URL has at least three characters |
| Utils.IsUrlOfParts | app/core/utils.py:15-23 | once the prefix and group 1 are known, acceptance is decided by the localhost and domain tests on group 1 alone |
| Utils.AcceptsSchemeHostTld | app/core/utils.py:19-21 | every `scheme://host.tld`, with or without one final '\n', is accepted when the host has no dot and the part after the dot has two or more characters |
| Utils.AcceptsSchemeLocalhost | app/core/utils.py:19-21 | every `scheme://localhost` followed by text without white space is accepted |
| Utils.AcceptsHttpsDomain | app/core/utils.py:19-21 | "https://example.com" is accepted |
| Utils.AcceptsLocalhostWithPort | app/core/utils.py:19-21 | "ftp://localhost:8080/x" is accepted |
| Utils.AcceptsWithoutScheme | app/core/utils.py:3 | "//x.com" is accepted: the scheme is optional |
| Utils.AcceptsLocalhostPrefix | app/core/utils.py:4 | "http://localhostevil" is accepted: any host that starts with "localhost" passes |
| Utils.AcceptsTrailingNewline | app/core/utils.py:3 | "http://example.com\n" is accepted, because `$` matches before a final newline |
| Utils.RejectsBareHost | app/core/utils.py:19-23 | "http://a" is rejected: neither localhost nor a dot |
| Utils.RejectsLeadingDot | app/core/utils.py:5 | "http://.com" is rejected: the dot may not come first |
| Utils.RejectsShortTail | app/core/utils.py:5 | "http://a.b" is rejected: fewer than two characters follow the dot |
| Utils.RejectsInnerSpace | app/core/utils.py:3 | "http://a b.com" is rejected: white space after "//" |
| Utils.RejectsPlainWords | app/core/utils.py:11-13 | "not a url" is rejected: there is no "//" |
| Utils.RejectsNoDomain | app/core/utils.py:19-23 | "//nodomainhere" is rejected |
| Utils.DigitValue | app/core/utils.py:25 | every alphabet character has a digit value below 62 |
| Utils.DigitChar | app/core/utils.py:25 | the symbol of digit value `i` is an alphabet character whose value is `i` |
| Utils.DigitCharOfValue | app/core/utils.py:25 | the symbol of a character's digit value is that character |
| Utils.AlphabetDecimal | app/core/utils.py:25 | the alphabet has 62 symbols, and the first ten are the decimal digits in order |
| Utils.AlphabetLower | app/core/utils.py:25 | symbols 10 to 35 are 'a' to 'z' in order |
| Utils.AlphabetUpper | app/core/utils.py:25 | symbols 36 to 61 are 'A' to 'Z' in order |
| Utils.AlphabetDigits | app/core/utils.py:25 | the alphabet has 62 symbols, and each symbol's index is its digit value |
| Utils.AlphabetAt | app/core/utils.py:25 | the symbol at index `i` is the symbol of digit value `i` |
| Utils.AlphabetDistinct | app/core/utils.py:25 | the 62 symbols are pairwise distinct |
| Utils.AlphabetMembers | app/core/utils.py:25 | a character is in the alphabet if and only if it is an ASCII letter or digit |
| Utils.Reversed | app/core/utils.py:34 | `reversed` keeps the length and puts element `i` at position `len - 1 - i` |
| Utils.ReversedSnoc | app/core/utils.py:33-34 | reversing after an append puts the new symbol first |
| Utils.EncodeBase62 | app/core/utils.py:27-34 | the loop's result is the base-62 encoding `Base62(num)` of every non-negative input |
| Utils.NegativeQuotientsStayNegative | app/core/utils.py:31-32 | for a negative input, every later value of `num` under floor division stays negative, so the loop never ends |
| Utils.Base62OfZero | app/core/utils.py:28-29 | zero encodes as "0", the alphabet's first symbol, and not as the empty string |
| Utils.Base62Symbols | app/core/utils.py:31-34 | every code is non-empty and uses alphabet symbols only |
| Utils.Base62RoundTrip | app/core/utils.py:31-34 | decoding a code with base-62 place values gives back the number |
| Utils.Base62Injective | app/core/utils.py:27-34 | distinct numbers get distinct codes |
| Utils.Base62IsCanonical | app/core/utils.py:28-34 | every code is canonical: a positive number's code never starts with '0' |
| Utils.DecodeZero | app/core/utils.py:25 | a string of symbols has value zero if and only if every symbol is '0' |
| Utils.DecodePositive | app/core/utils.py:25 | a string of symbols that does not start with '0' has a positive value |
| Utils.Base62Snoc | app/core/utils.py:32-33 | appending a symbol to a positive number's code gives the code of 62 times the number plus that symbol's digit value |
| Utils.Base62OfDigit | app/core/utils.py:28-33 | a single symbol decodes to its digit value and is that value's code |
| Utils.DecodeSnoc | app/core/utils.py:31-34 | appending a symbol multiplies the value by 62 and adds the symbol's digit value |
| Utils.Base62OfDecodeSnoc | app/core/utils.py:31-34 | appending a symbol to a string of positive value appends the symbol to the code of that value |
| Utils.Base62OfDecode | app/core/utils.py:27-34 | the canonical strings are exactly the codes: encoding the decoded value gives the string back |
| Utils.Base62Length | app/core/utils.py:31-34 | a positive number's code has as many symbols as the number has base-62 digits |
| Redis.DecimalString | app/api/routes/main.py:58 | an integer reads back as its decimal text: non-empty digits with no leading zero |
| Redis.Client.constructor | app/core/redis.py:4-9 | the shared client starts with an empty keyspace |
| Redis.Client.Get | app/api/routes/main.py:58 | GET returns a counter's decimal text, a cached string, or nothing for a missing key |
| Redis.Client.SetEx | app/api/routes/main.py:42 | SETEX writes text under the key, replacing any integer there, and changes no other key |
| Redis.Client.Incr | app/core/providers.py:23 | INCR adds one to the integer under the key (a missing key counts as 0), returns it and changes no other key |
| Redis.Client.Expire | app/api/routes/main.py:42 | when a SETEX key's TTL runs out, that key disappears and counters stay |
| Providers.DefaultKeyIsNotACode | app/core/providers.py:14 | the default counter key "shortly:id_counter" is not a string of base-62 symbols |
| Providers.RedisIDProvider.constructor | app/core/providers.py:14-20 | the provider keeps the shared client and the key it is given |
| Providers.RedisIDProvider.GetNextId | app/core/providers.py:22-23 | the counter under the provider's key goes up by one, its new value is returned, and nothing else changes |
| Providers.DrawTwice | app/core/providers.py:22-23 | two successive identifiers strictly increase by one, so none is issued twice |
| Providers.ProviderRegistry.constructor | app/core/providers.py:25-26 | before the first request no provider is memoised |
| Providers.ProviderRegistry.GetIdProvider | app/core/providers.py:25-31 | the memoised provider comes back on every call after the first; otherwise "redis" yields a new provider on the default key, and any other type fails with "Unsupported provider: " plus the type, with nothing memoised |
| Services.ShortenerService.constructor | app/core/services.py:9-10 | the service keeps the provider it is given, which is never reassigned |
| Services.ShortenerService.GenerateCode | app/core/services.py:12-14 | exactly one identifier is drawn, and the code is its base-62 encoding: canonical, and decoding back to that identifier |
| Services.GenerateTwice | app/core/services.py:12-14 | two successive codes from one service differ |
| Routes.NextCodeIsFresh | app/api/routes/main.py:34-40 | while every table code encodes an issued identifier, the code of the next identifier is not a key of the table |
| Routes.FreshAfterDraw | app/api/routes/main.py:34 | drawing identifiers keeps every table code at or below the counter |
| Routes.FreshAfterInsert | app/api/routes/main.py:38-40 | inserting the row for the latest identifier keeps every table code at or below the counter |
| Routes.StaleCounterMeetsDuplicate | app/api/routes/main.py:44-46 | a table consistent with its cache can already hold the first code drawn after a counter reset, so the duplicate branch is reachable |
| Routes.ConsistentAfterInsert | app/api/routes/main.py:38-42 | inserting a well-formed row and caching its URL keeps table and cache consistent |
| Routes.ConsistentAfterBackfill | app/api/routes/main.py:66-67 | writing a row's own URL back to the cache keeps them consistent |
| Routes.ConsistentAfterEviction | app/api/routes/main.py:42 | dropping a cache entry keeps them consistent |
| Routes.CachedValueIsRowUrl | app/api/routes/main.py:58-60 | a cached value is the URL of the row with the same code and is never empty, so a hit and a miss answer alike |
| Routes.Api.constructor | app/main.py:6 | the service starts with an empty table, an empty keyspace and no provider chosen; it satisfies its invariant, and its table is fresh |
| Routes.Api.CounterKeyNotCached | app/core/providers.py:14 | the counter key is never a cache key or a table key, so INCR always finds an integer |
| Routes.Api.GetShortenerService | app/api/routes/main.py:17-18 | a service is had exactly when a provider is memoised or the type is "redis"; it wraps the memoised provider on the shared client, and a provider memoised before the call stays memoised |
| Routes.Api.Create | app/api/routes/main.py:27-46 | an unsupported provider gives an uncaught error and an invalid URL gives 400, both before any identifier is drawn and with nothing changed; a valid URL advances the counter by one, then either inserts exactly one row under the new code with the request's URL and expiration time and caches code to URL, or, when the code is already a key, gives 400 with table and cache unchanged; on a fresh table the duplicate never occurs and freshness is kept; the memoised provider is kept, set on success and left unset on failure; the invariant is kept |
| Routes.Api.Insert | app/api/routes/main.py:38-43 | the committed row is added under its code, the cache maps the code to its URL, and counters are unchanged |
| Routes.Api.Backfill | app/api/routes/main.py:66-67 | the found row's URL is cached under its code, and nothing else in the keyspace changes |
| Routes.Api.Redirect | app/api/routes/main.py:57-68 | a non-empty cached value is returned without reading the table; on a miss the table is read once, a missing row gives 404 with nothing changed, and a found row's URL is returned and written back to the cache; the table never changes and the invariant is kept |
| Routes.Api.ExpireCacheEntry | app/api/routes/main.py:42 | a cache entry expiring keeps the invariant and changes only that key |
| Routes.Api.CreateThenRedirect | app/api/routes/main.py:27-68 | with an available provider and a fresh table, a valid URL is created, and redirecting the new code returns the submitted URL from the cache, without reading the table |

## Left out

- `IDProvider`: the abstract base class is not modelled, because its only implementation is `RedisIDProvider`, which the model uses directly.
- The generic `except Exception` branch of `create_short_url`, which answers 500, is not modelled. Neither are Redis or database connection failures: they come from I/O outside this model.
- Cache TTLs and clocks are not modelled. A cache entry expiring is the nondeterministic `Routes.Api.ExpireCacheEntry`.
- `created_at` and `updated_at` are not part of `Models.UrlRecord`: they are clock values set by the database.
- `\w`, `\d` and `\s` are modelled on ASCII only. Non-ASCII letters, digits and white space, which Python's Unicode classes accept, are not recognised.
- The `isinstance(url, str)` guard of `is_url` is not modelled: the argument is always a string in the model.
- The `short_url` field of the response schema is not modelled. It is presentation, the base URL joined to the code.
- Request concurrency and the cross-process atomicity of INCR are not modelled. Requests run one after another.
- Redis.Client.Incr: it does not model the 64-bit overflow error of Redis INCR. It also requires that no text sits under the key, where Redis would answer with an error; the model's invariant shows that the counter key is never cached.
- Utils.EncodeBase62: it requires a non-negative input. On a negative input the source loops forever, as `Utils.NegativeQuotientsStayNegative` shows.
- Configuration loading, Redis client construction, application start-up and schema migrations are not part of this model.
