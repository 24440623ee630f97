/** Identifier issuance: an atomic counter in Redis, and the memoised choice of provider. */
module Providers {
  import opened Wrappers
  import Utils
  import Redis

  /** The Redis key of the global counter. */
  const DefaultKey: string := "shortly:id_counter"

  /** The only provider type the configuration may name. */
  const RedisProviderType: string := "redis"

  /** The counter key holds a ':', so no short code can ever name it. */
  lemma DefaultKeyIsNotACode()
    ensures !Utils.AllBase62(DefaultKey)
  {
    assert DefaultKey[7] == ':';
  }

  /** Issues identifiers by incrementing one Redis key. */
  class RedisIDProvider {
    const client: Redis.Client
    const key: string

    constructor (client: Redis.Client, key: string := DefaultKey)
      ensures this.client == client && this.key == key
    {
      this.client := client;
      this.key := key;
    }

    /** The counter under `key` goes up by one and its new value is returned. */
    method GetNextId() returns (id: nat)
      requires client.Valid() && key !in client.strings
      modifies client
      ensures client.Valid()
      ensures id == old(client.CounterValue(key)) + 1
      ensures client.CounterValue(key) == id
      ensures client.counters == old(client.counters)[key := id]
      ensures client.strings == old(client.strings)
    {
      id := client.Incr(key);
    }
  }

  /** Two draws in a row give increasing identifiers, so none is issued twice. */
  method DrawTwice(provider: RedisIDProvider) returns (first: nat, second: nat)
    requires provider.client.Valid() && provider.key !in provider.client.strings
    modifies provider.client
    ensures first < second
    ensures first == old(provider.client.CounterValue(provider.key)) + 1 && second == first + 1
  {
    first := provider.GetNextId();
    second := provider.GetNextId();
  }

  /**
    The process-wide provider: chosen from the configured type on the first
    successful request and returned again on every later one. A failed
    choice is not remembered, so it fails again on the next request.
  */
  class ProviderRegistry {
    const providerType: string
    const client: Redis.Client
    var memo: RedisIDProvider?

    ghost predicate Valid()
      reads this
    {
      memo != null ==> memo.client == client && memo.key == DefaultKey && providerType == RedisProviderType
    }

    constructor (providerType: string, client: Redis.Client)
      ensures Valid()
      ensures this.providerType == providerType && this.client == client && memo == null
    {
      this.providerType := providerType;
      this.client := client;
      memo := null;
    }

    method GetIdProvider() returns (r: Result<RedisIDProvider, string>)
      requires Valid()
      modifies this
      ensures Valid()
      ensures old(memo) != null ==> r == Success(old(memo)) && memo == old(memo)
      ensures old(memo) == null && providerType == RedisProviderType ==>
        r.Success? && fresh(r.value) && memo == r.value &&
        r.value.client == client && r.value.key == DefaultKey
      ensures old(memo) == null && providerType != RedisProviderType ==>
        r == Failure("Unsupported provider: " + providerType) && memo == null
    {
      if memo != null {
        return Success(memo);
      }
      if providerType == RedisProviderType {
        var provider := new RedisIDProvider(client);
        memo := provider;
        return Success(provider);
      }
      return Failure("Unsupported provider: " + providerType);
    }
  }
}
