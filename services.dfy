/** Code generation: one identifier drawn, then encoded in base 62. */
module Services {
  import Utils
  import Providers

  class ShortenerService {
    /** Set once by the constructor and never reassigned. */
    const idProvider: Providers.RedisIDProvider

    constructor (idProvider: Providers.RedisIDProvider)
      ensures this.idProvider == idProvider
    {
      this.idProvider := idProvider;
    }

    /**
      Draws exactly one identifier and returns its base-62 code: a non-empty
      string of alphabet symbols that decodes back to the identifier.
    */
    method GenerateCode() returns (code: string)
      requires idProvider.client.Valid() && idProvider.key !in idProvider.client.strings
      modifies idProvider.client
      ensures idProvider.client.Valid()
      ensures idProvider.client.counters ==
        old(idProvider.client.counters)[idProvider.key := old(idProvider.client.CounterValue(idProvider.key)) + 1]
      ensures idProvider.client.strings == old(idProvider.client.strings)
      ensures code == Utils.Base62(idProvider.client.CounterValue(idProvider.key))
      ensures Utils.IsCanonicalBase62(code)
      ensures Utils.DecodeBase62(code) == idProvider.client.CounterValue(idProvider.key)
    {
      var uniqueId := idProvider.GetNextId();
      code := Utils.EncodeBase62(uniqueId);
      Utils.Base62IsCanonical(uniqueId);
      Utils.Base62RoundTrip(uniqueId);
    }
  }

  /** Two successive codes from one service differ. */
  method GenerateTwice(service: ShortenerService) returns (first: string, second: string)
    requires service.idProvider.client.Valid()
    requires service.idProvider.key !in service.idProvider.client.strings
    modifies service.idProvider.client
    ensures first != second
  {
    first := service.GenerateCode();
    second := service.GenerateCode();
  }
}
