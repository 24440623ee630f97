/**
  The one Redis keyspace the service shares between the identifier counter
  and the URL cache. Only the four commands the service issues are modelled:
  GET, SETEX, INCR and the expiry of a SETEX key when its TTL runs out.
  The TTL itself, connections and their failures are left out.
*/
module Redis {
  import opened Wrappers

  /** The decimal text of `n`, as Redis returns an integer value to GET. */
  function DecimalString(n: nat): (s: string)
    ensures |s| >= 1
    ensures forall i :: 0 <= i < |s| ==> '0' <= s[i] <= '9'
    ensures n > 0 ==> s[0] != '0'
  {
    if n < 10 then [('0' as int + n) as char]
    else DecimalString(n / 10) + [('0' as int + n % 10) as char]
  }

  class Client {
    /** Keys holding text written by SETEX: the URL cache. */
    var strings: map<string, string>
    /** Keys holding integers written by INCR: the identifier counters. */
    var counters: map<string, nat>

    /** A key holds one value: text or an integer, never both. */
    ghost predicate Valid()
      reads this
    {
      strings.Keys !! counters.Keys
    }

    constructor ()
      ensures Valid() && strings == map[] && counters == map[]
    {
      strings, counters := map[], map[];
    }

    /** The integer under `key`; a missing key counts as 0, as INCR treats it. */
    function CounterValue(key: string): nat
      reads this
    {
      if key in counters then counters[key] else 0
    }

    /** GET: the text under `key`; an integer reads back as its decimal text. */
    method Get(key: string) returns (r: Option<string>)
      requires Valid()
      ensures key in counters ==> r == Some(DecimalString(counters[key]))
      ensures key !in counters && key in strings ==> r == Some(strings[key])
      ensures key !in counters && key !in strings ==> r == None
    {
      if key in counters {
        r := Some(DecimalString(counters[key]));
      } else if key in strings {
        r := Some(strings[key]);
      } else {
        r := None;
      }
    }

    /** SETEX: store text under `key`, replacing whatever the key held. */
    method SetEx(key: string, value: string)
      requires Valid()
      modifies this
      ensures Valid()
      ensures strings == old(strings)[key := value]
      ensures counters == old(counters) - {key}
    {
      strings := strings[key := value];
      counters := counters - {key};
    }

    /**
      INCR: add one to the integer under `key` and return the new value.
      Redis refuses INCR on a key holding non-numeric text; every caller here
      passes the counter key, which the cache never writes.
    */
    method Incr(key: string) returns (v: nat)
      requires Valid() && key !in strings
      modifies this
      ensures Valid()
      ensures v == old(CounterValue(key)) + 1
      ensures counters == old(counters)[key := v]
      ensures strings == old(strings)
    {
      v := CounterValue(key) + 1;
      counters := counters[key := v];
    }

    /** The TTL of a SETEX key runs out: the key disappears. Counters have no TTL. */
    method Expire(key: string)
      requires Valid()
      modifies this
      ensures Valid()
      ensures strings == old(strings) - {key}
      ensures counters == old(counters)
    {
      strings := strings - {key};
    }
  }
}
