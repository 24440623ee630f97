/** The durable record of one short code. */
module Models {
  import opened Wrappers

  /**
    A row of the `urls` table, keyed by `shortCode`. The timestamps
    `created_at` and `updated_at` are assigned by the database clock and are
    not modelled; `expirationTime` is stored and never consulted.
  */
  datatype UrlRecord = UrlRecord(shortCode: string, originalUrl: string, expirationTime: Option<int>)
}
