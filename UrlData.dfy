/** The record stored for every short code in the object store. */
module UrlData {

  /** Java's 64-bit signed `long`. */
  newtype Long = x: int | -0x8000_0000_0000_0000 <= x < 0x8000_0000_0000_0000

  /**
   * The deserialized content of `<shortCode>.json`: the URL to redirect to and
   * the Unix time, in seconds, after which the link no longer redirects.
   */
  datatype OriginalUrlData = OriginalUrlData(originalUrl: string, expirationTime: Long)
}
