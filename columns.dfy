/** The dashboard table's `TruncatedUrl` cell: a long target URL is shown as
    its first 47 characters followed by an ellipsis. */
module Columns {

  const MaxShown: nat := 50
  const KeptPrefix: nat := 47
  const Ellipsis: string := "..."

  /** `url.length > 50 ? url.substring(0, 47) + "..." : url`. */
  function TruncatedUrl(url: string): (shown: string)
    ensures |shown| <= MaxShown
  {
    if |url| > MaxShown then url[..KeptPrefix] + Ellipsis else url
  }

  /** A URL of at most 50 characters is shown unchanged; a longer one becomes
      its first 47 characters followed by "...", exactly 50 characters. */
  lemma TruncatedUrlCases(url: string)
    ensures |url| <= MaxShown ==> TruncatedUrl(url) == url
    ensures |url| > MaxShown ==>
      && |TruncatedUrl(url)| == MaxShown
      && TruncatedUrl(url)[..KeptPrefix] == url[..KeptPrefix]
      && TruncatedUrl(url)[KeptPrefix..] == Ellipsis
  {
  }

  /** The shown text is always a prefix of the URL followed by either nothing
      or the ellipsis, and truncating it again changes nothing. */
  lemma TruncatedUrlIdempotent(url: string)
    ensures TruncatedUrl(TruncatedUrl(url)) == TruncatedUrl(url)
    ensures TruncatedUrl(url) == url || TruncatedUrl(url) == url[..KeptPrefix] + Ellipsis
  {
  }
}
