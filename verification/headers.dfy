/** `get_headers_for_url`: request headers chosen by the exact hostname of
    the image URL. */
module Headers {
  import opened Results
  import opened Urls

  type HeaderList = seq<(string, string)>

  /** The per-host overrides; the keys are compared with the whole hostname. */
  const DomainHeaders: map<string, HeaderList> :=
    map["umgur.com" := [("user-agent", "curl/8.1.1"), ("accept", "*/*")]]

  const DefaultHeaders: HeaderList := [("User-Agent", "Mozilla/5.0"), ("accept-language", "en-US,en")]

  /** The override for the URL's hostname if there is one, the default headers
      otherwise, and `None` when `urlparse` raises on an authority with an
      unbalanced IPv6 bracket. */
  function HeadersFor(url: string): (r: Option<HeaderList>)
    ensures r.None? <==> RejectedByUrlparse(url)
    ensures r.Some? ==>
      var host := Hostname(Parse(url));
      && (host.Some? && host.value in DomainHeaders ==> r.value == DomainHeaders[host.value])
      && (!(host.Some? && host.value in DomainHeaders) ==> r.value == DefaultHeaders)
  {
    if RejectedByUrlparse(url) then None
    else
      var host := Hostname(Parse(url));
      if host.Some? && host.value in DomainHeaders then Some(DomainHeaders[host.value])
      else Some(DefaultHeaders)
  }

  /** The headers depend on nothing but the hostname, once the authority
      parses. */
  lemma HeadersByHost(a: string, b: string)
    requires !RejectedByUrlparse(a) && !RejectedByUrlparse(b)
    requires Hostname(Parse(a)) == Hostname(Parse(b))
    ensures HeadersFor(a).Some? && HeadersFor(a) == HeadersFor(b)
  {
  }
}
