/** Parsed URLs. Parsing and reference resolution (the URL Standard) are not modelled: a `Url` is what
    the platform's `URL` object reports for an already parsed address. */
module Urls {

  /** The parts of a URL the proxy reads: `protocol` keeps its colon (`https:`), `host` includes a
      non-default port, `search` is empty or starts with `?`, `hash` is empty or starts with `#`. */
  datatype Url = Url(protocol: string, host: string, pathname: string, search: string, hash: string)

  /** `url.origin` of an http or https URL. */
  function Origin(u: Url): string {
    u.protocol + "//" + u.host
  }

  /** `url.toString()` of an http or https URL without credentials. */
  function Href(u: Url): string {
    u.protocol + "//" + u.host + u.pathname + u.search + u.hash
  }

  /** The `url.search = search` setter, for a value that is already a serialised query. */
  function WithSearch(u: Url, search: string): Url {
    u.(search := search)
  }
}
