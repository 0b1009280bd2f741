/**
 * The request's header bag as the handlers see it: a map from canonical header
 * name to value, read through Werkzeug's `headers.get(name)`.
 */
module Headers {
  import opened Wrappers

  type HeaderBag = map<string, string>

  const XForwardedFor: string := "X-Forwarded-For"
  const XRealIp: string := "X-Real-IP"
  const CfConnectingIp: string := "CF-Connecting-IP"
  const XForwardedProto: string := "X-Forwarded-Proto"
  const XForwardedHost: string := "X-Forwarded-Host"

  /** `headers.get(name)`: the value, or `None` when the header is absent. */
  function Get(h: HeaderBag, name: string): Option<string> {
    if name in h then Some(h[name]) else None
  }

  /** Python truthiness of a `str | None`: present and non-empty. */
  predicate Truthy(v: Option<string>) {
    v.Some? && v.value != ""
  }
}
