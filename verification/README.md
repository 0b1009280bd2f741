# whoami client-IP resolution, modelled in Dafny

The whoami service is a one-page diagnostic that echoes where a request came
from. Its only decision logic is `get_client_ip` in `app.py`. It picks the
originating client address from proxy headers in a fixed priority order:

1. the first comma-separated entry of `X-Forwarded-For`, stripped of whitespace;
2. else `X-Real-IP`, verbatim;
3. else `CF-Connecting-IP`, verbatim;
4. else the transport peer address (`remote_addr`).

A header counts only if it is *truthy*: present and non-empty. The page handler
`show_info` also builds an `ip_info` record. In it, each of four proxy headers is
shown raw when present, including when it is empty, and as `"N/A"` when absent.

The model is pure and functional:

- `Wrappers`: `Option`, the model of Python's `str | None`.
- `PyStr`: the Python string operations the resolver uses, with their contracts.
  These are `str.isspace`, `strip()`, `split(sep)`, and `sep.join(...)` as the
  inverse of `split`.
- `Headers`: the header bag, a map from canonical header name to value, plus
  `headers.get` and Python truthiness.
- `ClientIp`: `Resolve`, the resolver as written. It is proved equal
  (`ResolveFollowsPolicy`) to an independent reference policy, "the first truthy header in priority order wins"
  (`FirstTruthy` over the list `ProxyHeaders`, giving an `Origin`).
- `ShowInfo`: the `"N/A"` defaulting and the `ip_info` record.

`remote_addr` is an `Option<string>`. Werkzeug gives `None` when the server
supplied no peer address, and the resolver passes that through. So `Resolve`
returns an `Option<string>`.

## Model

| member | source | states |
|---|---|---|
| PyStr.IsSpaceMatchesTable | app.py:11 | the whitespace `strip()` removes (`PyStr.IsSpace`) is exactly the set of code points Python's `str.isspace` accepts, listed one by one, and a comma is not whitespace |
| PyStr.LStrip | app.py:11 | the result is a suffix of the input, everything removed is whitespace, and the result does not start with whitespace |
| PyStr.RStrip | app.py:11 | the result is a prefix of the input, everything removed is whitespace, and the result does not end with whitespace |
| PyStr.Strip | app.py:11 | `strip()` yields a text with no whitespace at either end that is the input minus a whitespace run on each side |
| PyStr.StripSurrounded | app.py:11 | any trimmed text surrounded by whitespace on both sides strips back to exactly that text |
| PyStr.StripUnique | app.py:11 | `strip()` is fully characterised: with the contract of `Strip`, a text is `Strip(s)` if and only if it is trimmed and is `s` minus surrounding whitespace |
| PyStr.StripIdempotent | app.py:11 | stripping twice equals stripping once |
| PyStr.IndexOf | app.py:11 | the position of the first separator, or the length when there is none; nothing before it is the separator |
| PyStr.Split | app.py:11 | `split(',')` yields at least one piece, no piece contains the separator, and the first piece is the text before the first separator |
| PyStr.JoinSplit | app.py:11 | joining the pieces of a split with the separator rebuilds the original text |
| PyStr.SplitJoin | app.py:10-11 | splitting a separator-joined list of separator-free entries gives back the entries |
| ClientIp.ForwardedClient | app.py:10-11 | the client entry of an `X-Forwarded-For` value contains no comma, has no surrounding whitespace, and is the text before the first comma minus surrounding whitespace |
| ClientIp.Resolve | app.py:6-16 | no IP validation: the result is the peer address, the client entry of `X-Forwarded-For`, or the verbatim `X-Real-IP` or `CF-Connecting-IP` value |
| ClientIp.FirstTruthy | app.py:8-15 | the reference policy: the first header in priority order that is present and non-empty, with every earlier one absent or empty |
| ClientIp.ResolveFollowsPolicy | app.py:6-16 | on every input the resolver returns the address of the first truthy header in priority order, else the peer address |
| ClientIp.OriginCases | app.py:9-16 | the winning origin, header by header, as an if-and-only-if on which headers are truthy; truthy (`Headers.Truthy`) is Python truthiness of `headers.get(name)` (`Headers.Get`): present and non-empty |
| ClientIp.ForwardedForCase | app.py:9-11 | a non-empty `X-Forwarded-For` decides the result: its client entry, comma-free and trimmed, even when that strips to "", and never a later header |
| ClientIp.RealIpCase | app.py:12-13 | when `X-Forwarded-For` is absent or empty and `X-Real-IP` is non-empty, `X-Real-IP` is returned untrimmed |
| ClientIp.CfConnectingCase | app.py:14-15 | when both earlier headers are absent or empty and `CF-Connecting-IP` is non-empty, it is returned untrimmed |
| ClientIp.PeerCase | app.py:16 | when all three proxy headers are absent or empty, the peer address is returned |
| ClientIp.ForwardedListFirst | app.py:10-11 | for an `X-Forwarded-For` listing comma-separated entries, the result is the first entry, stripped |
| ClientIp.ForwardedClientIdempotent | app.py:11 | extracting the client entry from an already extracted entry changes nothing |
| ClientIp.ResolveIdempotent | app.py:9-11 | a non-empty resolved `X-Forwarded-For` result, fed back as the `X-Forwarded-For` value, resolves to itself |
| ClientIp.BlankFirstEntryResolvesEmpty | app.py:9-11 | a non-empty `X-Forwarded-For` whose first comma-separated entry is all whitespace (with or without a comma after it, e.g. `"  "` or `" ,1.2.3.4"`) resolves to "" whatever the other headers hold |
| ClientIp.BlankBeforeComma | app.py:9-11 | an `X-Forwarded-For` made of a whitespace-only entry, a comma and anything after resolves to "" |
| ClientIp.EmptyResultNotIdempotent | app.py:9-13 | a concrete input where the resolver yields "" and that "" fed back as `X-Forwarded-For` falls through to `X-Real-IP` |
| ClientIp.EmptyForwardedForFallsThrough | app.py:9-13 | an empty `X-Forwarded-For` does not stop the search: a non-empty `X-Real-IP` is then returned |
| ClientIp.EmptyHeaderIsAbsent | app.py:9-15 | an empty header resolves exactly as if it were absent, because the tests are on truthiness (`Headers.Truthy`), not presence |
| ClientIp.OnlyProxyHeadersMatter | app.py:9-16 | two header bags that agree on the three proxy headers resolve to the same address |
| ShowInfo.Display | app.py:28-31 | a displayed field equals the header value whenever the header is present, and anything other than "N/A" proves the header was present |
| ShowInfo.CollectIpInfo | app.py:25-32 | `ip_info` carries the resolved address and the peer address; each of the four proxy headers is shown raw when present, and is "N/A" exactly when the header is absent or literally "N/A" |
| ShowInfo.DisplayNotApplicable | app.py:28-31 | a field shows "N/A" exactly when the header is absent or literally "N/A"; an empty header shows as "" |
| ShowInfo.DisplayRevealsPresence | app.py:28-31 | when none of the four displayed headers literally holds "N/A", each proxy field is "N/A" if and only if its header is absent |
| ShowInfo.EmptyForwardedForShownButIgnored | app.py:9-31 | an empty `X-Forwarded-For` is shown as "" on the page but ignored by the resolver |

## Left out

- Flask plumbing is not modelled because it is framework I/O with no logic of its own. This covers the app object, the route decorators, `render_template` and `app.run` (app.py:1-3, 19, 47-52, 61-62).
- `request_info` is not modelled because these are reads of a Werkzeug object whose behaviour is not part of this model. It holds method, scheme, host, path, url and `User-Agent` (app.py:35-42). Its `User-Agent` field uses the same `"N/A"` default as `Display`.
- The copy of all headers, `dict(request.headers)` (app.py:45), is left out because it is a plain copy of the library's header object.
- `/health` (app.py:55-58) is left out because it returns a constant.
- Geolocation lookup is left out because the source has no code for it.
- Header lookup is modelled as a map keyed by canonical names. Werkzeug's case-insensitive lookup, its WSGI environ key mangling and the server's joining of repeated headers are not modelled.
- `PyStr.IsSpace` follows the whitespace table of Python's `str.isspace` for current Unicode versions. It does not track how that table changed across Unicode database versions.

## Notes on behaviour

- The resolver tests truthiness, so an empty header is treated as absent (`ClientIp.EmptyHeaderIsAbsent`). The page uses `.get(name, 'N/A')`, so the same empty header is shown as `""` (`ShowInfo.EmptyForwardedForShownButIgnored`).
- A header whose value is literally `N/A` cannot be told apart on the page from an absent one. So "N/A only when absent" holds only when none of the four displayed headers has that value (`ShowInfo.DisplayNotApplicable`, `ShowInfo.DisplayRevealsPresence`).
- A non-empty `X-Forwarded-For` whose first entry is blank, such as `" ,1.2.3.4"`, resolves to `""`. The resolver does not fall through to the later headers in that case. This is why the resolver is idempotent only on non-empty results (`ClientIp.ResolveIdempotent`, `ClientIp.EmptyResultNotIdempotent`).
