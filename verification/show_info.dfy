/**
 * The `ip_info` record `show_info` hands to the page: the resolved client
 * address, the peer address and four proxy headers shown raw or as "N/A".
 */
module ShowInfo {
  import opened Wrappers
  import opened Headers
  import opened ClientIp

  /** Placeholder shown for an absent header. */
  const NotApplicable: string := "N/A"

  /** `headers.get(name, 'N/A')`. */
  function Display(h: HeaderBag, name: string): (r: string)
    ensures name in h ==> r == h[name]
    ensures r != NotApplicable ==> name in h
  {
    if name in h then h[name] else NotApplicable
  }

  datatype IpInfo = IpInfo(
    clientIp: Option<string>,
    remoteAddr: Option<string>,
    xForwardedFor: string,
    xRealIp: string,
    xForwardedProto: string,
    xForwardedHost: string)

  function CollectIpInfo(h: HeaderBag, remoteAddr: Option<string>): (info: IpInfo)
    ensures info.clientIp == Resolve(h, remoteAddr)
    ensures info.remoteAddr == remoteAddr
    ensures XForwardedFor in h ==> info.xForwardedFor == h[XForwardedFor]
    ensures XRealIp in h ==> info.xRealIp == h[XRealIp]
    ensures XForwardedProto in h ==> info.xForwardedProto == h[XForwardedProto]
    ensures XForwardedHost in h ==> info.xForwardedHost == h[XForwardedHost]
    ensures info.xForwardedFor == NotApplicable <==> XForwardedFor !in h || h[XForwardedFor] == NotApplicable
    ensures info.xRealIp == NotApplicable <==> XRealIp !in h || h[XRealIp] == NotApplicable
    ensures info.xForwardedProto == NotApplicable <==> XForwardedProto !in h || h[XForwardedProto] == NotApplicable
    ensures info.xForwardedHost == NotApplicable <==> XForwardedHost !in h || h[XForwardedHost] == NotApplicable
  {
    IpInfo(
      Resolve(h, remoteAddr),
      remoteAddr,
      Display(h, XForwardedFor),
      Display(h, XRealIp),
      Display(h, XForwardedProto),
      Display(h, XForwardedHost))
  }

  /**
   * A field shows "N/A" exactly when its header is absent or literally "N/A"; an
   * empty header shows as "".
   */
  lemma DisplayNotApplicable(h: HeaderBag, name: string)
    ensures Display(h, name) == NotApplicable <==> name !in h || h[name] == NotApplicable
    ensures name in h && h[name] == "" ==> Display(h, name) == ""
  {
  }

  /**
   * Unless a displayed header literally holds "N/A", each displayed proxy field tells
   * whether the header was sent.
   */
  lemma DisplayRevealsPresence(h: HeaderBag, remoteAddr: Option<string>)
    requires XForwardedFor in h ==> h[XForwardedFor] != NotApplicable
    requires XRealIp in h ==> h[XRealIp] != NotApplicable
    requires XForwardedProto in h ==> h[XForwardedProto] != NotApplicable
    requires XForwardedHost in h ==> h[XForwardedHost] != NotApplicable
    ensures var info := CollectIpInfo(h, remoteAddr);
      && (info.xForwardedFor == NotApplicable <==> XForwardedFor !in h)
      && (info.xRealIp == NotApplicable <==> XRealIp !in h)
      && (info.xForwardedProto == NotApplicable <==> XForwardedProto !in h)
      && (info.xForwardedHost == NotApplicable <==> XForwardedHost !in h)
  {
  }

  /**
   * The two readings of an empty header disagree: the page shows the empty
   * `X-Forwarded-For` as "", while the resolver ignores it.
   */
  lemma EmptyForwardedForShownButIgnored(h: HeaderBag, remoteAddr: Option<string>)
    requires XForwardedFor in h && h[XForwardedFor] == ""
    ensures CollectIpInfo(h, remoteAddr).xForwardedFor == ""
    ensures CollectIpInfo(h, remoteAddr).clientIp == Resolve(h - {XForwardedFor}, remoteAddr)
  {
    EmptyHeaderIsAbsent(h, remoteAddr, XForwardedFor);
  }
}
