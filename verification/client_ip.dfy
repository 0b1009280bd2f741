/**
 * `get_client_ip`: the originating client address, taken from the first proxy
 * header that is present and non-empty, else the transport peer address.
 */
module ClientIp {
  import opened Wrappers
  import opened PyStr
  import opened Headers

  /** The proxy headers in the order the resolver consults them. */
  const ProxyHeaders: seq<string> := [XForwardedFor, XRealIp, CfConnectingIp]

  /** Where a resolved address came from. */
  datatype Origin = ForwardedFor | RealIp | CfConnecting | Peer

  /**
   * The client entry of an `X-Forwarded-For` value: the text before the first
   * comma with surrounding whitespace removed (`v.split(',')[0].strip()`).
   */
  function ForwardedClient(v: string): (r: string)
    ensures Trimmed(r) && ',' !in r
    ensures IsCoreOf(v[..IndexOf(v, ',')], r)
  {
    Strip(Split(v, ',')[0])
  }

  /** The resolver as the code is written: an `if` chain on truthiness. */
  function Resolve(h: HeaderBag, remoteAddr: Option<string>): (r: Option<string>)
    ensures r == remoteAddr
         || (XForwardedFor in h && r == Some(ForwardedClient(h[XForwardedFor])))
         || (XRealIp in h && r == Some(h[XRealIp]))
         || (CfConnectingIp in h && r == Some(h[CfConnectingIp]))
  {
    if Truthy(Get(h, XForwardedFor)) then Some(ForwardedClient(h[XForwardedFor]))
    else if Truthy(Get(h, XRealIp)) then Some(h[XRealIp])
    else if Truthy(Get(h, CfConnectingIp)) then Some(h[CfConnectingIp])
    else remoteAddr
  }

  // ---------------------------------------------------------------------------
  // Reference policy: "first truthy header in priority order wins".

  /** Position of the first name in `names` whose header is truthy, or `|names|`. */
  function FirstTruthy(h: HeaderBag, names: seq<string>): (k: nat)
    ensures k <= |names|
    ensures forall j :: 0 <= j < k ==> !Truthy(Get(h, names[j]))
    ensures k < |names| ==> Truthy(Get(h, names[k]))
    decreases |names|
  {
    if |names| == 0 then 0
    else if Truthy(Get(h, names[0])) then 0
    else 1 + FirstTruthy(h, names[1..])
  }

  /** Which input the policy takes the address from. */
  function OriginOf(h: HeaderBag): Origin {
    var k := FirstTruthy(h, ProxyHeaders);
    if k == 0 then ForwardedFor
    else if k == 1 then RealIp
    else if k == 2 then CfConnecting
    else Peer
  }

  /** The address the policy yields for a given origin. */
  function AddressFrom(o: Origin, h: HeaderBag, remoteAddr: Option<string>): Option<string> {
    match o
    case ForwardedFor =>
      (match Get(h, XForwardedFor)
       case Some(v) => Some(ForwardedClient(v))
       case None => None)
    case RealIp => Get(h, XRealIp)
    case CfConnecting => Get(h, CfConnectingIp)
    case Peer => remoteAddr
  }

  /** The resolver agrees with the first-match-wins policy on every input. */
  lemma ResolveFollowsPolicy(h: HeaderBag, remoteAddr: Option<string>)
    ensures Resolve(h, remoteAddr) == AddressFrom(OriginOf(h), h, remoteAddr)
  {
    OriginCases(h);
  }

  /** The origin of the policy, spelled out header by header. */
  lemma OriginCases(h: HeaderBag)
    ensures OriginOf(h) == ForwardedFor <==> Truthy(Get(h, XForwardedFor))
    ensures OriginOf(h) == RealIp <==> !Truthy(Get(h, XForwardedFor)) && Truthy(Get(h, XRealIp))
    ensures OriginOf(h) == CfConnecting <==>
      !Truthy(Get(h, XForwardedFor)) && !Truthy(Get(h, XRealIp)) && Truthy(Get(h, CfConnectingIp))
    ensures OriginOf(h) == Peer <==>
      !Truthy(Get(h, XForwardedFor)) && !Truthy(Get(h, XRealIp)) && !Truthy(Get(h, CfConnectingIp))
  {
    var k := FirstTruthy(h, ProxyHeaders);
    assert ProxyHeaders[0] == XForwardedFor;
    assert ProxyHeaders[1] == XRealIp;
    assert ProxyHeaders[2] == CfConnectingIp;
    if k == 3 {
      assert !Truthy(Get(h, ProxyHeaders[0]));
      assert !Truthy(Get(h, ProxyHeaders[1]));
      assert !Truthy(Get(h, ProxyHeaders[2]));
    } else if k == 2 {
      assert !Truthy(Get(h, ProxyHeaders[0]));
      assert !Truthy(Get(h, ProxyHeaders[1]));
    } else if k == 1 {
      assert !Truthy(Get(h, ProxyHeaders[0]));
    }
  }

  // ---------------------------------------------------------------------------
  // The four cases.

  /**
   * A present, non-empty `X-Forwarded-For` always decides the result, even when its
   * first entry strips to the empty string; the later headers are never consulted.
   */
  lemma ForwardedForCase(h: HeaderBag, remoteAddr: Option<string>)
    ensures Truthy(Get(h, XForwardedFor)) ==>
      && Resolve(h, remoteAddr) == Some(ForwardedClient(h[XForwardedFor]))
      && Trimmed(Resolve(h, remoteAddr).value)
      && ',' !in Resolve(h, remoteAddr).value
  {
  }

  /** `X-Real-IP` is returned untrimmed when `X-Forwarded-For` is falsy and it is truthy. */
  lemma RealIpCase(h: HeaderBag, remoteAddr: Option<string>)
    ensures !Truthy(Get(h, XForwardedFor)) && Truthy(Get(h, XRealIp)) ==>
      Resolve(h, remoteAddr) == Some(h[XRealIp])
  {
  }

  /** `CF-Connecting-IP` is returned untrimmed when both earlier headers are falsy and it is truthy. */
  lemma CfConnectingCase(h: HeaderBag, remoteAddr: Option<string>)
    ensures !Truthy(Get(h, XForwardedFor)) && !Truthy(Get(h, XRealIp)) && Truthy(Get(h, CfConnectingIp)) ==>
      Resolve(h, remoteAddr) == Some(h[CfConnectingIp])
  {
  }

  /** The peer address is used when all three proxy headers are absent or empty. */
  lemma PeerCase(h: HeaderBag, remoteAddr: Option<string>)
    ensures !Truthy(Get(h, XForwardedFor)) && !Truthy(Get(h, XRealIp)) && !Truthy(Get(h, CfConnectingIp)) ==>
      Resolve(h, remoteAddr) == remoteAddr
  {
  }

  // ---------------------------------------------------------------------------
  // Further properties.

  /** For a header listing comma-separated entries, the resolver returns the first, stripped. */
  lemma ForwardedListFirst(h: HeaderBag, remoteAddr: Option<string>, entries: seq<string>)
    requires |entries| >= 1
    requires forall i :: 0 <= i < |entries| ==> ',' !in entries[i]
    requires XForwardedFor in h && h[XForwardedFor] == Join(entries, ',') && h[XForwardedFor] != ""
    ensures Resolve(h, remoteAddr) == Some(Strip(entries[0]))
  {
    var v := h[XForwardedFor];
    SplitJoin(entries, ',');
    assert Split(v, ',')[0] == entries[0];
    assert Resolve(h, remoteAddr) == Some(ForwardedClient(v));
  }

  /** Extracting the client entry again changes nothing. */
  lemma ForwardedClientIdempotent(v: string)
    ensures ForwardedClient(ForwardedClient(v)) == ForwardedClient(v)
  {
    var r := ForwardedClient(v);
    assert Split(r, ',')[0] == r[..|r|] == r;
    assert [] + r + [] == r;
    StripSurrounded([], r, []);
  }

  /**
   * Feeding a non-empty resolved `X-Forwarded-For` result back in as the only
   * `X-Forwarded-For` entry resolves to the same address.
   */
  lemma ResolveIdempotent(h: HeaderBag, remoteAddr: Option<string>)
    ensures Truthy(Get(h, XForwardedFor)) && ForwardedClient(h[XForwardedFor]) != "" ==>
      var r := ForwardedClient(h[XForwardedFor]);
      Resolve(h[XForwardedFor := r], remoteAddr) == Resolve(h, remoteAddr) == Some(r)
  {
    if XForwardedFor in h {
      ForwardedClientIdempotent(h[XForwardedFor]);
    }
  }

  /**
   * An `X-Forwarded-For` whose first entry is only whitespace resolves to the
   * empty string, whatever the other headers say.
   */
  lemma BlankFirstEntryResolvesEmpty(h: HeaderBag, remoteAddr: Option<string>)
    requires XForwardedFor in h && h[XForwardedFor] != ""
    requires AllSpace(Split(h[XForwardedFor], ',')[0])
    ensures Resolve(h, remoteAddr) == Some("")
  {
    var e := Split(h[XForwardedFor], ',')[0];
    assert e == e + [] + [];
    StripUnique(e, "");
  }

  /** The case of a blank entry followed by a comma. */
  lemma BlankBeforeComma(h: HeaderBag, remoteAddr: Option<string>, lead: string, rest: string)
    requires AllSpace(lead)
    requires XForwardedFor in h && h[XForwardedFor] == lead + [','] + rest
    ensures Resolve(h, remoteAddr) == Some("")
  {
    SplitAfter(lead, ',', rest);
    BlankFirstEntryResolvesEmpty(h, remoteAddr);
  }

  /**
   * So the resolver is not idempotent on the empty result: with `X-Forwarded-For`
   * " ,1.2.3.4" and `X-Real-IP` "9.9.9.9" it yields "", and "" fed back as
   * `X-Forwarded-For` falls through to `X-Real-IP`.
   */
  lemma EmptyResultNotIdempotent()
    ensures var h := map[XForwardedFor := " ,1.2.3.4", XRealIp := "9.9.9.9"];
      && Resolve(h, Some("10.0.0.1")) == Some("")
      && Resolve(h[XForwardedFor := ""], Some("10.0.0.1")) == Some("9.9.9.9")
  {
    var h := map[XForwardedFor := " ,1.2.3.4", XRealIp := "9.9.9.9"];
    assert " ,1.2.3.4" == " " + [','] + "1.2.3.4";
    BlankBeforeComma(h, Some("10.0.0.1"), " ", "1.2.3.4");
    EmptyForwardedForFallsThrough(h[XForwardedFor := ""], Some("10.0.0.1"));
  }

  /** An empty `X-Forwarded-For` passes the decision to `X-Real-IP` when that is non-empty. */
  lemma EmptyForwardedForFallsThrough(h: HeaderBag, remoteAddr: Option<string>)
    requires XForwardedFor in h && h[XForwardedFor] == ""
    requires XRealIp in h && h[XRealIp] != ""
    ensures Resolve(h, remoteAddr) == Some(h[XRealIp])
  {
  }

  /** An empty header is treated exactly as an absent one. */
  lemma EmptyHeaderIsAbsent(h: HeaderBag, remoteAddr: Option<string>, name: string)
    requires name in h && h[name] == ""
    ensures Resolve(h, remoteAddr) == Resolve(h - {name}, remoteAddr)
  {
    var h' := h - {name};
    forall n | n in h && n != name
      ensures n in h' && h'[n] == h[n]
    {
    }
    assert Truthy(Get(h, XForwardedFor)) == Truthy(Get(h', XForwardedFor));
    assert Truthy(Get(h, XRealIp)) == Truthy(Get(h', XRealIp));
    assert Truthy(Get(h, CfConnectingIp)) == Truthy(Get(h', CfConnectingIp));
  }

  /** Only the three proxy headers influence the result. */
  lemma OnlyProxyHeadersMatter(h: HeaderBag, h': HeaderBag, remoteAddr: Option<string>)
    requires Get(h, XForwardedFor) == Get(h', XForwardedFor)
    requires Get(h, XRealIp) == Get(h', XRealIp)
    requires Get(h, CfConnectingIp) == Get(h', CfConnectingIp)
    ensures Resolve(h, remoteAddr) == Resolve(h', remoteAddr)
  {
    if XForwardedFor in h {
      assert h[XForwardedFor] == h'[XForwardedFor];
    }
  }
}
