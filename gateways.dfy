/** The IPFS gateway mirrors (public/js/backend.js, IPFSGateway). */
module Gateways {
  /** A mirror is a URL template over (cid, path): path style ("A") or subdomain style ("B"). */
  datatype Gateway = PatternA(domain: string) | PatternB(domain: string)

  /** The mirror URL a gateway builds for a content id and a path. */
  function GatewayUrl(g: Gateway, cid: string, path: string): (url: string)
    ensures |url| == 15 + |g.domain| + |cid| + |path|
    ensures url[..8] == "https://"
    ensures url[|url| - |path| - 1..] == "/" + path
    ensures g.PatternA? ==>
      url[8..8 + |g.domain|] == g.domain && url[8 + |g.domain|..14 + |g.domain|] == "/ipfs/" &&
      url[14 + |g.domain|..14 + |g.domain| + |cid|] == cid
    ensures g.PatternB? ==>
      url[8..8 + |cid|] == cid && url[8 + |cid|..14 + |cid|] == ".ipfs." &&
      url[14 + |cid|..14 + |cid| + |g.domain|] == g.domain
  {
    match g
    case PatternA(domain) => "https://" + domain + "/ipfs/" + cid + "/" + path
    case PatternB(domain) => "https://" + cid + ".ipfs." + domain + "/" + path
  }

  /** The eight mirrors in their fixed order. */
  function GatewayList(): (gs: seq<Gateway>)
    ensures |gs| == 8
    ensures forall i :: 0 <= i < |gs| ==> gs[i].domain != ""
  {
    [ PatternA("gateway.ipfs.io"),
      PatternB("4everland.io"),
      PatternB("dweb.link"),
      PatternA("cloudflare-ipfs.com"),
      PatternB("cf-ipfs.com"),
      PatternA("w3s.link"),
      PatternA("storry.tv"),
      PatternB("nftstorage.link") ]
  }

  /** For one mirror and one content id, distinct paths give distinct URLs. */
  lemma {:induction false} GatewayUrlInjectiveInPath(g: Gateway, cid: string, p1: string, p2: string)
    requires GatewayUrl(g, cid, p1) == GatewayUrl(g, cid, p2)
    ensures p1 == p2
  {
    var prefix := match g
      case PatternA(d) => "https://" + d + "/ipfs/" + cid + "/"
      case PatternB(d) => "https://" + cid + ".ipfs." + d + "/";
    assert GatewayUrl(g, cid, p1) == prefix + p1;
    assert GatewayUrl(g, cid, p2) == prefix + p2;
    assert p1 == (prefix + p1)[|prefix|..];
    assert p2 == (prefix + p2)[|prefix|..];
  }
}
