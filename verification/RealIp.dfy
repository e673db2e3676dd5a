/** The address a request came from, as far as trusted proxies vouch for it. */
module RealIp {
  import opened Wrappers
  import opened GoStrings
  import opened Headers

  /** An address range; what it contains is library code. */
  type Range = Addr -> bool

  /** A provider whose edges publish the visitor's address in a header of their own. */
  datatype Edge = Edge(name: string, networks: seq<Range>, header: string)

  datatype Resolver = Resolver(trusted: seq<Range>, edges: seq<Edge>)

  datatype Resolution = Resolution(client: string, peer: string, chain: seq<Addr>, via: string, edgeHeaderMissing: string)

  /** The parts of a request that decide its address. A peer without an address is None. */
  datatype Request = Request(cs: Casing, net: Net, raw: string, peer: Option<Addr>)

  const FORWARDED_FOR := "X-Forwarded-For"

  predicate InSome(networks: seq<Range>, ip: Addr) {
    exists i | 0 <= i < |networks| :: networks[i](ip)
  }

  function Show(ip: Option<Addr>): (s: string)
    ensures s != ""
  {
    match ip
    case None => "<nil>"
    case Some(a) => a
  }

  predicate Trusted(r: Resolver, ip: Addr) {
    InSome(r.trusted, ip)
  }

  method Contained(networks: seq<Range>, ip: Addr) returns (found: bool)
    ensures found == InSome(networks, ip)
  {
    for i := 0 to |networks|
      invariant !InSome(networks[..i], ip)
    {
      if networks[i](ip) {
        return true;
      }
      assert networks[..i + 1] == networks[..i] + [networks[i]];
    }
    assert networks[..|networks|] == networks;
    return false;
  }

  method IsTrustedProxy(r: Resolver, ip: Option<Addr>) returns (trusted: bool)
    ensures trusted == (ip.Some? && Trusted(r, ip.value))
  {
    if ip.None? {
      return false;
    }
    trusted := Contained(r.trusted, ip.value);
  }

  /** The first provider with a range that contains the address. */
  function EdgeOf(edges: seq<Edge>, ip: Addr): (e: Option<Edge>)
    ensures e.Some? ==> e.value in edges
  {
    if edges == [] then None
    else if InSome(edges[0].networks, ip) then Some(edges[0])
    else EdgeOf(edges[1..], ip)
  }

  lemma {:induction false} EdgeOfIff(edges: seq<Edge>, ip: Addr)
    ensures EdgeOf(edges, ip).Some? <==> exists e | e in edges :: InSome(e.networks, ip)
    ensures EdgeOf(edges, ip).Some? ==> InSome(EdgeOf(edges, ip).value.networks, ip)
  {
    if edges != [] && !InSome(edges[0].networks, ip) {
      EdgeOfIff(edges[1..], ip);
      assert edges == [edges[0]] + edges[1..];
    }
  }

  /** Of several providers whose ranges contain the address the first one is meant. */
  lemma {:induction false} FirstEdgeWins(edges: seq<Edge>, ip: Addr, i: nat)
    requires i < |edges| && exists k | 0 <= k < |edges[i].networks| :: edges[i].networks[k](ip)
    requires forall j, k | 0 <= j < i && 0 <= k < |edges[j].networks| :: !edges[j].networks[k](ip)
    ensures EdgeOf(edges, ip) == Some(edges[i])
  {
    if i > 0 {
      FirstEdgeWins(edges[1..], ip, i - 1);
    }
  }

  method EdgeFor(r: Resolver, ip: Option<Addr>) returns (e: Option<Edge>)
    ensures e == if ip.Some? then EdgeOf(r.edges, ip.value) else None
  {
    if ip.None? {
      return None;
    }
    for i := 0 to |r.edges|
      invariant EdgeOf(r.edges, ip.value) == EdgeOf(r.edges[i..], ip.value)
    {
      var found := Contained(r.edges[i].networks, ip.value);
      if found {
        return Some(r.edges[i]);
      }
    }
    return None;
  }

  // ---- The header of an edge ----

  /** The address a header carries: exactly one line with exactly one address. */
  function Usable(req: Request, header: string): Option<Addr>
  {
    var values := HeaderValues(req.cs, header, req.raw);
    if |values| != 1 then None else ParseHeaderIp(req.net, values[0])
  }

  /** What reading a header gives. */
  type Reader = string -> Option<Addr>

  function ReaderOf(req: Request): Reader
  {
    header => Usable(req, header)
  }

  /** The visitor address the provider's edge published. */
  method EdgeClientIp(req: Request, header: string) returns (value: Option<Addr>)
    ensures value == ReaderOf(req)(header)
  {
    var values := RawHeaderValues(req.cs, req.raw, header);
    if |values| != 1 {
      return None;
    }
    value := ParseHeaderIp(req.net, values[0]);
  }

  datatype Entry = Entry(header: string, value: Option<Addr>)

  ghost function HeadersIn(entries: seq<Entry>): set<string>
  {
    set e | e in entries :: e.header
  }

  ghost predicate Faithful(entries: seq<Entry>, read: Reader) {
    forall e | e in entries :: e.value == read(e.header)
  }

  lemma EntriesGrow(entries: seq<Entry>, e: Entry)
    ensures HeadersIn(entries + [e]) == HeadersIn(entries) + {e.header}
  {
    assert e in entries + [e];
    assert forall x | x in entries :: x in entries + [e];
  }

  /** The remembered value of a header. */
  method Recall(entries: seq<Entry>, header: string, ghost read: Reader) returns (known: Option<Option<Addr>>)
    requires Faithful(entries, read)
    ensures known.Some? <==> header in HeadersIn(entries)
    ensures known.Some? ==> known.value == read(header)
  {
    for i := 0 to |entries|
      invariant forall j | 0 <= j < i :: entries[j].header != header
    {
      if entries[i].header == header {
        assert entries[i] in entries;
        return Some(entries[i].value);
      }
    }
    return None;
  }

  /** Reads each header at most once per request. */
  class HeaderCache {
    const req: Request
    var entries: seq<Entry>

    /** What reads give, and how often the raw block was scanned. */
    ghost const read: Reader
    ghost var scans: nat

    ghost predicate Valid()
      reads this
    {
      Faithful(entries, read) && scans == |HeadersIn(entries)|
    }

    constructor (req: Request)
      ensures Valid() && this.req == req && read == ReaderOf(req) && entries == []
    {
      this.req := req;
      entries, scans := [], 0;
      read := ReaderOf(req);
    }

    method ClientIp(e: Edge) returns (value: Option<Addr>)
      requires Valid() && read == ReaderOf(req)
      modifies this
      ensures Valid()
      ensures value == read(e.header)
      ensures HeadersIn(entries) == HeadersIn(old(entries)) + {e.header}
      ensures scans == old(scans) + if e.header in HeadersIn(old(entries)) then 0 else 1
    {
      var known := Recall(entries, e.header, read);
      if known.Some? {
        return known.value;
      }
      value := EdgeClientIp(req, e.header);
      scans := scans + 1;
      EntriesGrow(entries, Entry(e.header, value));
      entries := entries + [Entry(e.header, value)];
    }
  }

  // ---- Resolution ----

  /** What the walk asks of each address it meets, and of each header it reads. */
  datatype View = View(trusted: Addr -> bool, edgeOf: Addr -> Option<Edge>, read: Reader)

  function ViewOf(r: Resolver, read: Reader): View
  {
    View((ip: Addr) => Trusted(r, ip), (ip: Addr) => EdgeOf(r.edges, ip), read)
  }

  /** The address the edge around ip publishes, if ip lies in one and its header is usable. */
  function EdgeAnswer(v: View, ip: Addr): Option<Addr>
  {
    match v.edgeOf(ip)
    case None => None
    case Some(e) => v.read(e.header)
  }

  /** The walk ends at an entry that is not trusted, or whose edge answers. */
  predicate Stops(v: View, ip: Addr) {
    !v.trusted(ip) || EdgeAnswer(v, ip).Some?
  }

  /** The rightmost entry the walk ends at. */
  function Stop(v: View, chain: seq<Addr>): (j: Option<nat>)
    ensures j.Some? ==> j.value < |chain|
  {
    if chain == [] then None
    else if Stops(v, chain[|chain| - 1]) then Some(|chain| - 1)
    else Stop(v, chain[..|chain| - 1])
  }

  lemma {:induction false} StopIsRightmost(v: View, chain: seq<Addr>)
    ensures match Stop(v, chain)
            case None => forall k | 0 <= k < |chain| :: !Stops(v, chain[k])
            case Some(j) => Stops(v, chain[j]) && forall k | j < k < |chain| :: !Stops(v, chain[k])
  {
    if chain != [] && !Stops(v, chain[|chain| - 1]) {
      StopIsRightmost(v, chain[..|chain| - 1]);
      assert forall k | 0 <= k < |chain| - 1 :: chain[..|chain| - 1][k] == chain[k];
    }
  }

  /** The provider of the leftmost entry that lies in an edge without a usable header. */
  function Missing(v: View, scanned: seq<Addr>): string
  {
    if scanned == [] then ""
    else
      match v.edgeOf(scanned[0])
      case Some(e) => if v.read(e.header).None? then e.name else Missing(v, scanned[1..])
      case None => Missing(v, scanned[1..])
  }

  function Applied(v: View, res: Resolution, ip: Option<Addr>): Resolution
  {
    var e := if ip.Some? then v.edgeOf(ip.value) else None;
    match e
    case None => res
    case Some(e) =>
      match v.read(e.header)
      case Some(a) => res.(client := a, via := e.name)
      case None => res.(edgeHeaderMissing := e.name)
  }

  /** What a hop answers: its edge's header if usable, else the hop itself. */
  function Settled(v: View, res: Resolution, ip: Option<Addr>): Resolution
  {
    var applied := Applied(v, res, ip);
    if applied.client == "" then applied.(client := Show(ip)) else applied
  }

  function Start(peer: Option<Addr>, chain: seq<Addr>): Resolution
  {
    Resolution("", Show(peer), chain, "", "")
  }

  /** An untrusted peer answers. Otherwise the rightmost entry of the chain that is not
      trusted, or lies in an edge whose header is usable, answers; without one the peer
      does. */
  function Resolved(v: View, peer: Option<Addr>, chain: seq<Addr>): Resolution
  {
    var start := Start(peer, chain);
    if peer.None? || !v.trusted(peer.value) then Settled(v, start, peer)
    else
      match Stop(v, chain)
      case None => Settled(v, start.(edgeHeaderMissing := Missing(v, chain)), peer)
      case Some(j) => Settled(v, start.(edgeHeaderMissing := Missing(v, chain[j + 1..])), Some(chain[j]))
  }

  ghost function EdgeHeaders(r: Resolver): set<string>
  {
    set e | e in r.edges :: e.header
  }

  method ApplyEdge(r: Resolver, res: Cell<Resolution>, headers: HeaderCache, ip: Option<Addr>)
    requires headers.Valid() && headers.read == ReaderOf(headers.req) && HeadersIn(headers.entries) <= EdgeHeaders(r)
    modifies res, headers
    ensures headers.Valid() && HeadersIn(headers.entries) <= EdgeHeaders(r)
    ensures res.value == Applied(ViewOf(r, headers.read), old(res.value), ip)
  {
    var e := EdgeFor(r, ip);
    if e.None? {
      return;
    }
    assert e.value in r.edges;
    var value := headers.ClientIp(e.value);
    if value.Some? {
      res.value := res.value.(client := value.value, via := e.value.name);
      return;
    }
    res.value := res.value.(edgeHeaderMissing := e.value.name);
  }

  /** The last candidate: the peer. */
  method SettlePeer(r: Resolver, res: Cell<Resolution>, headers: HeaderCache, peer: Option<Addr>)
    requires headers.Valid() && headers.read == ReaderOf(headers.req) && HeadersIn(headers.entries) <= EdgeHeaders(r)
    requires res.value.peer == Show(peer)
    modifies res, headers
    ensures headers.Valid() && HeadersIn(headers.entries) <= EdgeHeaders(r)
    ensures res.value == Settled(ViewOf(r, headers.read), old(res.value), peer)
  {
    ApplyEdge(r, res, headers, peer);
    if res.value.client == "" {
      res.value := res.value.(client := res.value.peer);
    }
  }

  /** One entry of the chain. It is consulted as an edge if its provider was named or if
      the walk is about to stop at it. */
  method Hop(r: Resolver, res: Cell<Resolution>, headers: HeaderCache, ip: Addr) returns (stopped: bool)
    requires headers.Valid() && headers.read == ReaderOf(headers.req) && HeadersIn(headers.entries) <= EdgeHeaders(r)
    requires res.value.client == ""
    modifies res, headers
    ensures headers.Valid() && HeadersIn(headers.entries) <= EdgeHeaders(r)
    ensures stopped == Stops(ViewOf(r, headers.read), ip)
    ensures res.value == if stopped then Settled(ViewOf(r, headers.read), old(res.value), Some(ip))
                         else Applied(ViewOf(r, headers.read), old(res.value), Some(ip))
  {
    var trusted := IsTrustedProxy(r, Some(ip));
    var edge := EdgeFor(r, Some(ip));
    if !trusted || edge.Some? {
      ApplyEdge(r, res, headers, Some(ip));
      if res.value.client != "" {
        return true;
      }
    }
    if !trusted {
      res.value := res.value.(client := ip);
    }
    return !trusted;
  }

  /** The walk, entry by entry. */
  function Walked(v: View, res: Resolution, peer: Option<Addr>, chain: seq<Addr>): Resolution
    decreases |chain|
  {
    if chain == [] then Settled(v, res, peer)
    else
      var ip := chain[|chain| - 1];
      if Stops(v, ip) then Settled(v, res, Some(ip))
      else Walked(v, Applied(v, res, Some(ip)), peer, chain[..|chain| - 1])
  }

  /** Walks the chain from right to left, up to the first entry that settles the client. */
  method Walk(r: Resolver, res: Cell<Resolution>, headers: HeaderCache, peer: Option<Addr>, forwarded: seq<Addr>)
    requires headers.Valid() && headers.read == ReaderOf(headers.req) && HeadersIn(headers.entries) <= EdgeHeaders(r)
    requires res.value.client == "" && res.value.peer == Show(peer)
    modifies res, headers
    ensures headers.Valid() && HeadersIn(headers.entries) <= EdgeHeaders(r)
    ensures res.value == Walked(ViewOf(r, headers.read), old(res.value), peer, forwarded)
  {
    ghost var v := ViewOf(r, headers.read);
    var i := |forwarded|;
    assert forwarded[..i] == forwarded;
    while i > 0
      invariant 0 <= i <= |forwarded|
      invariant headers.Valid() && HeadersIn(headers.entries) <= EdgeHeaders(r)
      invariant res.value.client == "" && res.value.peer == Show(peer)
      invariant Walked(v, res.value, peer, forwarded[..i]) == Walked(v, old(res.value), peer, forwarded)
    {
      i := i - 1;
      assert forwarded[..i + 1][..i] == forwarded[..i];
      var stopped := Hop(r, res, headers, forwarded[i]);
      if stopped {
        return;
      }
    }
    SettlePeer(r, res, headers, peer);
  }

  /** The walk over a chain, what is to its right having been walked already. */
  lemma {:induction false} WalkedFrom(v: View, peer: Option<Addr>, chain: seq<Addr>, left: seq<Addr>, right: seq<Addr>)
    requires peer.Some? && v.trusted(peer.value)
    requires chain == left + right && Stop(v, chain) == Stop(v, left)
    ensures Walked(v, Start(peer, chain).(edgeHeaderMissing := Missing(v, right)), peer, left) == Resolved(v, peer, chain)
    decreases |left|
  {
    if left == [] {
      assert right == chain;
    } else {
      var n := |left| - 1;
      if Stops(v, left[n]) {
        assert chain[n] == left[n] && chain[n + 1..] == right;
      } else {
        assert ([left[n]] + right)[1..] == right;
        assert left[..n] + ([left[n]] + right) == chain;
        WalkedFrom(v, peer, chain, left[..n], [left[n]] + right);
      }
    }
  }

  lemma WalkedIsResolved(v: View, peer: Option<Addr>, chain: seq<Addr>)
    requires peer.Some? && v.trusted(peer.value)
    ensures Walked(v, Start(peer, chain), peer, chain) == Resolved(v, peer, chain)
  {
    assert chain == chain + [];
    WalkedFrom(v, peer, chain, chain, []);
  }

  function ChainOf(req: Request): seq<Addr>
  {
    ForwardedChain(req.cs, Parsing(req.net), FORWARDED_FOR, req.raw)
  }

  lemma SubsetSize(a: set<string>, b: set<string>)
    requires a <= b
    ensures |a| <= |b|
  {
    assert b == a + (b - a);
  }

  method ResolveChain(r: Resolver, req: Request, forwarded: seq<Addr>) returns (resolution: Resolution, ghost scans: nat)
    ensures resolution == Resolved(ViewOf(r, ReaderOf(req)), req.peer, forwarded)
    ensures scans <= |EdgeHeaders(r)|
  {
    var res := new Cell(Start(req.peer, forwarded));
    var headers := new HeaderCache(req);
    var trustedPeer := IsTrustedProxy(r, req.peer);
    if trustedPeer {
      Walk(r, res, headers, req.peer, forwarded);
      WalkedIsResolved(ViewOf(r, headers.read), req.peer, forwarded);
    } else {
      SettlePeer(r, res, headers, req.peer);
    }
    SubsetSize(HeadersIn(headers.entries), EdgeHeaders(r));
    return res.value, headers.scans;
  }

  /** Resolves the client address of a request, scanning the raw block for edge headers at
      most once per distinct header, however long the chain. */
  method Resolve(r: Resolver, req: Request) returns (resolution: Resolution, ghost scans: nat)
    ensures resolution == Resolved(ViewOf(r, ReaderOf(req)), req.peer, ChainOf(req))
    ensures scans <= |EdgeHeaders(r)|
  {
    var forwarded := ForwardedFor(req.cs, req.net, req.raw, FORWARDED_FOR);
    resolution, scans := ResolveChain(r, req, forwarded);
  }

  // ---- Theorems ----

  ghost predicate TrustedPeer(v: View, peer: Option<Addr>) {
    peer.Some? && v.trusted(peer.value)
  }

  /** A resolution without the chain it merely reports. */
  function Verdict(res: Resolution): Resolution
  {
    res.(chain := [])
  }

  lemma {:induction false} StopInSuffix(v: View, pre: seq<Addr>, suffix: seq<Addr>)
    requires Stop(v, suffix).Some?
    ensures Stop(v, pre + suffix) == Some(|pre| + Stop(v, suffix).value)
  {
    var chain, n := pre + suffix, |suffix| - 1;
    assert chain[|chain| - 1] == suffix[n];
    if !Stops(v, suffix[n]) {
      assert chain[..|chain| - 1] == pre + suffix[..n];
      StopInSuffix(v, pre, suffix[..n]);
    }
  }

  lemma SuffixSlices(pre: seq<Addr>, suffix: seq<Addr>, j: nat)
    requires j < |suffix|
    ensures (pre + suffix)[|pre| + j] == suffix[j] && (pre + suffix)[|pre| + j + 1..] == suffix[j + 1..]
  {
  }

  /** The verdict, by the entry the walk ends at and the entries to its right. */
  lemma VerdictAtStop(v: View, peer: Option<Addr>, chain: seq<Addr>, j: nat, ip: Addr,
                      right: seq<Addr>)
    requires TrustedPeer(v, peer) && Stop(v, chain) == Some(j) && chain[j] == ip && chain[j + 1..] == right
    ensures Verdict(Resolved(v, peer, chain))
         == Settled(v, Start(peer, []).(edgeHeaderMissing := Missing(v, right)), Some(ip))
  {
  }

  lemma SameSuffix(v: View, peer: Option<Addr>, chain: seq<Addr>, pre: seq<Addr>, suffix: seq<Addr>)
    requires TrustedPeer(v, peer) && Stop(v, suffix).Some? && chain == pre + suffix
    requires Stop(v, chain) == Some(|pre| + Stop(v, suffix).value)
    ensures Verdict(Resolved(v, peer, chain)) == Verdict(Resolved(v, peer, suffix))
  {
    var j := Stop(v, suffix).value;
    SuffixSlices(pre, suffix, j);
    VerdictAtStop(v, peer, suffix, j, suffix[j], suffix[j + 1..]);
    VerdictAtStop(v, peer, chain, |pre| + j, suffix[j], suffix[j + 1..]);
  }

  /** The entries a client prepends do not matter: once a suffix holds an entry that ends
      the walk, whatever precedes it changes nothing but the reported chain. */
  lemma PrefixIsIrrelevant(v: View, peer: Option<Addr>, pre: seq<Addr>, suffix: seq<Addr>)
    requires TrustedPeer(v, peer) && Stop(v, suffix).Some?
    ensures Verdict(Resolved(v, peer, pre + suffix)) == Verdict(Resolved(v, peer, suffix))
  {
    StopInSuffix(v, pre, suffix);
    SameSuffix(v, peer, pre + suffix, pre, suffix);
  }

  /** The address of an untrusted peer is not read from the chain at all. */
  lemma UntrustedPeerIgnoresChain(v: View, peer: Option<Addr>, chain: seq<Addr>, chain': seq<Addr>)
    requires !TrustedPeer(v, peer)
    ensures Verdict(Resolved(v, peer, chain)) == Verdict(Resolved(v, peer, chain'))
  {
  }

  /** No scanned entry lies in an edge range. */
  ghost predicate NoEdgeFrom(v: View, chain: seq<Addr>, j: nat) {
    forall k | j <= k < |chain| :: v.edgeOf(chain[k]) == None
  }

  lemma {:induction false} StopWithoutEdges(v: View, read: Reader, chain: seq<Addr>)
    requires Stop(v, chain).Some? && NoEdgeFrom(v, chain, Stop(v, chain).value)
    ensures Stop(v.(read := read), chain) == Stop(v, chain)
  {
    var n := |chain| - 1;
    assert v.edgeOf(chain[n]) == None;
    if !Stops(v, chain[n]) {
      assert forall k | Stop(v, chain).value <= k < n :: chain[..n][k] == chain[k];
      StopWithoutEdges(v, read, chain[..n]);
    }
  }

  lemma {:induction false} NoneMissing(v: View, scanned: seq<Addr>)
    requires NoEdgeFrom(v, scanned, 0)
    ensures Missing(v, scanned) == ""
  {
    if scanned != [] {
      NoneMissing(v, scanned[1..]);
    }
  }

  /** When the walk ends before it meets an edge, no edge header matters either. */
  lemma EdgeHeaderIsIrrelevant(v: View, read: Reader, peer: Option<Addr>, chain: seq<Addr>)
    requires TrustedPeer(v, peer)
    requires Stop(v, chain).Some? && NoEdgeFrom(v, chain, Stop(v, chain).value)
    ensures Resolved(v.(read := read), peer, chain) == Resolved(v, peer, chain)
  {
    StopWithoutEdges(v, read, chain);
    var j := Stop(v, chain).value;
    NoneMissing(v, chain[j + 1..]);
    NoneMissing(v.(read := read), chain[j + 1..]);
  }

  /** Every entry to the right of j is trusted. */
  ghost predicate TrustedAfter(v: View, chain: seq<Addr>, j: int) {
    forall k | 0 <= k && j < k < |chain| :: v.trusted(chain[k])
  }

  /** Where a client address comes from: the header of an edge, the peer, or an entry of
      the chain. */
  datatype Origin = FromEdge(edge: Edge) | FromPeer | FromChain(at: nat)

  /** Only a trusted peer lets the chain decide. Then an entry answers, for itself if it is
      untrusted or through the header of its edge, only if every entry to its right is
      trusted, and the peer, or its edge, only if every entry is. */
  ghost predicate ComesFrom(v: View, peer: Option<Addr>, chain: seq<Addr>, o: Origin) {
    var res := Resolved(v, peer, chain);
    var peerDecides := TrustedPeer(v, peer) ==> TrustedAfter(v, chain, -1);
    match o
    case FromEdge(e) =>
      && v.read(e.header) == Some(res.client)
      && res.via == e.name
      && (|| (peer.Some? && v.edgeOf(peer.value) == Some(e) && peerDecides)
          || (TrustedPeer(v, peer)
              && exists j | 0 <= j < |chain| :: v.edgeOf(chain[j]) == Some(e) && TrustedAfter(v, chain, j)))
    case FromPeer => res.client == Show(peer) && res.via == "" && peerDecides
    case FromChain(j) =>
      && j < |chain|
      && TrustedPeer(v, peer)
      && res.client == chain[j]
      && res.via == ""
      && !v.trusted(chain[j])
      && TrustedAfter(v, chain, j)
  }

  /** In particular a client read from the chain is never a trusted proxy. */
  lemma ClientOrigin(v: View, peer: Option<Addr>, chain: seq<Addr>) returns (o: Origin)
    ensures ComesFrom(v, peer, chain, o)
  {
    StopIsRightmost(v, chain);
    var stop := Stop(v, chain);
    var last := if TrustedPeer(v, peer) && stop.Some? then Some(chain[stop.value]) else peer;
    var e := if last.Some? then v.edgeOf(last.value) else None;
    if e.Some? && v.read(e.value.header).Some? {
      o := FromEdge(e.value);
    } else if TrustedPeer(v, peer) && stop.Some? {
      o := FromChain(stop.value);
    } else {
      o := FromPeer;
    }
  }

  lemma LastHopDecides(v: View, peer: Option<Addr>, before: seq<Addr>, ip: Addr)
    requires TrustedPeer(v, peer) && !v.trusted(ip) && v.edgeOf(ip) == None
    ensures Resolved(v, peer, before + [ip]).client == ip
  {
    PrefixIsIrrelevant(v, peer, before, [ip]);
  }

  /** The line of the last proxy decides: with a trusted peer, whatever the block above it
      says, the address the proxy wrote there is the client, if it is neither trusted nor
      an edge. */
  lemma ProxyLineDecides(r: Resolver, req: Request, pre: string, line: string, ip: Addr, post: string)
    requires TrustedPeer(ViewOf(r, ReaderOf(req)), req.peer) && req.raw == pre + line + CRLF + post
    requires WholeLines(pre) && HeaderLine(line) && (post != "" ==> !Blank(post[0]))
    requires IsTarget(req.cs, FORWARDED_FOR, line) && HeaderValues(req.cs, FORWARDED_FOR, post) == []
    requires ',' !in ValueOf(line) && ParseHeaderIp(req.net, ValueOf(line)) == Some(ip)
    requires !Trusted(r, ip) && EdgeOf(r.edges, ip) == None
    ensures Resolved(ViewOf(r, ReaderOf(req)), req.peer, ChainOf(req)).client == ip
  {
    var parse := Parsing(req.net);
    AddedLineAppends(req.cs, parse, FORWARDED_FOR, pre, line, ip, post);
    LastHopDecides(ViewOf(r, ReaderOf(req)), req.peer, ForwardedChain(req.cs, parse, FORWARDED_FOR, pre), ip);
  }

  /** a spells the address ip: it is one, or one with a port. */
  ghost predicate Spells(net: Net, a: string, ip: Addr) {
    && a != "" && TrimSpace(a) == a && ',' !in a && '\r' !in a
    && (|| net.parseIp(a) == Some(ip)
        || (net.parseIp(a) == None && net.hostOf(a).Some? && net.parseIp(net.hostOf(a).value) == Some(ip)))
  }

  /** For an ordinary line: what the last proxy wrote as "X-Forwarded-For: " and an address,
      with or without a port, is the client of a request from a trusted peer. */
  lemma ProxyAddressDecides(r: Resolver, req: Request, pre: string, a: string, ip: Addr, post: string)
    requires req.cs.Lawful() && req.peer.Some? && (exists i | 0 <= i < |r.trusted| :: r.trusted[i](req.peer.value))
    requires req.raw == pre + ("X-Forwarded-For: " + a) + CRLF + post
    requires WholeLines(pre) && (post != "" ==> !Blank(post[0])) && HeaderValues(req.cs, "X-Forwarded-For", post) == []
    requires Spells(req.net, a, ip)
    requires forall i | 0 <= i < |r.trusted| :: !r.trusted[i](ip)
    requires forall e | e in r.edges :: !InSome(e.networks, ip)
    ensures Resolved(ViewOf(r, ReaderOf(req)), req.peer, ChainOf(req)).client == ip
  {
    assert "X-Forwarded-For" + ": " + a == "X-Forwarded-For: " + a;
    WrittenLine(req.cs, "X-Forwarded-For", a);
    WrittenAddress(req.net, a, ip);
    EdgeOfIff(r.edges, ip);
    ProxyLineDecides(r, req, pre, "X-Forwarded-For: " + a, ip, post);
  }

  /** A block with exactly one line of an edge's header, written like that, makes its address
      the one the header carries. */
  lemma EdgeAddressIsUsable(req: Request, header: string, pre: string, a: string, ip: Addr, post: string)
    requires req.cs.Lawful() && header != "" && !Blank(header[0]) && ':' !in header && '\r' !in header
    requires req.raw == pre + (header + ": " + a) + CRLF + post
    requires WholeLines(pre) && (post != "" ==> !Blank(post[0]))
    requires HeaderValues(req.cs, header, pre) == [] && HeaderValues(req.cs, header, post) == []
    requires Spells(req.net, a, ip)
    ensures ReaderOf(req)(header) == Some(ip)
  {
    var line := header + ": " + a;
    WrittenLine(req.cs, header, a);
    WrittenAddress(req.net, a, ip);
    AroundLine(req.cs, header, pre, line, post);
    OneLine(req.cs, header, line);
  }

  lemma {:induction false} StopIs(v: View, chain: seq<Addr>, j: nat)
    requires j < |chain|
    requires !v.trusted(chain[j])
             || (v.edgeOf(chain[j]).Some? && v.read(v.edgeOf(chain[j]).value.header).Some?)
    requires forall k | j < k < |chain| ::
               v.trusted(chain[k]) && (v.edgeOf(chain[k]).Some? ==> v.read(v.edgeOf(chain[k]).value.header) == None)
    ensures Stop(v, chain) == Some(j)
  {
    if j < |chain| - 1 {
      StopIs(v, chain[..|chain| - 1], j);
    }
  }

  /** It then answers for an untrusted peer in the edge's ranges, */
  lemma EdgePeerAnswers(v: View, peer: Addr, chain: seq<Addr>, e: Edge, ip: Addr)
    requires v.edgeOf(peer) == Some(e) && v.read(e.header) == Some(ip) && !v.trusted(peer)
    ensures var res := Resolved(v, Some(peer), chain); res.client == ip && res.via == e.name && res.edgeHeaderMissing == ""
  {
  }

  /** and for a trusted peer if the rightmost entry that is untrusted or whose edge answers
      lies in them. */
  lemma EdgeEntryAnswers(v: View, peer: Addr, chain: seq<Addr>, j: nat, e: Edge, ip: Addr)
    requires v.trusted(peer) && j < |chain| && v.edgeOf(chain[j]) == Some(e) && v.read(e.header) == Some(ip)
    requires forall k | j < k < |chain| ::
               v.trusted(chain[k]) && (v.edgeOf(chain[k]).Some? ==> v.read(v.edgeOf(chain[k]).value.header) == None)
    ensures var res := Resolved(v, Some(peer), chain); res.client == ip && res.via == e.name
  {
    StopIs(v, chain, j);
  }

  /** From the bytes of the request: an edge that connects directly, or whose address is the
      rightmost entry not just trusted, makes the address it wrote the client. */
  lemma EdgeAddressDecides(r: Resolver, req: Request, e: Edge, pre: string, a: string, ip: Addr, post: string, j: nat)
    requires req.cs.Lawful() && e.header != "" && !Blank(e.header[0]) && ':' !in e.header && '\r' !in e.header
    requires req.raw == pre + (e.header + ": " + a) + CRLF + post
    requires WholeLines(pre) && (post != "" ==> !Blank(post[0]))
    requires HeaderValues(req.cs, e.header, pre) == [] && HeaderValues(req.cs, e.header, post) == []
    requires Spells(req.net, a, ip) && req.peer.Some?
    requires || (!Trusted(r, req.peer.value) && EdgeOf(r.edges, req.peer.value) == Some(e))
             || (Trusted(r, req.peer.value) && j < |ChainOf(req)| && EdgeOf(r.edges, ChainOf(req)[j]) == Some(e)
                 && forall k | j < k < |ChainOf(req)| ::
                      Trusted(r, ChainOf(req)[k]) && EdgeOf(r.edges, ChainOf(req)[k]) == None)
    ensures var res := Resolved(ViewOf(r, ReaderOf(req)), req.peer, ChainOf(req)); res.client == ip && res.via == e.name
  {
    var v := ViewOf(r, ReaderOf(req));
    EdgeAddressIsUsable(req, e.header, pre, a, ip, post);
    if Trusted(r, req.peer.value) {
      EdgeEntryAnswers(v, req.peer.value, ChainOf(req), j, e, ip);
    } else {
      EdgePeerAnswers(v, req.peer.value, ChainOf(req), e, ip);
    }
  }

  lemma {:induction false} NoStop(v: View, chain: seq<Addr>)
    requires forall k | 0 <= k < |chain| ::
               v.trusted(chain[k]) && (v.edgeOf(chain[k]).Some? ==> v.read(v.edgeOf(chain[k]).value.header) == None)
    ensures Stop(v, chain) == None
  {
    if chain != [] {
      NoStop(v, chain[..|chain| - 1]);
    }
  }

  /** Without one a trusted peer answers itself, or through its own edge. */
  lemma TrustedChainFallsBack(v: View, peer: Addr, chain: seq<Addr>)
    requires v.trusted(peer)
    requires forall k | 0 <= k < |chain| ::
               v.trusted(chain[k]) && (v.edgeOf(chain[k]).Some? ==> v.read(v.edgeOf(chain[k]).value.header) == None)
    ensures Resolved(v, Some(peer), chain).client
         == if v.edgeOf(peer).Some? then v.read(v.edgeOf(peer).value.header).GetOr(peer) else peer
  {
    NoStop(v, chain);
  }

  /** An untrusted entry whose edge, if any, has no usable header answers for itself if only
      such trusted ones are to its right. */
  lemma EntryAnswers(v: View, peer: Addr, chain: seq<Addr>, j: nat)
    requires v.trusted(peer) && j < |chain| && !v.trusted(chain[j])
    requires forall k | j <= k < |chain| :: v.edgeOf(chain[k]).Some? ==> v.read(v.edgeOf(chain[k]).value.header) == None
    requires forall k | j < k < |chain| :: v.trusted(chain[k])
    ensures var res := Resolved(v, Some(peer), chain); res.client == chain[j] && res.via == ""
  {
    StopIs(v, chain, j);
  }

  /** The provider reported as missing is that of the leftmost such edge, */
  lemma {:induction false} MissingIs(v: View, scanned: seq<Addr>, i: nat, e: Edge)
    requires i < |scanned| && v.edgeOf(scanned[i]) == Some(e) && v.read(e.header) == None
    requires forall k | 0 <= k < i :: v.edgeOf(scanned[k]).Some? ==> v.read(v.edgeOf(scanned[k]).value.header).Some?
    ensures Missing(v, scanned) == e.name
  {
    if i > 0 {
      MissingIs(v, scanned[1..], i - 1, e);
    }
  }

  /** among the entries the walk has read. */
  lemma EntryReportsMissing(v: View, peer: Addr, chain: seq<Addr>, j: nat)
    requires v.trusted(peer) && j < |chain| && !v.trusted(chain[j])
    requires forall k | j <= k < |chain| :: v.edgeOf(chain[k]).Some? ==> v.read(v.edgeOf(chain[k]).value.header) == None
    requires forall k | j < k < |chain| :: v.trusted(chain[k])
    ensures Resolved(v, Some(peer), chain).edgeHeaderMissing == Missing(v, chain[j..])
  {
    StopIs(v, chain, j);
    assert chain[j..][0] == chain[j] && chain[j..][1..] == chain[j + 1..];
  }

  /** A second line with an edge's header makes it unusable. */
  lemma SecondLineDisables(req: Request, header: string, pre: string, line: string, post: string)
    requires req.raw == pre + line + CRLF + post
    requires WholeLines(pre) && HeaderLine(line) && (post != "" ==> !Blank(post[0]))
    requires IsTarget(req.cs, header, line)
    requires HeaderValues(req.cs, header, pre) != [] || HeaderValues(req.cs, header, post) != []
    ensures Usable(req, header) == None
  {
    AroundLine(req.cs, header, pre, line, post);
    OneLine(req.cs, header, line);
  }
}
