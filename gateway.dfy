/**
 * Request routing in the gateway (Gateway/controller.go). The SHA-256 digest
 * of an object id, read as a big-endian number, selects the first range of
 * the node map that contains it; the replicas of that range are then tried
 * in order through the storage connector. The digest and the HTTP round
 * trip are parameters.
 */
module Gateway {
  import opened Common
  import opened BigEndian
  import opened Connector

  /** A group of replicas and the range of digests it holds, as two hex numerals (both ends included). */
  datatype NodeRange = NodeRange(nodesAddrs: seq<Bytes>, range: seq<Bytes>)

  datatype Nodemap = Nodemap(nodesRanges: seq<NodeRange>, nodemapVersion: int)

  /** What the handler sends back through gin: each status it set, in order, and the body it wrote. */
  datatype GinReply = GinReply(statuses: seq<nat>, body: Bytes)

  const UPLOAD_FINISHED: Bytes := Ascii("Upload finished.")

  // ---------------------------------------------------------------------
  // Hex numerals (`big.Int.SetString(s, 16)`)
  // ---------------------------------------------------------------------

  predicate IsHexDigit(c: byte) {
    48 <= c <= 57 || 97 <= c <= 102 || 65 <= c <= 70
  }

  function HexDigitValue(c: byte): nat
    requires IsHexDigit(c)
  {
    if c <= 57 then c - 48 else if c >= 97 then c - 87 else c - 55
  }

  predicate AllHexDigits(s: Bytes) {
    forall i :: 0 <= i < |s| ==> IsHexDigit(s[i])
  }

  function HexNatValue(s: Bytes): nat
    requires AllHexDigits(s)
  {
    if s == [] then 0 else 16 * HexNatValue(s[..|s| - 1]) + HexDigitValue(s[|s| - 1])
  }

  /** An optional sign followed by at least one hex digit of either case. */
  predicate HexNumeral(s: Bytes) {
    if |s| > 0 && (s[0] == 43 || s[0] == 45) then |s| > 1 && AllHexDigits(s[1..])
    else |s| > 0 && AllHexDigits(s)
  }

  function HexNumeralValue(s: Bytes): int
    requires HexNumeral(s)
  {
    if s[0] == 45 then -(HexNatValue(s[1..]) as int)
    else if s[0] == 43 then HexNatValue(s[1..])
    else HexNatValue(s)
  }

  /** The bounds the lookup parses are hex numerals (a range with fewer than two strings is not parsed: it panics). */
  predicate HexBounds(rs: seq<NodeRange>) {
    forall k :: 0 <= k < |rs| && |rs[k].range| >= 2 ==> HexNumeral(rs[k].range[0]) && HexNumeral(rs[k].range[1])
  }

  /** The range contains the digest value `h`, both ends included. */
  predicate Contains(nr: NodeRange, h: int)
    requires |nr.range| >= 2 && HexNumeral(nr.range[0]) && HexNumeral(nr.range[1])
  {
    HexNumeralValue(nr.range[0]) <= h <= HexNumeralValue(nr.range[1])
  }

  /**
   * The replicas for `h`: those of the first range, in list order, that
   * contains it; none when no range does. A range with fewer than two
   * bounds, reached before any match, panics on the index.
   */
  function Lookup(rs: seq<NodeRange>, h: int): Outcome<seq<Bytes>>
    requires HexBounds(rs)
  {
    if rs == [] then Returned([])
    else if |rs[0].range| < 2 then Aborted
    else if Contains(rs[0], h) then Returned(rs[0].nodesAddrs)
    else Lookup(rs[1..], h)
  }

  /** A range that contains `h`, after ranges that do not, is the one chosen; later ranges do not matter. */
  lemma {:induction false} LookupFirstMatch(rs: seq<NodeRange>, h: int, k: nat)
    requires HexBounds(rs) && k < |rs| && |rs[k].range| >= 2 && Contains(rs[k], h)
    requires forall j :: 0 <= j < k ==> |rs[j].range| >= 2 && !Contains(rs[j], h)
    ensures Lookup(rs, h) == Returned(rs[k].nodesAddrs)
  {
    if k > 0 {
      LookupFirstMatch(rs[1..], h, k - 1);
    }
  }

  /** When no range contains `h`, the lookup gives no replicas. */
  lemma {:induction false} LookupNoMatch(rs: seq<NodeRange>, h: int)
    requires HexBounds(rs)
    requires forall j :: 0 <= j < |rs| ==> |rs[j].range| >= 2 && !Contains(rs[j], h)
    ensures Lookup(rs, h) == Returned([])
  {
    if rs != [] {
      LookupNoMatch(rs[1..], h);
    }
  }

  /**
   * Whatever the lookup returns comes from one of those two cases: `k` is the
   * first range that contains `h`, or -1 when there is none.
   */
  lemma {:induction false} LookupSound(rs: seq<NodeRange>, h: int) returns (k: int)
    requires HexBounds(rs) && Lookup(rs, h).Returned?
    ensures -1 <= k < |rs|
    ensures forall j :: 0 <= j < |rs| && (k == -1 || j < k) ==> |rs[j].range| >= 2 && !Contains(rs[j], h)
    ensures k == -1 ==> Lookup(rs, h).value == []
    ensures k >= 0 ==> |rs[k].range| >= 2 && Contains(rs[k], h) && Lookup(rs, h).value == rs[k].nodesAddrs
  {
    if rs == [] {
      k := -1;
    } else if Contains(rs[0], h) {
      k := 0;
    } else {
      var k' := LookupSound(rs[1..], h);
      k := if k' == -1 then -1 else k' + 1;
      forall j | 0 <= j < |rs| && (k == -1 || j < k)
        ensures |rs[j].range| >= 2 && !Contains(rs[j], h)
      {
        if j > 0 {
          assert rs[j] == rs[1..][j - 1];
        }
      }
    }
  }

  // ---------------------------------------------------------------------
  // Talking to the replicas
  // ---------------------------------------------------------------------

  /** What is sent to the storage node: the 32-byte digest of the id, then the id. */
  function Handler(digest: Bytes, id: Bytes): (h: Bytes)
    requires |digest| == 32
    ensures |h| == 32 + |id| && h[..32] == digest && h[32..] == id
  {
    digest + id
  }

  /** The handler determines the digest and the id it was built from. */
  lemma HandlerInjective(d1: Bytes, id1: Bytes, d2: Bytes, id2: Bytes)
    requires |d1| == 32 && |d2| == 32
    ensures Handler(d1, id1) == Handler(d2, id2) <==> d1 == d2 && id1 == id2
  {
    if Handler(d1, id1) == Handler(d2, id2) {
      assert d1 == Handler(d1, id1)[..32] && d2 == Handler(d2, id2)[..32];
      assert id1 == Handler(d1, id1)[32..] && id2 == Handler(d2, id2)[32..];
    }
  }

  /**
   * The connector's handler check passes on a gateway handler only when the
   * id has 32 bytes; for every other id the check fails, and `GetSlice`
   * goes on because the connection check overwrites that error.
   */
  lemma GatewayHandlerCheck(digest: Bytes, id: Bytes)
    requires |digest| == 32
    ensures ValidateHandler(Handler(digest, id)).None? <==> |id| == 32
  {
  }

  /** The reply a replica gives to the gateway's GET of `handler`. */
  function GetReply(addr: Bytes, handler: Bytes, transport: HttpRequest -> HttpReply): HttpReply {
    transport(Get(GetUrl(NewBasicConnection(addr, STRONG_CONSISTENCY), handler)))
  }

  predicate GetSucceeds(addr: Bytes, handler: Bytes, transport: HttpRequest -> HttpReply) {
    var reply := GetReply(addr, handler, transport);
    reply.Reply? && reply.status == 200 && reply.body.Some?
  }

  /** The reply a replica gives to the gateway's POST of `data`. */
  function PutReply(addr: Bytes, data: Bytes, transport: HttpRequest -> HttpReply): HttpReply {
    transport(Post(PutUrl(NewBasicConnection(addr, STRONG_CONSISTENCY)), OCTET_STREAM, data))
  }

  predicate PutSucceeds(addr: Bytes, data: Bytes, transport: HttpRequest -> HttpReply) {
    var reply := PutReply(addr, data, transport);
    reply.Reply? && reply.status == 200
  }

  class GatewayController {
    var nodemap: Nodemap

    /** The node map's bounds are hex numerals. */
    predicate Valid()
      reads this
    {
      HexBounds(nodemap.nodesRanges)
    }

    constructor (nodemap: Nodemap)
      requires HexBounds(nodemap.nodesRanges)
      ensures Valid() && this.nodemap == nodemap
    {
      this.nodemap := nodemap;
    }

    /** `getStorageNodeAddr`: the replicas of the first range that contains the digest, read as a big-endian number. */
    method GetStorageNodeAddr(hash: Bytes) returns (r: Outcome<seq<Bytes>>)
      requires Valid()
      ensures r == Lookup(nodemap.nodesRanges, BeValue(hash))
    {
      var now := BeValue(hash);
      var rs := nodemap.nodesRanges;
      var nodeAddr: seq<Bytes> := [];
      var i := 0;
      while i < |rs|
        invariant 0 <= i <= |rs|
        invariant Lookup(rs, now) == Lookup(rs[i..], now)
      {
        assert rs[i..][1..] == rs[i + 1..];
        if |rs[i].range| < 2 {
          return Aborted;
        }
        if Contains(rs[i], now) {
          nodeAddr := rs[i].nodesAddrs;
          break;
        }
        i := i + 1;
      }
      return Returned(nodeAddr);
    }

    /**
     * `getId`: ask the replicas of the id's range in order for the slice and
     * answer 200 with the first slice received; replicas after it are not
     * contacted. With no replicas the answer is 404; when every replica
     * fails, 502. An empty replica address ends the process.
     */
    method GetId(id: Bytes, digest: Bytes, transport: HttpRequest -> HttpReply)
      returns (r: Outcome<GinReply>, contacted: seq<Bytes>)
      requires Valid() && |digest| == 32
      ensures Lookup(nodemap.nodesRanges, BeValue(digest)).Aborted? ==> r.Aborted? && contacted == []
      ensures Lookup(nodemap.nodesRanges, BeValue(digest)).Returned? ==>
                var addrs := Lookup(nodemap.nodesRanges, BeValue(digest)).value;
                && |contacted| <= |addrs| && contacted == addrs[..|contacted|]
                && (forall j :: 0 <= j < |contacted| - 1 ==> contacted[j] != [] && !GetSucceeds(contacted[j], Handler(digest, id), transport))
                && (r.Aborted? <==> |contacted| > 0 && contacted[|contacted| - 1] == [])
                && (r.Returned? && r.value.statuses == [200] <==>
                      |contacted| > 0 && contacted[|contacted| - 1] != [] && GetSucceeds(contacted[|contacted| - 1], Handler(digest, id), transport))
                && (r.Returned? && r.value.statuses == [200] ==>
                      r.value.body == GetReply(contacted[|contacted| - 1], Handler(digest, id), transport).body.value)
                && (r.Returned? && r.value.statuses != [200] ==>
                      contacted == addrs && r.value == GinReply(if addrs == [] then [404] else [502], []))
    {
      contacted := [];
      var lookup := GetStorageNodeAddr(digest);
      if lookup.Aborted? {
        return Aborted, contacted;
      }
      var addrs := lookup.value;
      var got;
      got, contacted := GetFromReplicas(addrs, Handler(digest, id), transport);
      match got
      case Aborted => r := Aborted;
      case Returned(Some(body)) => r := Returned(GinReply([200], body));
      case Returned(None) => r := Returned(GinReply(if addrs == [] then [404] else [502], []));
    }

    /**
     * `putId`: a body of non-positive length records 502 and goes on; a body
     * that cannot be read records 502 and stops. The replicas are tried in
     * order with the body, the first success answering "Upload finished."
     * with 200; when none succeeds, 502. The status the client sees is the
     * first one recorded.
     */
    method PutId(id: Bytes, digest: Bytes, contentLength: int, bodyRead: Option<Bytes>, transport: HttpRequest -> HttpReply)
      returns (r: Outcome<GinReply>, contacted: seq<Bytes>)
      requires Valid() && |digest| == 32
      ensures bodyRead.None? ==> contacted == [] && r == Returned(GinReply(Early(contentLength) + [502], []))
      ensures bodyRead.Some? && Lookup(nodemap.nodesRanges, BeValue(digest)).Aborted? ==> r.Aborted? && contacted == []
      ensures bodyRead.Some? && Lookup(nodemap.nodesRanges, BeValue(digest)).Returned? ==>
                var addrs := Lookup(nodemap.nodesRanges, BeValue(digest)).value;
                && |contacted| <= |addrs| && contacted == addrs[..|contacted|]
                && (forall j :: 0 <= j < |contacted| - 1 ==> contacted[j] != [] && !PutSucceeds(contacted[j], bodyRead.value, transport))
                && (r.Aborted? <==> |contacted| > 0 && contacted[|contacted| - 1] == [])
                && (r.Returned? && r.value.body == UPLOAD_FINISHED <==>
                      |contacted| > 0 && contacted[|contacted| - 1] != [] && PutSucceeds(contacted[|contacted| - 1], bodyRead.value, transport))
                && (r.Returned? && r.value.body == UPLOAD_FINISHED ==> r.value.statuses == Early(contentLength) + [200])
                && (r.Returned? && r.value.body != UPLOAD_FINISHED ==>
                      contacted == addrs && r.value == GinReply(Early(contentLength) + [502], []))
    {
      contacted := [];
      var statuses: seq<nat> := [];
      if contentLength <= 0 {
        statuses := statuses + [502];
      }
      assert statuses == Early(contentLength);
      if bodyRead.None? {
        statuses := statuses + [502];
        return Returned(GinReply(statuses, [])), contacted;
      }
      var data := bodyRead.value;
      var res := Handler(digest, id);
      var lookup := GetStorageNodeAddr(digest);
      if lookup.Aborted? {
        return Aborted, contacted;
      }
      r, contacted := PutAnswer(lookup.value, res, data, statuses, transport);
    }
  }

  /**
   * The end of `putId` once the body is read and the replicas are known:
   * the replica loop, then 200 with "Upload finished." after the statuses
   * recorded so far, or 502 when no replica accepted the body.
   */
  method PutAnswer(addrs: seq<Bytes>, handler: Bytes, data: Bytes, statuses: seq<nat>, transport: HttpRequest -> HttpReply)
    returns (r: Outcome<GinReply>, contacted: seq<Bytes>)
    ensures |contacted| <= |addrs| && contacted == addrs[..|contacted|]
    ensures forall j :: 0 <= j < |contacted| - 1 ==> contacted[j] != [] && !PutSucceeds(contacted[j], data, transport)
    ensures r.Aborted? <==> |contacted| > 0 && contacted[|contacted| - 1] == []
    ensures r.Returned? && r.value.body == UPLOAD_FINISHED <==>
              |contacted| > 0 && contacted[|contacted| - 1] != [] && PutSucceeds(contacted[|contacted| - 1], data, transport)
    ensures r.Returned? && r.value.body == UPLOAD_FINISHED ==> r.value.statuses == statuses + [200]
    ensures r.Returned? && r.value.body != UPLOAD_FINISHED ==> contacted == addrs && r.value == GinReply(statuses + [502], [])
  {
    var put;
    put, contacted := PutToReplicas(addrs, handler, data, transport);
    match put {
      case Aborted =>
        r := Aborted;
      case Returned(true) =>
        r := Returned(GinReply(statuses + [200], UPLOAD_FINISHED));
      case Returned(false) =>
        r := Returned(GinReply(statuses + [502], []));
        assert UPLOAD_FINISHED != [];
    }
  }

  /**
   * The replica loop of `getId`: each replica in order is asked for the
   * slice until one answers with it; an empty address ends the process.
   * The result is the slice received, or None when every replica failed.
   */
  method GetFromReplicas(addrs: seq<Bytes>, handler: Bytes, transport: HttpRequest -> HttpReply)
    returns (r: Outcome<Option<Bytes>>, contacted: seq<Bytes>)
    ensures |contacted| <= |addrs| && contacted == addrs[..|contacted|]
    ensures forall j :: 0 <= j < |contacted| - 1 ==> contacted[j] != [] && !GetSucceeds(contacted[j], handler, transport)
    ensures r.Aborted? <==> |contacted| > 0 && contacted[|contacted| - 1] == []
    ensures r.Returned? && r.value.Some? <==>
              |contacted| > 0 && contacted[|contacted| - 1] != [] && GetSucceeds(contacted[|contacted| - 1], handler, transport)
    ensures r.Returned? && r.value.Some? ==> r.value.value == GetReply(contacted[|contacted| - 1], handler, transport).body.value
    ensures r == Returned(None) ==> contacted == addrs
  {
    contacted := [];
    var i := 0;
    while i < |addrs|
      invariant 0 <= i <= |addrs|
      invariant contacted == addrs[..i]
      invariant forall j :: 0 <= j < i ==> addrs[j] != [] && !GetSucceeds(addrs[j], handler, transport)
    {
      var conn := NewBasicConnection(addrs[i], STRONG_CONSISTENCY);
      contacted := contacted + [addrs[i]];
      assert contacted == addrs[..i + 1];
      var got := GetSlice(conn, handler, transport);
      if got.Aborted? {
        return Aborted, contacted;
      }
      if got.value.Done? {
        return Returned(Some(got.value.value)), contacted;
      }
      i := i + 1;
    }
    assert contacted == addrs;
    r := Returned(None);
  }

  /**
   * The replica loop of `putId`: the body is posted to each replica in
   * order until one accepts it; an empty address ends the process. The
   * result says whether a replica accepted it.
   */
  method PutToReplicas(addrs: seq<Bytes>, handler: Bytes, data: Bytes, transport: HttpRequest -> HttpReply)
    returns (r: Outcome<bool>, contacted: seq<Bytes>)
    ensures |contacted| <= |addrs| && contacted == addrs[..|contacted|]
    ensures forall j :: 0 <= j < |contacted| - 1 ==> contacted[j] != [] && !PutSucceeds(contacted[j], data, transport)
    ensures r.Aborted? <==> |contacted| > 0 && contacted[|contacted| - 1] == []
    ensures r == Returned(true) <==>
              |contacted| > 0 && contacted[|contacted| - 1] != [] && PutSucceeds(contacted[|contacted| - 1], data, transport)
    ensures r == Returned(false) ==> contacted == addrs
  {
    contacted := [];
    var i := 0;
    while i < |addrs|
      invariant 0 <= i <= |addrs|
      invariant contacted == addrs[..i]
      invariant forall j :: 0 <= j < i ==> addrs[j] != [] && !PutSucceeds(addrs[j], data, transport)
    {
      var conn := NewBasicConnection(addrs[i], STRONG_CONSISTENCY);
      contacted := contacted + [addrs[i]];
      assert contacted == addrs[..i + 1];
      var put := PutSlice(conn, handler, data, transport);
      if put.Aborted? {
        return Aborted, contacted;
      }
      if put.value.Done? {
        return Returned(true), contacted;
      }
      i := i + 1;
    }
    assert contacted == addrs;
    r := Returned(false);
  }

  /** The status recorded before the body is read: 502 for a non-positive content length. */
  function Early(contentLength: int): (s: seq<nat>)
    ensures contentLength <= 0 <==> s == [502]
    ensures contentLength > 0 <==> s == []
  {
    if contentLength <= 0 then [502] else []
  }
}
