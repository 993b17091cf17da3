/** Which packet a received CAN ID belongs to, and the board that sent it. */
module PacketLookup {
  import opened Wrappers
  import opened Numbers
  import opened GatewayConfig

  // ---- which packet an ID belongs to ------------------------------------------

  function SaturatingAdd(a: nat, b: nat): nat {
    if a + b > U32_MAX then U32_MAX else a + b
  }

  predicate InSeries(c: PacketConfig, id: nat) {
    c.packetId <= id < SaturatingAdd(c.packetId, Quantity(c))
  }

  type PacketMap = m: map<nat, PacketConfig> | forall id :: id in m ==> m[id].packetId == id

  datatype Resolution = Unknown | Found(config: PacketConfig, series: nat)

  /** The answer of the scan for one iteration order of the map's keys. */
  function FirstCover(order: seq<nat>, m: PacketMap, id: nat): Resolution
    requires forall k :: k in order ==> k in m
  {
    if order == [] then Unknown
    else if InSeries(m[order[0]], id) then Found(m[order[0]], id - order[0])
    else FirstCover(order[1..], m, id)
  }

  function Resolved(order: seq<nat>, m: PacketMap, id: nat): Resolution
    requires forall k :: k in order ==> k in m
  {
    if id in m then Found(m[id], 0) else FirstCover(order, m, id)
  }

  /** `order` is how the hash map happens to enumerate its values. */
  method ResolvePacketConfig(m: PacketMap, order: seq<nat>, id: nat) returns (r: Resolution)
    requires forall k :: k in order ==> k in m
    ensures r == Resolved(order, m, id)
  {
    if id in m {
      return Found(m[id], 0);
    }
    for k := 0 to |order|
      invariant FirstCover(order, m, id) == FirstCover(order[k..], m, id)
    {
      var c := m[order[k]];
      assert order[k..][1..] == order[k + 1..];
      var end := SaturatingAdd(c.packetId, Quantity(c));
      if c.packetId <= id && id < end {
        return Found(c, id - c.packetId);
      }
    }
    assert order[|order|..] == [];
    r := Unknown;
  }

  ghost predicate Lists(order: seq<nat>, m: PacketMap) {
    && (forall k :: k in order <==> k in m)
    && (forall i, j :: 0 <= i < j < |order| ==> order[i] != order[j])
  }

  ghost predicate AtMostOneCover(m: PacketMap, id: nat) {
    forall a, b :: a in m && b in m && InSeries(m[a], id) && InSeries(m[b], id) ==> a == b
  }

  lemma {:induction false} FirstCoverMeaning(order: seq<nat>, m: PacketMap, id: nat)
    requires forall k :: k in order ==> k in m
    ensures var r := FirstCover(order, m, id);
      if r.Found?
      then r.config.packetId in order && m[r.config.packetId] == r.config && InSeries(r.config, id) &&
        r.series == id - r.config.packetId
      else forall k :: k in order ==> !InSeries(m[k], id)
  {
    if order != [] {
      FirstCoverMeaning(order[1..], m, id);
    }
  }

  ghost predicate SameInEveryOrder(m: PacketMap, id: nat) {
    forall p: seq<nat>, q: seq<nat> :: Lists(p, m) && Lists(q, m) ==> Resolved(p, m, id) == Resolved(q, m, id)
  }

  /** The answer is the same for every iteration order exactly when the ID is a base ID
      or lies in at most one series. */
  lemma OrderIndependent(m: PacketMap, id: nat)
    ensures SameInEveryOrder(m, id) <==> id in m || AtMostOneCover(m, id)
  {
    if id in m || AtMostOneCover(m, id) {
      forall p: seq<nat>, q: seq<nat> | Lists(p, m) && Lists(q, m) ensures Resolved(p, m, id) == Resolved(q, m, id) {
        AnyTwoOrdersAgree(m, id, p, q);
      }
    } else {
      var p, q := TwoOrdersDisagree(m, id);
    }
  }

  lemma AnyTwoOrdersAgree(m: PacketMap, id: nat, p: seq<nat>, q: seq<nat>)
    requires id in m || AtMostOneCover(m, id)
    requires Lists(p, m) && Lists(q, m)
    ensures Resolved(p, m, id) == Resolved(q, m, id)
  {
    FirstCoverMeaning(p, m, id);
    FirstCoverMeaning(q, m, id);
  }

  lemma TwoOrdersDisagree(m: PacketMap, id: nat) returns (p: seq<nat>, q: seq<nat>)
    requires id !in m && !AtMostOneCover(m, id)
    ensures Lists(p, m) && Lists(q, m) && Resolved(p, m, id) != Resolved(q, m, id)
  {
    var a, b :| a in m && b in m && InSeries(m[a], id) && InSeries(m[b], id) && a != b;
    p, q := [a] + Listing(m.Keys - {a}), [b] + Listing(m.Keys - {b});
    FirstListed(m, id, a);
    FirstListed(m, id, b);
  }

  /** An order that starts with a covering packet gives that packet. */
  lemma FirstListed(m: PacketMap, id: nat, a: nat)
    requires id !in m && a in m && InSeries(m[a], id)
    ensures Lists([a] + Listing(m.Keys - {a}), m)
    ensures Resolved([a] + Listing(m.Keys - {a}), m, id) == Found(m[a], id - a)
  {
    ListingLists(m.Keys - {a});
    assert ([a] + Listing(m.Keys - {a}))[0] == a;
  }

  ghost function Listing(s: set<nat>): seq<nat> {
    if s == {} then [] else var x :| x in s; [x] + Listing(s - {x})
  }

  lemma {:induction false} ListingLists(s: set<nat>)
    ensures forall x :: x in Listing(s) <==> x in s
    ensures forall i, j :: 0 <= i < j < |Listing(s)| ==> Listing(s)[i] != Listing(s)[j]
  {
    if s != {} {
      var x :| x in s && Listing(s) == [x] + Listing(s - {x});
      ListingLists(s - {x});
    }
  }

  predicate Apart(a: PacketConfig, b: PacketConfig) {
    a.packetId + Quantity(a) <= b.packetId || b.packetId + Quantity(b) <= a.packetId
  }

  ghost predicate SeriesDisjoint(packets: seq<PacketConfig>) {
    forall i, j :: 0 <= i < j < |packets| ==> Apart(packets[i], packets[j])
  }

  predicate Spans(c: PacketConfig, id: nat) {
    c.packetId <= id < c.packetId + Quantity(c)
  }

  lemma SameOwner(packets: seq<PacketConfig>, i: nat, k: nat, id: nat)
    requires SeriesDisjoint(packets) && i < |packets| && k < |packets|
    requires Spans(packets[i], id) && Spans(packets[k], id)
    ensures i == k
  {
  }

  /** Every ID of the packet fits 32 bits without saturation. */
  predicate Unsaturated(c: PacketConfig) {
    c.packetId + Quantity(c) <= U32_MAX
  }

  /** The map from base ID to packet; the last packet of an ID wins. */
  function MapOf(packets: seq<PacketConfig>): PacketMap {
    if packets == [] then map[]
    else var c := packets[|packets| - 1]; MapOf(packets[..|packets| - 1])[c.packetId := c]
  }

  lemma {:induction false} MapOfEntry(packets: seq<PacketConfig>, id: nat)
    ensures id in MapOf(packets) ==>
      exists k :: 0 <= k < |packets| && packets[k] == MapOf(packets)[id] && packets[k].packetId == id
    ensures id !in MapOf(packets) ==> forall k :: 0 <= k < |packets| ==> packets[k].packetId != id
  {
    if packets != [] {
      var c, rest := packets[|packets| - 1], packets[..|packets| - 1];
      MapOfEntry(rest, id);
      assert forall k :: 0 <= k < |packets| ==> packets[k] == if k < |rest| then rest[k] else c;
      if c.packetId == id {
        assert packets[|packets| - 1] == MapOf(packets)[id];
      } else if id in MapOf(rest) {
        var k :| 0 <= k < |rest| && rest[k] == MapOf(rest)[id] && rest[k].packetId == id;
        assert packets[k] == MapOf(packets)[id];
      }
    }
  }

  /** For packets with disjoint series every order gives the packet whose series has
      the ID, and the offset in it. */
  lemma ResolvesToOwner(packets: seq<PacketConfig>, order: seq<nat>, id: nat)
    requires SeriesDisjoint(packets) && forall k :: 0 <= k < |packets| ==> Unsaturated(packets[k])
    requires Lists(order, MapOf(packets))
    ensures var r := Resolved(order, MapOf(packets), id);
      if r.Found?
      then exists k ::
        0 <= k < |packets| && packets[k] == r.config && Spans(packets[k], id) && r.series == id - packets[k].packetId
      else forall k :: 0 <= k < |packets| ==> !Spans(packets[k], id)
  {
    var m := MapOf(packets);
    var r := Resolved(order, m, id);
    FirstCoverMeaning(order, m, id);
    if r.Found? {
      MapOfEntry(packets, r.config.packetId);
      var k :| 0 <= k < |packets| && packets[k] == r.config;
      assert Unsaturated(packets[k]);
      assert Spans(packets[k], id);
    } else {
      forall k | 0 <= k < |packets| ensures !Spans(packets[k], id) {
        OwnEntry(packets, k);
        assert packets[k].packetId in order && Unsaturated(packets[k]);
      }
    }
  }

  lemma OwnEntry(packets: seq<PacketConfig>, k: nat)
    requires SeriesDisjoint(packets) && k < |packets|
    ensures packets[k].packetId in MapOf(packets) && MapOf(packets)[packets[k].packetId] == packets[k]
  {
    var id := packets[k].packetId;
    MapOfEntry(packets, id);
    var n :| 0 <= n < |packets| && packets[n] == MapOf(packets)[id] && packets[n].packetId == id;
    SameOwner(packets, n, k, id);
  }

  // ---- the precomputed source of an ID ------------------------------------------

  /** Packet `k` enters `id` into the source table. */
  predicate Enters(c: PacketConfig, id: nat) {
    c.source.Some? && exists offset :: 0 <= offset < Quantity(c) && id == SaturatingAdd(c.packetId, offset)
  }

  ghost predicate LastEntry(lookup: map<nat, string>, packets: seq<PacketConfig>) {
    && (forall id :: id in lookup <==> exists k :: 0 <= k < |packets| && Enters(packets[k], id))
    && (forall id :: id in lookup ==>
      exists k :: 0 <= k < |packets| && EnteredLast(packets, k, id) && lookup[id] == packets[k].source.value)
  }

  ghost predicate EnteredLast(packets: seq<PacketConfig>, k: nat, id: nat)
    requires k < |packets|
  {
    Enters(packets[k], id) && forall n :: k < n < |packets| ==> !Enters(packets[n], id)
  }

  method BuildPacketSourceLookup(packets: seq<PacketConfig>) returns (lookup: map<nat, string>)
    ensures LastEntry(lookup, packets)
  {
    lookup := map[];
    for k := 0 to |packets|
      invariant LastEntry(lookup, packets[..k])
    {
      assert packets[..k + 1] == packets[..k] + [packets[k]];
      ghost var was := lookup;
      lookup := EnterPacket(lookup, packets[k]);
      EntriesExtend(packets[..k], packets[k], was, lookup);
    }
    assert packets[..|packets|] == packets;
  }

  method EnterPacket(was: map<nat, string>, c: PacketConfig) returns (lookup: map<nat, string>)
    ensures forall id :: id in lookup <==> id in was || Enters(c, id)
    ensures forall id :: id in lookup ==> lookup[id] == if Enters(c, id) then c.source.value else was[id]
  {
    lookup := was;
    if c.source.Some? {
      for offset := 0 to Quantity(c)
        invariant forall id :: id in lookup <==> id in was || EntersBelow(c, id, offset)
        invariant forall id :: id in lookup ==>
          lookup[id] == if EntersBelow(c, id, offset) then c.source.value else was[id]
      {
        lookup := lookup[SaturatingAdd(c.packetId, offset) := c.source.value];
      }
    }
  }

  /** One of the packet's first `n` frames has the ID. */
  ghost predicate EntersBelow(c: PacketConfig, id: nat, n: nat) {
    exists offset :: 0 <= offset < n && id == SaturatingAdd(c.packetId, offset)
  }

  lemma EntriesExtend(before: seq<PacketConfig>, c: PacketConfig, was: map<nat, string>, lookup: map<nat, string>)
    requires LastEntry(was, before)
    requires forall id :: id in lookup <==> id in was || Enters(c, id)
    requires forall id :: id in lookup ==> lookup[id] == if Enters(c, id) then c.source.value else was[id]
    ensures LastEntry(lookup, before + [c])
  {
    var all := before + [c];
    forall id
      ensures id in lookup <==> exists k :: 0 <= k < |all| && Enters(all[k], id)
      ensures id in lookup ==>
        exists k :: 0 <= k < |all| && EnteredLast(all, k, id) && lookup[id] == all[k].source.value
    {
      if Enters(c, id) {
        assert EnteredLast(all, |before|, id);
      } else if id in was {
        var k :| 0 <= k < |before| && EnteredLast(before, k, id) && was[id] == before[k].source.value;
        assert EnteredLast(all, k, id);
      }
    }
  }

  lemma EntersIffSpans(c: PacketConfig, id: nat)
    requires Unsaturated(c)
    ensures Enters(c, id) <==> c.source.Some? && Spans(c, id)
  {
    if Spans(c, id) {
      assert id == SaturatingAdd(c.packetId, id - c.packetId);
    }
  }

  /** The table agrees with the scan for every ID. */
  lemma LookupAgrees(packets: seq<PacketConfig>, order: seq<nat>, lookup: map<nat, string>, id: nat)
    requires SeriesDisjoint(packets) && forall k :: 0 <= k < |packets| ==> Unsaturated(packets[k])
    requires Lists(order, MapOf(packets)) && LastEntry(lookup, packets)
    ensures (if id in lookup then Some(lookup[id]) else None) ==
      var r := Resolved(order, MapOf(packets), id);
      if r.Found? then r.config.source else None
  {
    ResolvesToOwner(packets, order, id);
    SourceOfOwner(packets, lookup, Resolved(order, MapOf(packets), id), id);
  }

  ghost predicate Owner(packets: seq<PacketConfig>, r: Resolution, id: nat) {
    if r.Found? then exists k :: 0 <= k < |packets| && packets[k] == r.config && Spans(packets[k], id)
    else forall k :: 0 <= k < |packets| ==> !Spans(packets[k], id)
  }

  lemma SourceOfOwner(packets: seq<PacketConfig>, lookup: map<nat, string>, r: Resolution, id: nat)
    requires SeriesDisjoint(packets) && forall k :: 0 <= k < |packets| ==> Unsaturated(packets[k])
    requires LastEntry(lookup, packets) && Owner(packets, r, id)
    ensures (if id in lookup then Some(lookup[id]) else None) == if r.Found? then r.config.source else None
  {
    if id in lookup {
      var k :| 0 <= k < |packets| && EnteredLast(packets, k, id) && lookup[id] == packets[k].source.value;
      EntersIffSpans(packets[k], id);
      assert r.Found?;
      var n :| 0 <= n < |packets| && packets[n] == r.config && Spans(packets[n], id);
      SameOwner(packets, n, k, id);
    } else if r.Found? {
      var n :| 0 <= n < |packets| && packets[n] == r.config && Spans(packets[n], id);
      EntersIffSpans(packets[n], id);
    }
  }
}
