/** CAN IDs are checked bus by bus, but the gateway keeps the packets of all buses in one
map: what the ID check leaves open. */
module BusMerge {
  import opened Wrappers
  import opened CanSpec
  import opened FrameCheck
  import opened GatewayConfig
  import opened PacketLookup

  function PacketOf(m: Message): PacketConfig {
    PacketConfig(m.canId, EffectiveQuantity(m), None, [])
  }

  function PacketsOf(messages: seq<Message>): (r: seq<PacketConfig>)
    ensures |r| == |messages| && forall k :: 0 <= k < |r| ==> r[k] == PacketOf(messages[k])
  {
    seq(|messages|, k requires 0 <= k < |messages| => PacketOf(messages[k]))
  }

  /** Messages of different buses keep to different IDs. */
  ghost predicate BusesApart(messages: seq<Message>) {
    forall i, j :: 0 <= i < j < |messages| && messages[i].bus != messages[j].bus ==>
      IdsDisjoint(messages[i], messages[j])
  }

  /** For an accepted spec the gateway's series are disjoint exactly when the buses are,
      and none reaches the saturation limit. */
  lemma MergedIffBusesApart(messages: seq<Message>)
    requires IdsAccepted(messages)
    ensures SeriesDisjoint(PacketsOf(messages)) <==> BusesApart(messages)
    ensures forall k :: 0 <= k < |messages| ==> Unsaturated(PacketsOf(messages)[k])
  {
    var packets := PacketsOf(messages);
    forall i, j | 0 <= i < j < |messages|
      ensures Apart(packets[i], packets[j]) <==> IdsDisjoint(messages[i], messages[j])
    {
    }
    if SeriesDisjoint(packets) {
      forall i, j | 0 <= i < j < |messages| ensures IdsDisjoint(messages[i], messages[j]) {
        assert Apart(packets[i], packets[j]);
      }
    }
    forall k | 0 <= k < |messages| ensures Unsaturated(packets[k]) {
      assert IdsFit(messages[k]);
    }
  }

  /** Two buses may both use an ID: the check accepts it, and only one of the packets is
      left in the gateway's map. */
  lemma SharedIdLosesPacket()
    ensures var a := Message("A", 256, 1, "Critical", 8, []); var b := Message("B", 256, 1, "Data Acq", 8, []);
      && IdsAccepted([a, b])
      && !BusesApart([a, b])
      && |PacketsOf([a, b])| == 2 && MapOf(PacketsOf([a, b])).Keys == {256}
  {
    var a, b := Message("A", 256, 1, "Critical", 8, []), Message("B", 256, 1, "Data Acq", 8, []);
    assert a.bus != b.bus by {
      assert |a.bus| != |b.bus| || a.bus[0] != b.bus[0];
    }
    var messages := [a, b];
    assert messages[0] == a && messages[1] == b;
    var packets := PacketsOf(messages);
    assert packets[..1][..0] == [];
    assert packets[..1] == [PacketOf(a)];
    assert MapOf(packets[..1]) == map[256 := PacketOf(a)];
  }
}
