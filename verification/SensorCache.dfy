/** The gateway's snapshot of the car and where each decoded signal goes in it. */
module SensorCache {
  import opened Wrappers
  import opened BitWalk
  import opened TelemetryTable
  import opened GatewayConfig

  datatype Snapshot = Snapshot(repeated: map<string, seq<real>>, scalars: map<string, real>, flags: map<string, bool>)

  // ---- storing values -------------------------------------------------------

  function Zeros(n: nat): seq<real> {
    seq(n, _ => 0.0)
  }

  /** `set_vec_index`: grows the vector with zeros to reach index `i`. */
  function WithIndex(v: seq<real>, i: nat, x: real): (r: seq<real>)
    ensures |r| == (if |v| <= i then i + 1 else |v|) && r[i] == x
    ensures forall k :: 0 <= k < |r| && k != i ==> r[k] == if k < |v| then v[k] else 0.0
  {
    (if |v| <= i then v + Zeros(i + 1 - |v|) else v)[i := x]
  }

  /** Element of a repeated field; absent elements read as 0. */
  function Element(d: Snapshot, field: string, i: nat): real {
    if field in d.repeated && i < |d.repeated[field]| then d.repeated[field][i] else 0.0
  }

  function IndexOf(s: SignalConfig, field: string): Option<nat> {
    if s.binding.Some? && s.binding.value.repeated && s.binding.value.field == field
    then s.binding.value.fieldIndex else None
  }

  function RepeatedIndex(s: SignalConfig): Option<nat> {
    if s.binding.Some? && s.binding.value.repeated then s.binding.value.fieldIndex else None
  }

  /** `repeated_field_span`: one more than the largest repeated index in the packet. */
  function Span(signals: seq<SignalConfig>): (r: nat)
    ensures forall k :: 0 <= k < |signals| && RepeatedIndex(signals[k]).Some? ==> RepeatedIndex(signals[k]).value < r
    ensures r > 0 ==> exists k :: 0 <= k < |signals| && RepeatedIndex(signals[k]) == Some(r - 1)
  {
    if signals == [] then 0
    else
      var r := Span(signals[1..]);
      assert forall k :: 0 < k < |signals| ==> signals[k] == signals[1..][k - 1];
      match RepeatedIndex(signals[0])
      case Some(i) => if i + 1 >= r then i + 1 else r
      case None => r
  }

  predicate Decodable(s: SignalConfig) {
    s.entry.Entry? && (s.entry.conv.BitfieldConv? || s.entry.conv.width <= 8 * s.entry.length)
  }

  function Scaled(raw: int, scale: real): real { raw as real * scale }

  /** The physical value of a signal, if the payload holds it. */
  function Physical(s: SignalConfig, payload: seq<uint8>): Option<real>
    requires Decodable(s)
  {
    match GatewayRaw(s.entry, payload)
    case Some(raw) => Some(Scaled(raw, s.entry.precision))
    case None => None
  }

  function StoreFlags(d: Snapshot, s: SignalConfig, payload: seq<uint8>, k: nat): Snapshot
    requires Decodable(s) && k <= |s.flags|
  {
    if k == 0 then d
    else
      var before := StoreFlags(d, s, payload, k - 1);
      match GatewayFlag(s.entry, s.flags[k - 1].bitIndex, payload)
      case Some(b) => before.(flags := before.flags[s.flags[k - 1].field := b])
      case None => before
  }

  /** One signal of one frame goes into the snapshot. */
  function Store(d: Snapshot, s: SignalConfig, payload: seq<uint8>, offset: nat): Snapshot
    requires Decodable(s)
  {
    if s.entry.conv.BitfieldConv? then StoreFlags(d, s, payload, |s.flags|)
    else
      match (Physical(s, payload), s.binding)
      case (Some(x), Some(b)) =>
        if !b.repeated then d.(scalars := d.scalars[b.field := x])
        else if b.fieldIndex.None? then d
        else
          var v := if b.field in d.repeated then d.repeated[b.field] else [];
          d.(repeated := d.repeated[b.field := WithIndex(v, b.fieldIndex.value + offset, x)])
      case _ => d
  }

  function StoreAll(d: Snapshot, signals: seq<SignalConfig>, payload: seq<uint8>, offset: nat, k: nat): Snapshot
    requires k <= |signals| && forall i :: 0 <= i < |signals| ==> Decodable(signals[i])
  {
    if k == 0 then d else Store(StoreAll(d, signals, payload, offset, k - 1), signals[k - 1], payload, offset)
  }

  predicate WellFormed(c: PacketConfig) {
    forall i :: 0 <= i < |c.signals| ==> Decodable(c.signals[i])
  }

  /** The effect of one frame. */
  function Processed(d: Snapshot, payload: seq<uint8>, c: PacketConfig, series: nat): Snapshot
    requires WellFormed(c)
  {
    StoreAll(d, c.signals, payload, series * Span(c.signals), |c.signals|)
  }

  class SensorData {
    var repeated: map<string, seq<real>>
    var scalars: map<string, real>
    var flags: map<string, bool>

    function Contents(): Snapshot
      reads this
    {
      Snapshot(repeated, scalars, flags)
    }

    constructor ()
      ensures Contents() == Snapshot(map[], map[], map[])
    {
      repeated, scalars, flags := map[], map[], map[];
    }

    method SetVecIndex(field: string, i: nat, x: real)
      modifies this
      ensures scalars == old(scalars) && flags == old(flags)
      ensures var v := if field in old(repeated) then old(repeated)[field] else [];
        repeated == old(repeated)[field := WithIndex(v, i, x)]
    {
      var v := if field in repeated then repeated[field] else [];
      if |v| <= i {
        v := v + Zeros(i + 1 - |v|);
      }
      repeated := repeated[field := v[i := x]];
    }

    method ProcessRawData(payload: seq<uint8>, c: PacketConfig, series: nat)
      requires WellFormed(c)
      modifies this
      ensures Contents() == Processed(old(Contents()), payload, c, series)
    {
      var span := Span(c.signals);
      for k := 0 to |c.signals|
        invariant Contents() == StoreAll(old(Contents()), c.signals, payload, series * span, k)
      {
        StoreSignal(c.signals[k], payload, series * span);
      }
    }

    method StoreSignal(s: SignalConfig, payload: seq<uint8>, offset: nat)
      requires Decodable(s)
      modifies this
      ensures Contents() == Store(old(Contents()), s, payload, offset)
    {
      if s.entry.startByte + s.entry.length > |payload| {
        NothingStored(Contents(), s, payload, offset);
        return;
      }
      if s.entry.conv.BitfieldConv? {
        ProcessFlags(s, payload);
        return;
      }
      var value := Physical(s, payload);
      if value.None? || s.binding.None? {
        return;
      }
      var b := s.binding.value;
      if !b.repeated {
        scalars := scalars[b.field := value.value];
      } else if b.fieldIndex.Some? {
        SetVecIndex(b.field, b.fieldIndex.value + offset, value.value);
      }
    }

    method ProcessFlags(s: SignalConfig, payload: seq<uint8>)
      requires Decodable(s)
      modifies this
      ensures Contents() == StoreFlags(old(Contents()), s, payload, |s.flags|)
    {
      for k := 0 to |s.flags|
        invariant Contents() == StoreFlags(old(Contents()), s, payload, k)
      {
        var set_ := GatewayFlag(s.entry, s.flags[k].bitIndex, payload);
        if set_.Some? {
          flags := flags[s.flags[k].field := set_.value];
        }
      }
    }
  }

  lemma NothingStored(d: Snapshot, s: SignalConfig, payload: seq<uint8>, offset: nat)
    requires Decodable(s) && s.entry.startByte + s.entry.length > |payload|
    ensures Store(d, s, payload, offset) == d
  {
    forall k: nat | k <= |s.flags| ensures StoreFlags(d, s, payload, k) == d {
      NoFlagStored(d, s, payload, k);
    }
  }

  lemma {:induction false} NoFlagStored(d: Snapshot, s: SignalConfig, payload: seq<uint8>, k: nat)
    requires Decodable(s) && s.entry.startByte + s.entry.length > |payload| && k <= |s.flags|
    ensures StoreFlags(d, s, payload, k) == d
  {
    if k > 0 {
      NoFlagStored(d, s, payload, k - 1);
    }
  }
}
