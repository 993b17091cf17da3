/** The packet table the gateway loads at start. */
module GatewayConfig {
  import opened Wrappers
  import opened TelemetryTable

  datatype Binding = Binding(field: string, repeated: bool, fieldIndex: Option<nat>)

  datatype FlagBinding = FlagBinding(field: string, bitIndex: nat)

  datatype SignalConfig = SignalConfig(entry: Rendered, flags: seq<FlagBinding>, binding: Option<Binding>)

  datatype PacketConfig = PacketConfig(packetId: nat, quantity: nat, source: Option<string>, signals: seq<SignalConfig>)

  function Quantity(c: PacketConfig): nat {
    if c.quantity > 1 then c.quantity else 1
  }
}
