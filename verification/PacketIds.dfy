/** The packet-id handshake: the server's ids fix where publishd's stream starts, and the
gateway numbers the stream from there. */
module PacketIds {
  import opened Wrappers
  import opened Numbers

  function Next(id: nat): nat { Min(id + 1, U64_MAX) }

  // ---- one handler, others interfering --------------------------------------------

  class Publishd {
    var packetId: nat
    var initialized: bool

    constructor ()
      ensures packetId == 0 && !initialized
    {
      packetId, initialized := 0, false;
    }

    /** `others` are the values other handlers publish, one between each load and the
        compare-exchange after it, while any are left. */
    method HandleServerMessage(serverId: Option<nat>, others: seq<nat>) returns (ghost used: nat)
      modifies this
      ensures used <= |others|
      ensures packetId
        == Max(Highest(old(packetId), others[..used]), if serverId.Some? then Next(serverId.value) else 0)
      ensures old(initialized) ==> initialized
      ensures initialized && !old(initialized) ==> packetId > 0
    {
      used := 0;
      if serverId.None? {
        return;
      }
      var candidate := Next(serverId.value);
      var k := 0;
      while true
        invariant used == k <= |others| && packetId == Highest(old(packetId), others[..k])
        invariant initialized == old(initialized)
        decreases |others| - k
      {
        var current := packetId;
        if candidate <= current {
          break;
        }
        if k < |others| {
          assert others[..k + 1] == others[..k] + [others[k]];
          packetId := Max(packetId, others[k]);
          k := k + 1;
          used := k;
        }
        if packetId == current {
          packetId := candidate;
          initialized := true;
          break;
        }
      }
    }
  }

  /** The largest of a start value and a sequence. */
  function Highest(start: nat, values: seq<nat>): nat {
    if values == [] then start else Max(Highest(start, values[..|values| - 1]), values[|values| - 1])
  }

  lemma {:induction false} HighestIsMaximum(start: nat, values: seq<nat>)
    ensures start <= Highest(start, values)
    ensures forall v :: v in values ==> v <= Highest(start, values)
    ensures Highest(start, values) == start || Highest(start, values) in values
  {
    if values != [] {
      HighestIsMaximum(start, values[..|values| - 1]);
      assert values == values[..|values| - 1] + [values[|values| - 1]];
    }
  }

  // ---- any interleaving of handlers ---------------------------------------------------

  /** Where a handler stands in its compare-exchange loop. */
  datatype Pc = Ready | Loaded(current: nat) | Storing | Done

  datatype Handler = Handler(candidate: nat, pc: Pc)

  datatype Shared = Shared(packetId: nat, initialized: bool, handlers: seq<Handler>)

  /** One atomic step of one handler. */
  function HandlerStep(s: Shared, i: nat): Shared
    requires i < |s.handlers|
  {
    var h := s.handlers[i];
    match h.pc
    case Ready =>
      s.(handlers := s.handlers[i := h.(pc := if h.candidate <= s.packetId then Done else Loaded(s.packetId))])
    case Loaded(current) =>
      if s.packetId == current
      then s.(packetId := h.candidate, handlers := s.handlers[i := h.(pc := Storing)])
      else s.(handlers := s.handlers[i := h.(pc := Ready)])
    case Storing => s.(initialized := true, handlers := s.handlers[i := h.(pc := Done)])
    case Done => s
  }

  function Interleaved(s: Shared, schedule: seq<nat>): Shared {
    if schedule == [] then s
    else
      var prior, i := Interleaved(s, schedule[..|schedule| - 1]), schedule[|schedule| - 1];
      if i < |prior.handlers| then HandlerStep(prior, i) else prior
  }

  /** The server's messages, not yet handled, with the stored id `start`. */
  function Started(start: nat, serverIds: seq<nat>): Shared {
    Shared(start, false, seq(|serverIds|, i requires 0 <= i < |serverIds| => Handler(Next(serverIds[i]), Ready)))
  }

  function Candidates(s: Shared): seq<nat> {
    seq(|s.handlers|, i requires 0 <= i < |s.handlers| => s.handlers[i].candidate)
  }

  ghost predicate Settling(s: Shared, start: nat, candidates: seq<nat>) {
    && Candidates(s) == candidates
    && start <= s.packetId && (s.packetId == start || s.packetId in candidates)
    && (forall i :: 0 <= i < |s.handlers| ==>
          match s.handlers[i].pc
          case Loaded(current) => start <= current < s.handlers[i].candidate && current <= s.packetId
          case Ready => true
          case Storing => start < s.handlers[i].candidate <= s.packetId
          case Done => s.handlers[i].candidate <= s.packetId)
    && (s.packetId > start ==> s.initialized || exists i :: 0 <= i < |s.handlers| && s.handlers[i].pc.Storing?)
    && (s.initialized ==> s.packetId > start)
  }

  lemma StepSettles(s: Shared, start: nat, candidates: seq<nat>, i: nat)
    requires Settling(s, start, candidates) && i < |s.handlers|
    ensures Settling(HandlerStep(s, i), start, candidates)
    ensures s.packetId <= HandlerStep(s, i).packetId
  {
    var t := HandlerStep(s, i);
    assert Candidates(s)[i] == s.handlers[i].candidate;
    assert Candidates(t) == Candidates(s);
    assert s.handlers[i].candidate in candidates;
    if t.packetId > start && !t.initialized {
      if s.handlers[i].pc.Loaded? && s.packetId == s.handlers[i].pc.current {
        assert t.handlers[i].pc.Storing?;
      } else {
        var j :| 0 <= j < |s.handlers| && s.handlers[j].pc.Storing?;
        assert t.handlers[j].pc.Storing?;
      }
    }
  }

  /** Under any interleaving the stored id only grows and stays one of the candidates. */
  lemma {:induction false} IdsOnlyGrow(start: nat, serverIds: seq<nat>, schedule: seq<nat>)
    ensures Settling(Interleaved(Started(start, serverIds), schedule), start, Candidates(Started(start, serverIds)))
    ensures schedule != [] ==>
      Interleaved(Started(start, serverIds), schedule[..|schedule| - 1]).packetId
        <= Interleaved(Started(start, serverIds), schedule).packetId
  {
    if schedule != [] {
      var prior := schedule[..|schedule| - 1];
      IdsOnlyGrow(start, serverIds, prior);
      var s := Interleaved(Started(start, serverIds), prior);
      if schedule[|schedule| - 1] < |s.handlers| {
        StepSettles(s, start, Candidates(Started(start, serverIds)), schedule[|schedule| - 1]);
      }
    }
  }

  ghost predicate AllDone(s: Shared) {
    forall i :: 0 <= i < |s.handlers| ==> s.handlers[i].pc.Done?
  }

  /** When all handlers are done the stored id is the maximum of its start value and
      every server id plus one, saturated, and the handshake is complete exactly if it
      moved. */
  lemma SettlesAtMaximum(start: nat, serverIds: seq<nat>, schedule: seq<nat>)
    requires AllDone(Interleaved(Started(start, serverIds), schedule))
    ensures var s := Interleaved(Started(start, serverIds), schedule);
      && s.packetId == Highest(start, Candidates(Started(start, serverIds)))
      && (s.initialized <==> s.packetId > start)
      && start <= s.packetId
      && (forall i :: 0 <= i < |serverIds| ==> Min(serverIds[i] + 1, U64_MAX) <= s.packetId)
      && (s.packetId == start || exists i :: 0 <= i < |serverIds| && s.packetId == Min(serverIds[i] + 1, U64_MAX))
  {
    var candidates := Candidates(Started(start, serverIds));
    var s := Interleaved(Started(start, serverIds), schedule);
    IdsOnlyGrow(start, serverIds, schedule);
    HighestIsMaximum(start, candidates);
    assert forall i :: 0 <= i < |serverIds| ==>
      candidates[i] == Min(serverIds[i] + 1, U64_MAX) && candidates[i] in candidates;
    forall v | v in candidates ensures v <= s.packetId {
      var i :| 0 <= i < |candidates| && candidates[i] == v;
      assert Candidates(s)[i] == s.handlers[i].candidate;
    }
  }

  // ---- the gated stream -----------------------------------------------------------------

  /** One publishing cycle: what the start file says, and which publishd clients take
      the frame. */
  datatype Cycle = Cycle(startFile: Option<nat>, writes: seq<bool>)

  datatype Stream = Stream(nextId: nat, gate: Option<nat>)

  datatype Output = Output(mainId: nat, publishdId: Option<nat>, delivered: bool)

  function Encoded(id: nat): nat { Min(id, I64_MAX) }

  predicate Taken(c: Cycle) { exists i :: 0 <= i < |c.writes| && c.writes[i] }

  function Opened(gate: Option<nat>, c: Cycle): Option<nat> {
    if gate.None? && c.startFile.Some? then Some(Max(c.startFile.value, 1)) else gate
  }

  /** The id for publishd is fixed before the start file is read, so the cycle that opens
      the gate sends nothing to publishd; an id is spent only when some client took it. */
  function Cycled(s: Stream, c: Cycle): (Stream, Output) {
    var out := Output(Encoded(s.nextId),
      if s.gate.Some? then Some(Encoded(s.gate.value)) else None,
      s.gate.Some? && Taken(c));
    var gate := Opened(s.gate, c);
    (Stream(Next(s.nextId), if out.delivered then Some(Next(s.gate.value)) else gate), out)
  }

  class IpcServer {
    var nextPacketId: nat
    var publishdNextPacketId: Option<nat>

    function Contents(): Stream
      reads this
    {
      Stream(nextPacketId, publishdNextPacketId)
    }

    constructor (initial: nat)
      ensures Contents() == Stream(Max(initial, 1), None)
    {
      nextPacketId, publishdNextPacketId := Max(initial, 1), None;
    }

    method RunCycle(c: Cycle) returns (out: Output)
      modifies this
      ensures (Contents(), out) == Cycled(old(Contents()), c)
    {
      var idForCycle := publishdNextPacketId;
      var mainId := Encoded(nextPacketId);
      var publishdId := if idForCycle.Some? then Some(Encoded(idForCycle.value)) else None;
      nextPacketId := Next(nextPacketId);
      if publishdNextPacketId.None? && c.startFile.Some? {
        publishdNextPacketId := Some(Max(c.startFile.value, 1));
      }
      var sent := false;
      if idForCycle.Some? {
        for i := 0 to |c.writes|
          invariant sent == exists k :: 0 <= k < i && c.writes[k]
        {
          if c.writes[i] {
            sent := true;
          }
        }
        if sent {
          publishdNextPacketId := Some(Next(idForCycle.value));
        }
      }
      out := Output(mainId, publishdId, sent);
    }
  }

  function After(initial: nat, cycles: seq<Cycle>): Stream {
    if cycles == [] then Stream(Max(initial, 1), None)
    else Cycled(After(initial, cycles[..|cycles| - 1]), cycles[|cycles| - 1]).0
  }

  /** The ids of the main stream, one in every cycle. */
  function MainIds(initial: nat, cycles: seq<Cycle>): seq<nat> {
    if cycles == [] then []
    else
      var prior := cycles[..|cycles| - 1];
      MainIds(initial, prior) + [Cycled(After(initial, prior), cycles[|cycles| - 1]).1.mainId]
  }

  /** They start at the initial id, or at 1, and go up by one in every cycle, up to the
      largest encodable id. */
  lemma {:induction false} MainStreamCounts(initial: nat, cycles: seq<Cycle>)
    requires initial <= U64_MAX
    ensures var first := if initial == 0 then 1 else initial;
      && After(initial, cycles).nextId == Min(first + |cycles|, U64_MAX)
      && |MainIds(initial, cycles)| == |cycles|
      && forall k :: 0 <= k < |cycles| ==>
           MainIds(initial, cycles)[k] == if first + k < I64_MAX then first + k else I64_MAX
  {
    if cycles != [] {
      MainStreamCounts(initial, cycles[..|cycles| - 1]);
    }
  }

  /** The ids of the cycles that at least one publishd client received. */
  function DeliveredIds(initial: nat, cycles: seq<Cycle>): seq<nat> {
    if cycles == [] then []
    else
      var prior := cycles[..|cycles| - 1];
      var out := Cycled(After(initial, prior), cycles[|cycles| - 1]).1;
      DeliveredIds(initial, prior) + if out.delivered then [out.publishdId.value] else []
  }

  /** The first start id the gateway reads, if any. */
  function Seed(cycles: seq<Cycle>): Option<nat> {
    if cycles == [] then None
    else
      var earlier := Seed(cycles[..|cycles| - 1]);
      Opened(earlier, cycles[|cycles| - 1])
  }

  /** It is what the first start file says, but at least 1. */
  lemma {:induction false} SeedIsFirstFile(cycles: seq<Cycle>)
    ensures Seed(cycles).None? ==> forall k :: 0 <= k < |cycles| ==> cycles[k].startFile.None?
    ensures Seed(cycles).Some? ==> exists k :: FirstFile(cycles, k, Seed(cycles).value)
  {
    if cycles != [] {
      var n := |cycles| - 1;
      var prior := cycles[..n];
      SeedIsFirstFile(prior);
      if Seed(prior).Some? {
        var k :| FirstFile(prior, k, Seed(prior).value);
        assert FirstFile(cycles, k, Seed(cycles).value);
      } else if cycles[n].startFile.Some? {
        assert FirstFile(cycles, n, Seed(cycles).value);
      }
    }
  }

  predicate FirstFile(cycles: seq<Cycle>, k: int, seed: nat) {
    && 0 <= k < |cycles| && cycles[k].startFile.Some? && (forall i :: 0 <= i < k ==> cycles[i].startFile.None?)
    && seed == if cycles[k].startFile.value == 0 then 1 else cycles[k].startFile.value
  }

  /** How many cycles found the gate open and a client that took the frame. */
  function Reached(cycles: seq<Cycle>): nat {
    if cycles == [] then 0
    else
      var prior, c := cycles[..|cycles| - 1], cycles[|cycles| - 1];
      Reached(prior) + if Seed(prior).Some? && true in c.writes then 1 else 0
  }

  function Consecutive(seed: nat, n: nat): seq<nat> {
    seq<nat>(n, i requires 0 <= i => Encoded(seed + i))
  }

  /** In one lifetime of the gateway the delivered ids are seed, seed + 1, seed + 2, ...
      capped at the largest encodable id; later start files change nothing. */
  lemma {:induction false} DeliveredConsecutively(initial: nat, cycles: seq<Cycle>)
    requires forall k :: 0 <= k < |cycles| && cycles[k].startFile.Some? ==> cycles[k].startFile.value <= U64_MAX
    ensures Seed(cycles).None? ==> After(initial, cycles).gate.None? && DeliveredIds(initial, cycles) == []
    ensures Seed(cycles).Some? ==> var seed, n := Seed(cycles).value, |DeliveredIds(initial, cycles)|;
      && After(initial, cycles).gate == Some(Min(seed + n, U64_MAX))
      && DeliveredIds(initial, cycles) == Consecutive(seed, n)
      && seed <= U64_MAX
    ensures |DeliveredIds(initial, cycles)| == Reached(cycles)
  {
    if cycles != [] {
      var prior, c := cycles[..|cycles| - 1], cycles[|cycles| - 1];
      DeliveredConsecutively(initial, prior);
      var n := |DeliveredIds(initial, prior)|;
      if Seed(prior).Some? {
        var seed := Seed(prior).value;
        assert Consecutive(seed, n + 1) == Consecutive(seed, n) + [Encoded(seed + n)];
      }
    }
  }

  /** Hence there is no repeated id exactly while the stream stays below the limit. */
  lemma NoRepeatIffBelowLimit(initial: nat, cycles: seq<Cycle>)
    requires forall k :: 0 <= k < |cycles| && cycles[k].startFile.Some? ==> cycles[k].startFile.value <= U64_MAX
    requires |DeliveredIds(initial, cycles)| >= 2
    ensures Seed(cycles).Some?
    ensures var ids := DeliveredIds(initial, cycles);
      (forall i :: 0 <= i < |ids| - 1 ==> ids[i + 1] == ids[i] + 1) <==> Seed(cycles).value + |ids| - 1 <= I64_MAX
  {
    DeliveredConsecutively(initial, cycles);
    var ids, seed := DeliveredIds(initial, cycles), Seed(cycles).value;
    var last := |ids| - 2;
    assert ids[last] == Encoded(seed + last) && ids[last + 1] == Encoded(seed + (last + 1));
  }
}
