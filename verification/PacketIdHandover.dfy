/** The packet-id handshake as a whole: the server's messages, publishd's startup and the
gateway's stream, interleaved. */
module PacketIdHandover {
  import opened Wrappers
  import opened Numbers
  import opened PacketIds

  /** One atomic step: of a message handler, of publishd's startup, or a publishing cycle
      of the gateway and which publishd clients take its frame. */
  datatype Turn = Handle(handler: nat) | Startup | Publish(writes: seq<bool>)

  /** `seen`: startup has found the handshake complete and loads the id next. */
  datatype System = System(server: Shared, seen: bool, startFile: Option<nat>, stream: Stream, delivered: seq<nat>)

  /** `request_initial_packet_id` polls the flag, then loads the id; the start file
      appears at once, by a rename. Without the handshake it says 1. */
  function StartupStep(sys: System, handshake: bool): System {
    if sys.startFile.Some? then sys
    else if !handshake then sys.(startFile := Some(1))
    else if !sys.seen then sys.(seen := sys.server.initialized)
    else sys.(startFile := Some(sys.server.packetId))
  }

  function Step(sys: System, handshake: bool, turn: Turn): System {
    match turn
    case Handle(i) => if i < |sys.server.handlers| then sys.(server := HandlerStep(sys.server, i)) else sys
    case Startup => StartupStep(sys, handshake)
    case Publish(writes) =>
      var cycle := Cycle(sys.startFile, writes);
      var out := Cycled(sys.stream, cycle).1;
      sys.(stream := Cycled(sys.stream, cycle).0,
           delivered := sys.delivered + if out.delivered then [out.publishdId.value] else [])
  }

  function Run(serverIds: seq<nat>, initial: nat, handshake: bool, turns: seq<Turn>): System {
    if turns == [] then System(Started(0, serverIds), false, None, After(initial, []), [])
    else Step(Run(serverIds, initial, handshake, turns[..|turns| - 1]), handshake, turns[|turns| - 1])
  }

  ghost predicate Handed(sys: System, handshake: bool, candidates: seq<nat>) {
    && Settling(sys.server, 0, candidates)
    && (sys.seen ==> sys.server.packetId > 0)
    && (sys.startFile.Some? ==>
          && 1 <= sys.startFile.value <= U64_MAX
          && if handshake then sys.startFile.value in candidates && sys.startFile.value <= sys.server.packetId
             else sys.startFile.value == 1)
    && (sys.stream.gate.Some? ==> sys.startFile.Some?)
    && (sys.stream.gate.None? ==> sys.delivered == [])
    && (sys.stream.gate.Some? ==>
          && sys.stream.gate.value == Min(sys.startFile.value + |sys.delivered|, U64_MAX)
          && sys.delivered == Consecutive(sys.startFile.value, |sys.delivered|))
  }

  lemma CandidatesAreIds(serverIds: seq<nat>)
    ensures forall v :: v in Candidates(Started(0, serverIds)) ==> 1 <= v <= U64_MAX
  {
    var candidates := Candidates(Started(0, serverIds));
    forall v | v in candidates ensures 1 <= v <= U64_MAX {
      var i :| 0 <= i < |candidates| && candidates[i] == v;
      assert v == Next(serverIds[i]);
    }
  }

  lemma StepHands(sys: System, handshake: bool, turn: Turn, candidates: seq<nat>)
    requires Handed(sys, handshake, candidates) && forall v :: v in candidates ==> 1 <= v <= U64_MAX
    ensures Handed(Step(sys, handshake, turn), handshake, candidates)
  {
    match turn {
      case Handle(i) =>
        if i < |sys.server.handlers| {
          StepSettles(sys.server, 0, candidates, i);
        }
      case Startup =>
      case Publish(writes) =>
        if sys.stream.gate.Some? && Taken(Cycle(sys.startFile, writes)) {
          var seed, n := sys.startFile.value, |sys.delivered|;
          assert Consecutive(seed, n + 1) == Consecutive(seed, n) + [Encoded(seed + n)];
        }
    }
  }

  /** In every interleaving the start file names a server id plus one, 1 without the
      handshake, and the delivered ids follow on from it without gap or repeat. */
  lemma {:induction false} StreamFollowsServer(serverIds: seq<nat>, initial: nat, handshake: bool, turns: seq<Turn>)
    ensures Handed(Run(serverIds, initial, handshake, turns), handshake, Candidates(Started(0, serverIds)))
  {
    CandidatesAreIds(serverIds);
    if turns != [] {
      StreamFollowsServer(serverIds, initial, handshake, turns[..|turns| - 1]);
      StepHands(
        Run(serverIds, initial, handshake, turns[..|turns| - 1]), handshake, turns[|turns| - 1],
        Candidates(Started(0, serverIds)));
    }
  }

  /** If every message is handled before startup completes, the stream starts right above
      the largest server id. */
  lemma {:induction false} StreamStartsAboveServer(serverIds: seq<nat>, initial: nat, turns: seq<Turn>, n: nat)
    requires n <= |turns|
    requires var sys := Run(serverIds, initial, true, turns[..n]); AllDone(sys.server) && sys.startFile.None?
    ensures var sys := Run(serverIds, initial, true, turns);
      var highest := Highest(0, Candidates(Started(0, serverIds)));
      && AllDone(sys.server) && sys.server.packetId == highest
      && (sys.startFile.Some? ==> sys.startFile.value == highest)
      && sys.delivered == Consecutive(highest, |sys.delivered|)
    decreases |turns|
  {
    var candidates := Candidates(Started(0, serverIds));
    StreamFollowsServer(serverIds, initial, true, turns);
    if n == |turns| {
      assert turns[..n] == turns;
      DoneIsHighest(Run(serverIds, initial, true, turns).server, candidates);
    } else {
      var prior := turns[..|turns| - 1];
      assert prior[..n] == turns[..n];
      StreamStartsAboveServer(serverIds, initial, prior, n);
    }
  }

  lemma DoneIsHighest(s: Shared, candidates: seq<nat>)
    requires Settling(s, 0, candidates) && AllDone(s)
    ensures s.packetId == Highest(0, candidates)
  {
    HighestIsMaximum(0, candidates);
    forall v | v in candidates ensures v <= s.packetId {
      var i :| 0 <= i < |candidates| && candidates[i] == v;
      assert Candidates(s)[i] == s.handlers[i].candidate;
    }
  }
}
