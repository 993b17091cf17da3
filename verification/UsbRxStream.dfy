/** The USB CDC driver's receive path: a ring filled by the interrupt and drained by one
reader, and an asynchronous read that takes bytes straight from the packets. */
module UsbRxStream {
  import opened Numbers
  import opened BitWalk

  const SIZE: nat := 1024

  datatype Status = Ok | Busy

  /** The receive path by its meaning. `wanted` is what a pending asynchronous read still
      lacks; `latched` says that a blocking read has copied the oldest ring byte but not
      yet advanced the tail. */
  datatype Rx = Rx(
    ring: seq<uint8>, wanted: nat, latched: bool,
    delivered: seq<uint8>, accepted: seq<uint8>)

  /** Bytes in the ring that no reader has yet. */
  function Unread(rx: Rx): seq<uint8> {
    if rx.latched && rx.ring != [] then rx.ring[1..] else rx.ring
  }

  function Copied(rx: Rx): Rx
    requires rx.ring != []
  {
    rx.(delivered := rx.delivered + [rx.ring[0]], latched := true)
  }

  function Advanced(rx: Rx): Rx
    requires rx.ring != []
  {
    rx.(ring := rx.ring[1..], latched := false)
  }

  /** `ReadAsync`: satisfied as far as possible from the ring, pending for the rest. */
  function AsyncRead(rx: Rx, len: nat): Rx {
    if rx.wanted != 0 then rx
    else
      var n := Min(len, |rx.ring|);
      rx.(ring := rx.ring[n..], delivered := rx.delivered + rx.ring[..n], wanted := len - n)
  }

  /** How many bytes of a packet go to the pending read. */
  function Direct(rx: Rx, data: seq<uint8>): nat { Min(rx.wanted, |data|) }

  /** The packet completes the pending read. */
  predicate Completes(rx: Rx, data: seq<uint8>) { 0 < rx.wanted <= |data| }

  /** First the pending read takes its bytes; `rearm` is the length its completion
      callback asks for in a new asynchronous read, 0 for none. */
  function TakenDirectly(rx: Rx, data: seq<uint8>, rearm: nat): Rx {
    var n := Direct(rx, data);
    var taken :=
      rx.(delivered := rx.delivered + data[..n], accepted := rx.accepted + data[..n], wanted := rx.wanted - n);
    if Completes(rx, data) then AsyncRead(taken, rearm) else taken
  }

  /** The rest goes into the ring; the newest bytes are dropped on overflow. */
  function Buffered(rx: Rx, rest: seq<uint8>): Rx {
    var n := Min(|rest|, if |rx.ring| < SIZE then SIZE - |rx.ring| else 0);
    rx.(ring := rx.ring + rest[..n], accepted := rx.accepted + rest[..n])
  }

  /** A reset drops what is buffered; the stream starts anew. */
  function Restarted(rx: Rx): Rx {
    rx.(ring := [], delivered := [], accepted := [])
  }

  function Received(rx: Rx, data: seq<uint8>, rearm: nat): Rx {
    Buffered(TakenDirectly(rx, data, rearm), data[Direct(rx, data)..])
  }

  // ---- the driver -----------------------------------------------------------------

  /** Ring index of the `i`-th byte from a free-running 32-bit counter. */
  function At(counter: nat, i: nat): nat {
    (counter + i) % TWO_TO_32 % SIZE
  }

  function Count(head: nat, tail: nat): nat
    requires head < TWO_TO_32 && tail < TWO_TO_32
  {
    (head + TWO_TO_32 - tail) % TWO_TO_32
  }

  ghost function RingOf(buffer: seq<uint8>, tail: nat, count: nat): (r: seq<uint8>)
    requires |buffer| == SIZE
    ensures |r| == count
  {
    seq(count, i requires 0 <= i => buffer[At(tail, i)])
  }

  class UsbCdc {
    const ring: array<uint8>
    var head: nat
    var tail: nat
    var asyncLen: nat
    var asyncPos: nat
    ghost var latched: bool
    ghost var delivered: seq<uint8>
    ghost var accepted: seq<uint8>

    ghost predicate Valid()
      reads this
    {
      && ring.Length == SIZE && head < TWO_TO_32 && tail < TWO_TO_32 && Count(head, tail) <= SIZE
      && (asyncLen != 0 ==> asyncPos < asyncLen)
    }

    ghost function Meaning(): Rx
      reads this, ring
      requires Valid()
    {
      Rx(
        RingOf(ring[..], tail, Count(head, tail)), if asyncLen == 0 then 0 else asyncLen - asyncPos,
        latched, delivered, accepted)
    }

    constructor ()
      ensures Valid() && fresh(ring) && Meaning() == Rx([], 0, false, [], [])
    {
      ring := new uint8[SIZE](_ => 0);
      head, tail, asyncLen, asyncPos := 0, 0, 0, 0;
      latched, delivered, accepted := false, [], [];
    }

    /** First half of one turn of `Read`: copy the oldest byte. */
    method ReadCopy() returns (data: uint8)
      requires Valid() && tail != head
      modifies this`delivered, this`latched
      ensures Valid() && old(Meaning()).ring != [] && data == old(Meaning()).ring[0]
      ensures Meaning() == Copied(old(Meaning()))
    {
      data := ring[tail % SIZE];
      delivered := delivered + [data];
      latched := true;
    }

    /** Second half: release its place. If the ring is empty, as a reset in between leaves
        it, the counters then claim almost 2^32 bytes. */
    method ReadAdvance()
      requires Valid()
      modifies this`tail, this`latched
      ensures Valid() <==> old(Meaning()).ring != []
      ensures old(Meaning()).ring != [] ==> Meaning() == Advanced(old(Meaning()))
      ensures head < TWO_TO_32 && tail < TWO_TO_32
      ensures old(Meaning()).ring == [] ==> Count(head, tail) == TWO_TO_32 - 1
    {
      NotEmpty(head, tail);
      if tail != head {
        TailMoves(ring[..], head, tail);
      }
      tail := (tail + 1) % TWO_TO_32;
      latched := false;
    }

    /** A reset of the device restarts the stream; a pending read stays pending. */
    method HandleInit()
      requires Valid()
      modifies this`head, this`tail, this`delivered, this`accepted
      ensures Valid() && head == tail == 0 && Meaning() == Restarted(old(Meaning()))
    {
      head, tail := 0, 0;
      delivered, accepted := [], [];
    }

    method TakeOldest()
      requires Valid() && tail != head
      modifies this`tail, this`delivered
      ensures Valid() && var was := old(Meaning());
        was.ring != [] && Meaning() == was.(ring := was.ring[1..], delivered := was.delivered + [was.ring[0]])
    {
      TailMoves(ring[..], head, tail);
      delivered := delivered + [ring[tail % SIZE]];
      tail := (tail + 1) % TWO_TO_32;
    }

    method ReadAsync(len: nat) returns (status: Status)
      requires Valid()
      modifies this`tail, this`asyncLen, this`asyncPos, this`delivered
      ensures Valid() && Meaning() == AsyncRead(old(Meaning()), len)
      ensures status == if old(asyncLen) != 0 then Busy else Ok
    {
      if asyncLen != 0 {
        return Busy;
      }
      var pos := TakeUpTo(len);
      if pos != len {
        asyncPos := pos;
        asyncLen := len;
      }
      status := Ok;
    }

    /** The ring loop of an asynchronous read. */
    method TakeUpTo(len: nat) returns (pos: nat)
      requires Valid()
      modifies this`tail, this`delivered
      ensures Valid() && var was := old(Meaning());
        pos == Min(len, |was.ring|) &&
          Meaning() == was.(ring := was.ring[pos..], delivered := was.delivered + was.ring[..pos])
    {
      ghost var was := Meaning();
      pos := 0;
      while pos < len && tail != head
        invariant Valid() && pos <= len && pos <= |was.ring|
        invariant Meaning() == was.(ring := was.ring[pos..], delivered := was.delivered + was.ring[..pos])
        decreases len - pos
      {
        NotEmpty(head, tail);
        TakeOldest();
        OneTaken(was, pos);
        pos := pos + 1;
      }
      NotEmpty(head, tail);
      assert |was.ring| - pos == Count(head, tail);
    }

    /** The USB interrupt. `rearm` is what the completion callback asks for. */
    method HandleReceive(data: seq<uint8>, rearm: nat)
      requires Valid()
      modifies this`head, this`tail, this`asyncLen, this`asyncPos, this`delivered, this`accepted, ring
      ensures Valid() && Meaning() == Received(old(Meaning()), data, rearm)
    {
      var i := TakeDirectly(data, rearm);
      PutRest(data[i..]);
    }

    /** The ring loop of the interrupt. */
    method PutRest(rest: seq<uint8>)
      requires Valid()
      modifies this`head, this`accepted, ring
      ensures Valid() && Meaning() == Buffered(old(Meaning()), rest)
    {
      ghost var was := Meaning();
      var i := 0;
      while i < |rest| && Count(head, tail) < SIZE
        invariant Valid() && i <= |rest| && |was.ring| + i <= SIZE
        invariant Meaning() == was.(ring := was.ring + rest[..i], accepted := was.accepted + rest[..i])
      {
        assert rest[..i + 1] == rest[..i] + [rest[i]];
        PutNewest(rest[i]);
        i := i + 1;
      }
      assert |Meaning().ring| == Count(head, tail);
      BufferedIs(was, rest, i);
    }

    method PutNewest(x: uint8)
      requires Valid() && Count(head, tail) < SIZE
      modifies this`head, this`accepted, ring
      ensures Valid() && var was := old(Meaning());
        Meaning() == was.(ring := was.ring + [x], accepted := was.accepted + [x])
    {
      HeadMoves(ring[..], head, tail, x);
      ring[head % SIZE] := x;
      head := (head + 1) % TWO_TO_32;
      accepted := accepted + [x];
    }

    method TakeDirectly(data: seq<uint8>, rearm: nat) returns (i: nat)
      requires Valid()
      modifies this`tail, this`asyncLen, this`asyncPos, this`delivered, this`accepted
      ensures Valid() && i == Direct(old(Meaning()), data) && Meaning() == TakenDirectly(old(Meaning()), data, rearm)
    {
      i := 0;
      if asyncLen == 0 {
        return;
      }
      ghost var was := Meaning();
      while i < |data| && asyncPos < asyncLen
        invariant tail == old(tail) && i <= |data| && asyncLen == old(asyncLen) &&
          asyncPos == old(asyncPos) + i <= asyncLen
        invariant delivered == was.delivered + data[..i] && accepted == was.accepted + data[..i]
      {
        delivered := delivered + [data[i]];
        accepted := accepted + [data[i]];
        assert data[..i + 1] == data[..i] + [data[i]];
        asyncPos := asyncPos + 1;
        i := i + 1;
      }
      if asyncPos == asyncLen {
        asyncLen := 0;
        var _ := ReadAsync(rearm);
      }
    }
  }

  lemma BufferedIs(rx: Rx, rest: seq<uint8>, n: nat)
    requires n <= |rest| && |rx.ring| + n <= SIZE && (n < |rest| ==> |rx.ring| + n == SIZE)
    ensures Buffered(rx, rest) == rx.(ring := rx.ring + rest[..n], accepted := rx.accepted + rest[..n])
  {
  }

  lemma NotEmpty(head: nat, tail: nat)
    requires head < TWO_TO_32 && tail < TWO_TO_32
    ensures Count(head, tail) == 0 <==> head == tail
  {
  }

  lemma OneTaken(was: Rx, pos: nat)
    requires pos < |was.ring|
    ensures was.ring[pos..] == [was.ring[pos]] + was.ring[pos + 1..]
    ensures was.delivered + was.ring[..pos] + [was.ring[pos]] == was.delivered + was.ring[..pos + 1]
  {
  }

  lemma TailMoves(buffer: seq<uint8>, head: nat, tail: nat)
    requires |buffer| == SIZE && head < TWO_TO_32 && tail < TWO_TO_32 && head != tail && Count(head, tail) <= SIZE
    ensures Count(head, (tail + 1) % TWO_TO_32) == Count(head, tail) - 1
    ensures buffer[tail % SIZE] == RingOf(buffer, tail, Count(head, tail))[0]
    ensures RingOf(buffer, (tail + 1) % TWO_TO_32, Count(head, tail) - 1)
      == RingOf(buffer, tail, Count(head, tail))[1..]
  {
    CountDrops(head, tail);
    TailRest(buffer, tail, Count(head, tail));
  }

  lemma CountDrops(head: nat, tail: nat)
    requires head < TWO_TO_32 && tail < TWO_TO_32 && head != tail
    ensures Count(head, tail) > 0 && Count(head, (tail + 1) % TWO_TO_32) == Count(head, tail) - 1
  {
  }

  lemma TailRest(buffer: seq<uint8>, tail: nat, count: nat)
    requires |buffer| == SIZE && tail < TWO_TO_32 && count > 0
    ensures buffer[tail % SIZE] == RingOf(buffer, tail, count)[0]
    ensures RingOf(buffer, (tail + 1) % TWO_TO_32, count - 1) == RingOf(buffer, tail, count)[1..]
  {
    var next := (tail + 1) % TWO_TO_32;
    forall i: nat | i < count - 1 ensures At(next, i) == At(tail, i + 1) {
      AtShift(tail, i);
    }
  }

  lemma AtShift(counter: nat, i: nat)
    requires counter < TWO_TO_32
    ensures At((counter + 1) % TWO_TO_32, i) == At(counter, i + 1)
  {
    if counter + 1 == TWO_TO_32 {
      assert counter + (i + 1) == i + TWO_TO_32;
    }
  }

  lemma HeadMoves(buffer: seq<uint8>, head: nat, tail: nat, x: uint8)
    requires |buffer| == SIZE && head < TWO_TO_32 && tail < TWO_TO_32 && Count(head, tail) < SIZE
    ensures Count((head + 1) % TWO_TO_32, tail) == Count(head, tail) + 1
    ensures RingOf(buffer[head % SIZE := x], tail, Count(head, tail) + 1)
      == RingOf(buffer, tail, Count(head, tail)) + [x]
  {
    var n := Count(head, tail);
    HeadFromTail(head, tail);
    forall i: nat | i < n ensures At(tail, i) != head % SIZE {
      PlacesDiffer(tail, i, n);
    }
  }

  lemma HeadFromTail(head: nat, tail: nat)
    requires head < TWO_TO_32 && tail < TWO_TO_32
    ensures (tail + Count(head, tail)) % TWO_TO_32 == head
    ensures Count(head, tail) < SIZE ==> Count((head + 1) % TWO_TO_32, tail) == Count(head, tail) + 1
  {
  }

  /** The size divides 2^32, so places stay distinct when the counter wraps. */
  lemma PlacesDiffer(tail: nat, i: nat, n: nat)
    requires tail < TWO_TO_32 && i < n < SIZE
    ensures At(tail, i) != At(tail, n)
  {
    WrapKeepsPlace(tail + i);
    WrapKeepsPlace(tail + n);
  }

  lemma WrapKeepsPlace(k: nat)
    ensures k % TWO_TO_32 % SIZE == k % SIZE
  {
    var q := k / TWO_TO_32;
    assert k == q * TWO_TO_32 + k % TWO_TO_32;
    assert k == (q * 0x40_0000) * SIZE + k % TWO_TO_32;
  }

  // ---- the stream ---------------------------------------------------------------------

  /** What readers have, followed by what waits for them, is what was accepted; and a
      pending read never coexists with buffered bytes. */
  ghost predicate InOrder(rx: Rx) {
    && rx.delivered + Unread(rx) == rx.accepted
    && |rx.ring| <= SIZE
    && (rx.latched ==> rx.ring != [])
    && (rx.wanted > 0 ==> rx.ring == [])
  }

  /** Steps of one reader and the interrupts, in any order; a reader's step whose condition
      does not hold is skipped. `rearm` is what the completion callback asks for, if the
      packet completes a read. */
  datatype Event =
    | CopyByte | AdvanceTail | StartAsync(len: nat)
    | Packet(data: seq<uint8>, rearm: nat)
    | Reset

  function Step(rx: Rx, e: Event): Rx {
    match e
    case CopyByte => if rx.ring != [] && !rx.latched then Copied(rx) else rx
    case AdvanceTail => if rx.ring != [] && rx.latched then Advanced(rx) else rx
    case StartAsync(len) => if rx.latched then rx else AsyncRead(rx, len)
    case Packet(data, rearm) => Received(rx, data, rearm)
    case Reset => Restarted(rx)
  }

  function Run(run: seq<Event>): Rx {
    if run == [] then Rx([], 0, false, [], []) else Step(Run(run[..|run| - 1]), run[|run| - 1])
  }

  /** A callback must not start a read while bytes of its packet are left over, and a reset
      must not come between the two halves of a reader's turn. */
  predicate Safe(rx: Rx, e: Event) {
    match e
    case Packet(data, rearm) => !(0 < rx.wanted < |data| && rearm > 0)
    case Reset => !rx.latched
    case _ => true
  }

  /** Every step of the run is safe in the state it finds. */
  predicate SafeRun(run: seq<Event>) {
    run != [] ==> SafeRun(run[..|run| - 1]) && Safe(Run(run[..|run| - 1]), run[|run| - 1])
  }

  /** The stream is in order after the run and after everything before. */
  ghost predicate OrderedThroughout(run: seq<Event>) {
    InOrder(Run(run)) && (run != [] ==> OrderedThroughout(run[..|run| - 1]))
  }

  /** Over every interleaving the stream stays in order exactly as long as every step is
      safe. */
  lemma {:induction false} StreamInOrderIff(run: seq<Event>)
    ensures OrderedThroughout(run) <==> SafeRun(run)
  {
    if run != [] {
      var prior := run[..|run| - 1];
      StreamInOrderIff(prior);
      if OrderedThroughout(prior) {
        StepKeepsOrderIff(Run(prior), run[|run| - 1]);
      }
    }
  }

  // ---- asynchronous reads -------------------------------------------------------------

  /** The length of the asynchronous read that a step starts; 0 if it starts none. */
  function Asked(rx: Rx, e: Event): nat {
    match e
    case StartAsync(len) => if !rx.latched && rx.wanted == 0 then len else 0
    case Packet(data, rearm) => if 0 < rx.wanted <= |data| then rearm else 0
    case _ => 0
  }

  /** The bytes a step gives to asynchronous readers. */
  function Given(rx: Rx, e: Event): int {
    match e
    case StartAsync(_) => |Step(rx, e).delivered| - |rx.delivered|
    case Packet(_, _) => |Step(rx, e).delivered| - |rx.delivered|
    case _ => 0
  }

  function AllAsked(run: seq<Event>): nat {
    if run == [] then 0
    else AllAsked(run[..|run| - 1]) + Asked(Run(run[..|run| - 1]), run[|run| - 1])
  }

  function AllGiven(run: seq<Event>): int {
    if run == [] then 0
    else AllGiven(run[..|run| - 1]) + Given(Run(run[..|run| - 1]), run[|run| - 1])
  }

  /** Over every run asynchronous readers have received what they asked for, but for what
      the pending read still wants: a completed read got exactly its length. */
  lemma {:induction false} ReadersGetWhatTheyAsk(run: seq<Event>)
    ensures AllAsked(run) == AllGiven(run) + Run(run).wanted
  {
    if run != [] {
      ReadersGetWhatTheyAsk(run[..|run| - 1]);
      StepGivesWhatIsAsked(Run(run[..|run| - 1]), run[|run| - 1]);
    }
  }

  lemma StepGivesWhatIsAsked(rx: Rx, e: Event)
    ensures rx.wanted + Asked(rx, e) == Given(rx, e) + Step(rx, e).wanted
  {
  }

  lemma StepKeepsOrderIff(rx: Rx, e: Event)
    requires InOrder(rx)
    ensures InOrder(Step(rx, e)) <==> Safe(rx, e)
  {
    match e {
      case CopyByte =>
        if rx.ring != [] && !rx.latched {
          assert rx.delivered + rx.ring == rx.delivered + [rx.ring[0]] + rx.ring[1..];
        }
      case AdvanceTail =>
      case StartAsync(len) =>
        if !rx.latched && rx.wanted == 0 {
          AsyncKeepsOrder(rx, len);
        }
      case Packet(data, rearm) => RearmSafeIff(rx, data, rearm);
      case Reset =>
    }
  }

  /** After a reset between the halves of a turn: the reader finds 2^32 - 1 bytes, none of
      them received, and until it has taken almost all of them every packet is dropped. */
  lemma ResetDuringReadIsFatal(k: nat)
    requires k < TWO_TO_32
    ensures Count(0, (1 + k) % TWO_TO_32) == TWO_TO_32 - 1 - k
    ensures Count(0, (1 + k) % TWO_TO_32) < SIZE <==> k >= TWO_TO_32 - SIZE
  {
  }

  lemma AsyncKeepsOrder(rx: Rx, len: nat)
    requires InOrder(rx) && !rx.latched && rx.wanted == 0
    ensures InOrder(AsyncRead(rx, len))
  {
    var n := Min(len, |rx.ring|);
    assert rx.delivered + rx.ring == rx.delivered + rx.ring[..n] + rx.ring[n..];
  }

  /** A packet keeps the order exactly when the completion callback does not start
      another read while bytes of the packet are left over. */
  lemma RearmSafeIff(rx: Rx, data: seq<uint8>, rearm: nat)
    requires InOrder(rx)
    ensures InOrder(Received(rx, data, rearm)) <==> Safe(rx, Packet(data, rearm))
  {
    var n := Direct(rx, data);
    var taken := TakenDirectly(rx, data, rearm);
    if rx.wanted > 0 {
      assert rx.delivered + [] == rx.delivered;
      assert taken.delivered == rx.delivered + data[..n] == taken.accepted;
    }
    BufferedInOrder(taken, data[n..]);
  }

  lemma BufferedInOrder(rx: Rx, rest: seq<uint8>)
    requires InOrder(rx)
    ensures InOrder(Buffered(rx, rest)) <==> rx.wanted == 0 || rest == []
  {
    var after := Buffered(rx, rest);
    var n := |after.ring| - |rx.ring|;
    assert Unread(after) == Unread(rx) + rest[..n];
    assert rx.delivered + (Unread(rx) + rest[..n]) == rx.delivered + Unread(rx) + rest[..n];
  }

  /** What goes wrong otherwise: after a packet whose callback asks for more while bytes
      are left, the first byte of the next packet overtakes them. */
  lemma RearmLosesOrder(rx: Rx, data: seq<uint8>, rearm: nat, x: uint8)
    requires InOrder(rx) && 0 < rx.wanted < |data| && rearm > 0 && x != data[rx.wanted]
    ensures var after := Received(Received(rx, data, rearm), [x], 0); after.delivered + Unread(after) != after.accepted
  {
    var mid := Received(rx, data, rearm);
    var n := rx.wanted;
    var taken := TakenDirectly(rx, data, rearm);
    assert taken.ring == [] && taken.wanted == rearm && !taken.latched;
    assert taken.delivered == rx.delivered + data[..n] == taken.accepted;
    assert mid.ring != [] && mid.ring[0] == data[n..][0] == data[n];
    assert mid.delivered + mid.ring == mid.accepted;
    NextOvertakes(mid, x);
  }

  lemma NextOvertakes(rx: Rx, x: uint8)
    requires rx.delivered + rx.ring == rx.accepted && rx.ring != [] && !rx.latched && rx.wanted > 0
    requires x != rx.ring[0]
    ensures var after := Received(rx, [x], 0); after.delivered + Unread(after) != after.accepted
  {
    var after := Received(rx, [x], 0);
    var k := |rx.delivered|;
    assert Direct(rx, [x]) == 1;
    if rx.wanted == 1 {
      assert after.delivered + Unread(after) == rx.delivered + [x] + rx.ring;
    }
    assert (after.delivered + Unread(after))[k] == x;
    assert after.accepted[k] == rx.ring[0];
  }

  lemma SplitAtDirect(accepted: seq<uint8>, data: seq<uint8>, d: nat, m: nat)
    requires d + m <= |data|
    ensures accepted + data[..d] + data[d..][..m] == accepted + data[..d + m]
  {
    assert data[..d + m] == data[..d] + data[d..][..m];
  }

  /** Of a packet only a tail is lost, and only when the ring is full. */
  lemma OnlyTailIsLost(rx: Rx, data: seq<uint8>)
    requires InOrder(rx)
    ensures var after := Received(rx, data, 0);
      exists n :: 0 <= n <= |data| && after.accepted == rx.accepted + data[..n] && (n < |data| ==> |after.ring| == SIZE)
  {
    var d := Direct(rx, data);
    var taken := TakenDirectly(rx, data, 0);
    var rest := data[d..];
    var m := Min(|rest|, SIZE - |taken.ring|);
    BufferedIs(taken, rest, m);
    SplitAtDirect(rx.accepted, data, d, m);
  }
}
