/** The receiver together with a stop-and-wait sender and a line that loses, repeats and damages frames and replies. */
module XmodemProtocol {
  import opened Words
  import opened Xmodem
  import opened XmodemFrames

  // ---------- The sender's side of the line ----------

  function Flatten(blocks: seq<seq<u8>>): seq<u8>
    decreases |blocks|
  {
    if blocks == [] then [] else Flatten(blocks[..|blocks| - 1]) + blocks[|blocks| - 1]
  }

  lemma {:induction false} FlattenPrefix(blocks: seq<seq<u8>>, m: nat)
    requires m <= |blocks|
    ensures Flatten(blocks[..m]) <= Flatten(blocks)
    decreases |blocks|
  {
    if m == |blocks| {
      assert blocks[..m] == blocks;
    } else {
      FlattenPrefix(blocks[..|blocks| - 1], m);
      assert blocks[..|blocks| - 1][..m] == blocks[..m];
    }
  }

  lemma FlattenNext(blocks: seq<seq<u8>>, m: nat)
    requires m < |blocks|
    ensures Flatten(blocks[..m + 1]) == Flatten(blocks[..m]) + blocks[m]
  {
    assert blocks[..m + 1][..m] == blocks[..m];
  }

  function Number(i: nat): u8 {
    (i + 1) % 0x100
  }

  /** `acked` blocks have been acknowledged to the sender; the next one is being sent, or EOT when none is left. */
  datatype Sys = Sys(acked: nat, sink: Sink, verdict: Verdict)

  /** What the sender is sending: the frame of the next block, or EOT when all have been acknowledged. */
  function Current(blocks: seq<seq<u8>>, y: Sys): seq<u8> {
    if y.acked < |blocks| then Frame(Number(y.acked), blocks[y.acked]) else [EOT]
  }

  function Wires(frame: seq<u8>, ds: seq<Delivery>): seq<Rx>
    decreases |ds|
  {
    if ds == [] then [] else Wire(frame, ds[0]) + Wires(frame, ds[1..])
  }

  /** The receiver's main loop on copies of the current frame; a receiver that has ended hears nothing. */
  function Served(blocks: seq<seq<u8>>, y: Sys, ds: seq<Delivery>): (Sys, seq<u8>) {
    if y.verdict.Finished? then (y, [])
    else
      var (l, v) := Hear(Line(Wires(Current(blocks, y), ds), y.sink, []));
      (y.(sink := l.sink, verdict := v), l.sent)
  }

  /**
   * One round: the frame is delivered any number of times, and the sender hears at most one reply, from those in
   * `left` from earlier rounds or those of this round. On ACK it goes on to the next block, else it tries again.
   */
  function Round(blocks: seq<seq<u8>>, y: Sys, left: seq<u8>, ds: seq<Delivery>, heard: Option<nat>): Sys {
    var (y', replies) := Served(blocks, y, ds);
    Judge(blocks, y', left + replies, heard)
  }

  function Judge(blocks: seq<seq<u8>>, y: Sys, replies: seq<u8>, heard: Option<nat>): Sys {
    if heard.Some? && heard.value < |replies| && replies[heard.value] == ACK && y.acked < |blocks|
    then y.(acked := y.acked + 1) else y
  }

  /** A sender that discards old replies before it sends again. */
  datatype Event = Event(ds: seq<Delivery>, heard: Option<nat>)

  function Rounds(blocks: seq<seq<u8>>, y: Sys, events: seq<Event>): Sys
    decreases |events|
  {
    if events == [] then y else Rounds(blocks, Round(blocks, y, [], events[0].ds, events[0].heard), events[1..])
  }

  /** Everything that arrives at the receiver in the course of these rounds. */
  function Arrivals(blocks: seq<seq<u8>>, y: Sys, events: seq<Event>): seq<Rx>
    decreases |events|
  {
    if events == [] then []
    else Wires(Current(blocks, y), events[0].ds) +
         Arrivals(blocks, Round(blocks, y, [], events[0].ds, events[0].heard), events[1..])
  }

  predicate AllNoticed(ds: seq<Delivery>) {
    forall i :: 0 <= i < |ds| ==> Noticed(ds[i])
  }

  /** All corruption in these rounds is of the kind that the receiver is sure to notice. */
  predicate Noticeable(events: seq<Event>) {
    forall i :: 0 <= i < |events| ==> AllNoticed(events[i].ds)
  }

  predicate AllBlocks(blocks: seq<seq<u8>>) {
    forall i :: 0 <= i < |blocks| ==> IsBlock(blocks[i])
  }

  // ---------- The main loop, delivery by delivery ----------

  /** The receiver's reaction to one delivery and its reply, if it makes one. */
  function React(blocks: seq<seq<u8>>, y: Sys, d: Delivery): (Sys, seq<u8>) {
    if y.verdict.Finished? then (y, [])
    else if !d.Intact? then (y, Naks(Complaints(d)))
    else if y.acked < |blocks| then
      var (k, status) := Accept(y.sink, Number(y.acked), blocks[y.acked]);
      match status
      case Ok => (y.(sink := k), [ACK])
      case WriteError => (y.(sink := k, verdict := Finished(3)), [])
      case _ => (y.(sink := k), [NAK])
    else (y.(verdict := Finished(0)), [ACK])
  }

  function ReactAll(blocks: seq<seq<u8>>, y: Sys, ds: seq<Delivery>): (Sys, seq<u8>)
    decreases |ds|
  {
    if ds == [] then (y, [])
    else
      var (y1, reply) := React(blocks, y, ds[0]);
      var (y2, replies) := ReactAll(blocks, y1, ds[1..]);
      (y2, reply + replies)
  }

  /** The outcome of the main loop is that of the reaction, and it has sent the reply. */
  ghost predicate Matches(outcome: (Line, Verdict), y: Sys, sent: seq<u8>, rest: seq<Rx>) {
    if y.verdict == Running then outcome == Hear(Line(rest, y.sink, sent))
    else outcome.0.sink == y.sink && outcome.0.sent == sent && outcome.1 == y.verdict
  }

  /** The main loop reacts to one delivery, whatever follows, as `React` says. */
  lemma DeliveryHeard(blocks: seq<seq<u8>>, y: Sys, d: Delivery, rest: seq<Rx>, sent: seq<u8>)
    requires AllBlocks(blocks) && y.verdict == Running && Noticed(d)
    ensures var (y', reply) := React(blocks, y, d);
            Matches(Hear(Line(Wire(Current(blocks, y), d) + rest, y.sink, sent)), y', sent + reply, rest)
  {
    hide Hear, Accept, Number, Frame, Noticed, Complaints;
    var l := Line(rest, y.sink, sent);
    if y.acked < |blocks| {
      var data := blocks[y.acked];
      if d.Intact? {
        FrameHeard(l, Number(y.acked), data, rest);
      }
    } else if d.Intact? {
      EndHeard(l, rest);
    }
    if !d.Intact? {
      DamageHeard(l, Current(blocks, y), d, rest);
    }
  }

  /** And to all deliveries of a round, one after the other. */
  lemma {:induction false} DeliveriesHeard(blocks: seq<seq<u8>>, y: Sys, ds: seq<Delivery>, rest: seq<Rx>,
                                           sent: seq<u8>)
    requires AllBlocks(blocks) && y.verdict == Running && AllNoticed(ds)
    ensures var (y', replies) := ReactAll(blocks, y, ds);
            Matches(Hear(Line(Wires(Current(blocks, y), ds) + rest, y.sink, sent)), y', sent + replies, rest)
    decreases |ds|
  {
    hide Hear, Wire, AllBlocks, React, Noticed;
    if ds == [] {
      assert [] + rest == rest && sent + [] == sent;
    } else {
      var (y1, reply) := React(blocks, y, ds[0]);
      var later := Wires(Current(blocks, y), ds[1..]) + rest;
      DeliveryHeard(blocks, y, ds[0], later, sent);
      ReactKeepsCurrent(blocks, y, ds[0]);
      JoinInput(Wire(Current(blocks, y), ds[0]), Wires(Current(blocks, y), ds[1..]), rest);
      if y1.verdict == Running {
        DeliveriesHeard(blocks, y1, ds[1..], rest, sent + reply);
      } else {
        FinishedStays(blocks, y1, ds[1..]);
      }
      assert sent + reply + ReactAll(blocks, y1, ds[1..]).1 == sent + (reply + ReactAll(blocks, y1, ds[1..]).1);
    }
  }

  lemma JoinInput(a: seq<Rx>, b: seq<Rx>, rest: seq<Rx>)
    ensures a + b + rest == a + (b + rest)
  {
  }

  /** The current frame is the same after a reaction. */
  lemma ReactKeepsCurrent(blocks: seq<seq<u8>>, y: Sys, d: Delivery)
    ensures React(blocks, y, d).0.acked == y.acked && Current(blocks, React(blocks, y, d).0) == Current(blocks, y)
  {
    hide Accept, Frame;
  }

  lemma {:induction false} FinishedStays(blocks: seq<seq<u8>>, y: Sys, ds: seq<Delivery>)
    requires y.verdict.Finished?
    ensures ReactAll(blocks, y, ds) == (y, [])
    decreases |ds|
  {
    if ds != [] {
      FinishedStays(blocks, y, ds[1..]);
      var none: seq<u8> := [];
      assert none + none == none;
    }
  }

  /** A round of the main loop is a round of reactions, with the same replies. */
  lemma ServedIsReactAll(blocks: seq<seq<u8>>, y: Sys, ds: seq<Delivery>)
    requires AllBlocks(blocks) && (y.verdict == Running ==> AllNoticed(ds))
    ensures Served(blocks, y, ds) == ReactAll(blocks, y, ds)
  {
    hide Hear, Wires, AllBlocks, React, Current;
    if y.verdict == Running {
      var input := Wires(Current(blocks, y), ds);
      assert input + [] == input;
      DeliveriesHeard(blocks, y, ds, [], []);
      var (y', replies) := ReactAll(blocks, y, ds);
      assert [] + replies == replies;
      HearSilence(Line([], y'.sink, replies));
      ReactAllKeepsAcked(blocks, y, ds);
    } else {
      FinishedStays(blocks, y, ds);
    }
  }

  lemma {:induction false} ReactAllKeepsAcked(blocks: seq<seq<u8>>, y: Sys, ds: seq<Delivery>)
    ensures ReactAll(blocks, y, ds).0.acked == y.acked
    decreases |ds|
  {
    hide React;
    if ds != [] {
      ReactKeepsCurrent(blocks, y, ds[0]);
      ReactAllKeepsAcked(blocks, React(blocks, y, ds[0]).0, ds[1..]);
    }
  }

  // ---------- Safety ----------

  /** The receiver has exactly the first `m` blocks, once each. */
  predicate Has(blocks: seq<seq<u8>>, k: Sink, m: nat) {
    m <= |blocks| && k.file == Flatten(blocks[..m]) && k.expected == Number(m)
  }

  /** The receiver is level with the sender or one block ahead of its acknowledgements, never anything else. */
  predicate InStep(blocks: seq<seq<u8>>, y: Sys) {
    && y.acked <= |blocks|
    && match y.verdict
       case Running => Has(blocks, y.sink, y.acked) || Has(blocks, y.sink, y.acked + 1)
       case Finished(code) =>
         if code == 0 then y.sink.file == Flatten(blocks) && y.acked == |blocks|
         else code == 3 && y.sink.file <= Flatten(blocks)
  }

  lemma NumbersDiffer(i: nat)
    ensures Number(i) != Number(i + 1) && (Number(i + 1) - 1) % 0x100 == Number(i)
            && (Number(i) + 1) % 0x100 == Number(i + 1)
  {
  }

  /** A first copy is written, a repeat is only acknowledged; the 8-bit numbers never mix the two up. */
  lemma AcceptKeepsStep(blocks: seq<seq<u8>>, k: Sink, i: nat)
    requires i < |blocks| && (Has(blocks, k, i) || Has(blocks, k, i + 1))
    ensures var (k', status) := Accept(k, Number(i), blocks[i]);
            && k'.capacity == k.capacity && status != BlockError && status != LineError
            && (status == Ok ==> Has(blocks, k', i + 1))
            && (status == WriteError ==> k'.file <= Flatten(blocks))
  {
    hide Flatten, Number, Accept, Has;
    if Has(blocks, k, i) {
      AcceptFirst(blocks, k, i);
    } else {
      AcceptRepeat(blocks, k, i);
    }
  }

  lemma AcceptFirst(blocks: seq<seq<u8>>, k: Sink, i: nat)
    requires i < |blocks| && Has(blocks, k, i)
    ensures var (k', status) := Accept(k, Number(i), blocks[i]);
            && k'.capacity == k.capacity && (status == Ok || status == WriteError)
            && (status == Ok ==> Has(blocks, k', i + 1))
            && (status == WriteError ==> k'.file <= Flatten(blocks))
  {
    hide Flatten, Number;
    if |k.file| + |blocks[i]| <= k.capacity {
      NumbersDiffer(i);
      FlattenNext(blocks, i);
    } else {
      AcceptOverflows(blocks, k, i);
    }
  }

  /** A disk that fills up keeps as much of the block as fits. */
  lemma AcceptOverflows(blocks: seq<seq<u8>>, k: Sink, i: nat)
    requires i < |blocks| && k.file == Flatten(blocks[..i]) && k.expected == Number(i)
    requires |k.file| + |blocks[i]| > k.capacity
    ensures var (k', status) := Accept(k, Number(i), blocks[i]);
            k'.capacity == k.capacity && status == WriteError && k'.file <= Flatten(blocks)
  {
    hide Flatten, Number;
    FlattenNext(blocks, i);
    FlattenPrefix(blocks, i + 1);
    PartIsPrefix(k.file, blocks[i], Flatten(blocks), if |k.file| < k.capacity then k.capacity - |k.file| else 0);
  }

  lemma PartIsPrefix(x: seq<u8>, y: seq<u8>, all: seq<u8>, n: nat)
    requires x + y <= all
    ensures n <= |y| ==> x + y[..n] <= all
  {
    if n <= |y| {
      assert (x + y)[..|x| + n] == x + y[..n];
    }
  }

  lemma AcceptRepeat(blocks: seq<seq<u8>>, k: Sink, i: nat)
    requires i < |blocks| && Has(blocks, k, i + 1)
    ensures Accept(k, Number(i), blocks[i]) == (k, Ok)
  {
    hide Flatten, Number;
    NumbersDiffer(i);
  }

  lemma ReactKeepsStep(blocks: seq<seq<u8>>, y: Sys, d: Delivery)
    requires InStep(blocks, y)
    ensures var (y', reply) := React(blocks, y, d);
            && InStep(blocks, y') && y'.acked == y.acked
            && (ACK in reply && y.acked < |blocks| ==> y'.verdict == Running && Has(blocks, y'.sink, y.acked + 1))
  {
    hide Accept, Has, Flatten, Current, Complaints;
    if y.verdict == Running && d.Intact? {
      if y.acked < |blocks| {
        AcceptKeepsStep(blocks, y.sink, y.acked);
      } else {
        HasAll(blocks, y.sink, y.acked);
      }
    }
  }

  lemma HasAll(blocks: seq<seq<u8>>, k: Sink, i: nat)
    requires i == |blocks| && (Has(blocks, k, i) || Has(blocks, k, i + 1))
    ensures k.file == Flatten(blocks)
  {
    assert blocks[..i] == blocks;
  }

  /** Once the receiver has block `acked`, it keeps having it for the rest of the round. */
  lemma ReactKeepsAhead(blocks: seq<seq<u8>>, y: Sys, d: Delivery)
    requires y.acked < |blocks| && y.verdict == Running && Has(blocks, y.sink, y.acked + 1)
    ensures var (y', reply) := React(blocks, y, d); y'.acked == y.acked && y'.verdict == Running && y'.sink == y.sink
  {
    hide Flatten, Number;
    NumbersDiffer(y.acked);
  }

  lemma {:induction false} AllKeepAhead(blocks: seq<seq<u8>>, y: Sys, ds: seq<Delivery>)
    requires y.acked < |blocks| && y.verdict == Running && Has(blocks, y.sink, y.acked + 1)
    ensures ReactAll(blocks, y, ds).0 == y
    decreases |ds|
  {
    hide Has, React;
    if ds != [] {
      ReactKeepsAhead(blocks, y, ds[0]);
      AllKeepAhead(blocks, React(blocks, y, ds[0]).0, ds[1..]);
    }
  }

  lemma {:induction false} ReactAllKeepsStep(blocks: seq<seq<u8>>, y: Sys, ds: seq<Delivery>)
    requires InStep(blocks, y)
    ensures var (y', replies) := ReactAll(blocks, y, ds);
            && InStep(blocks, y') && y'.acked == y.acked
            && (ACK in replies && y.acked < |blocks| ==> y'.verdict == Running && Has(blocks, y'.sink, y.acked + 1))
    decreases |ds|
  {
    hide React, InStep, Has;
    if ds != [] {
      var (y1, reply) := React(blocks, y, ds[0]);
      ReactKeepsStep(blocks, y, ds[0]);
      ReactAllKeepsStep(blocks, y1, ds[1..]);
      if ACK in reply && y.acked < |blocks| {
        AllKeepAhead(blocks, y1, ds[1..]);
      }
    }
  }

  lemma JudgeKeepsStep(blocks: seq<seq<u8>>, y: Sys, replies: seq<u8>, heard: Option<nat>)
    requires InStep(blocks, y)
    requires ACK in replies && y.acked < |blocks| ==> y.verdict == Running && Has(blocks, y.sink, y.acked + 1)
    ensures InStep(blocks, Judge(blocks, y, replies, heard))
  {
    hide Has;
  }

  /** A round keeps step if no old reply is around, or if the old ones can do no harm. */
  lemma RoundKeepsStep(blocks: seq<seq<u8>>, y: Sys, left: seq<u8>, ds: seq<Delivery>, heard: Option<nat>)
    requires AllBlocks(blocks) && InStep(blocks, y) && (y.verdict == Running ==> AllNoticed(ds))
    requires ACK in left ==> y.acked == |blocks| || (y.verdict == Running && Has(blocks, y.sink, y.acked + 1))
    ensures InStep(blocks, Round(blocks, y, left, ds, heard))
  {
    hide ReactAll, Has, Served, AllBlocks, AllNoticed, InStep, Judge;
    ServedIsReactAll(blocks, y, ds);
    ReactAllKeepsStep(blocks, y, ds);
    var (y', replies) := ReactAll(blocks, y, ds);
    if ACK in left && y.acked < |blocks| {
      AllKeepAhead(blocks, y, ds);
    }
    JudgeKeepsStep(blocks, y', left + replies, heard);
  }

  /**
   * Any run, any number of blocks: the file is a prefix of the blocks in order, each exactly once, and when the
   * receiver reports success after the sender's EOT the whole file has been written.
   */
  lemma {:induction false} ExactlyOnce(blocks: seq<seq<u8>>, y: Sys, events: seq<Event>)
    requires AllBlocks(blocks) && InStep(blocks, y) && Noticeable(events)
    ensures var y' := Rounds(blocks, y, events);
            && InStep(blocks, y') && y'.sink.file <= Flatten(blocks)
            && (y'.verdict == Finished(0) ==> y'.sink.file == Flatten(blocks))
    decreases |events|
  {
    hide Round, InStep, Current, AllNoticed, AllBlocks;
    if events == [] {
      StepMeansPrefix(blocks, y);
    } else {
      RoundKeepsStep(blocks, y, [], events[0].ds, events[0].heard);
      ExactlyOnce(blocks, Round(blocks, y, [], events[0].ds, events[0].heard), events[1..]);
    }
  }

  lemma StepMeansPrefix(blocks: seq<seq<u8>>, y: Sys)
    requires InStep(blocks, y)
    ensures y.sink.file <= Flatten(blocks) && (y.verdict == Finished(0) ==> y.sink.file == Flatten(blocks))
  {
    hide Flatten, Number;
    if y.verdict == Running {
      FlattenPrefix(blocks, if Has(blocks, y.sink, y.acked) then y.acked else y.acked + 1);
    }
  }

  // ---------- One line for the whole transfer ----------

  function Begin(capacity: nat): Sys {
    Sys(0, Sink(1, [], capacity), Running)
  }

  lemma StartInStep(blocks: seq<seq<u8>>, capacity: nat)
    ensures InStep(blocks, Begin(capacity))
  {
    assert blocks[..0] == [];
  }

  lemma {:induction false} RoundsAfterEnd(blocks: seq<seq<u8>>, y: Sys, events: seq<Event>)
    requires y.verdict.Finished?
    ensures Rounds(blocks, y, events).sink == y.sink && Rounds(blocks, y, events).verdict == y.verdict
    decreases |events|
  {
    if events != [] {
      RoundsAfterEnd(blocks, Round(blocks, y, [], events[0].ds, events[0].heard), events[1..]);
    }
  }

  /** The main loop on everything that arrives leaves what the rounds leave. */
  lemma {:induction false} RunIsMainLoop(blocks: seq<seq<u8>>, y: Sys, events: seq<Event>, sent: seq<u8>)
    requires AllBlocks(blocks) && y.verdict == Running && Noticeable(events)
    ensures var (l, v) := Hear(Line(Arrivals(blocks, y, events), y.sink, sent));
            l.sink == Rounds(blocks, y, events).sink && v == Rounds(blocks, y, events).verdict
    decreases |events|
  {
    hide Hear, AllBlocks, AllNoticed, Current, Wires, Round, ReactAll;
    if events == [] {
      HearSilence(Line([], y.sink, sent));
    } else {
      var e := events[0];
      var y1 := Round(blocks, y, [], e.ds, e.heard);
      var rest := Arrivals(blocks, y1, events[1..]);
      DeliveriesHeard(blocks, y, e.ds, rest, sent);
      RoundIs(blocks, y, e);
      if y1.verdict == Running {
        RunIsMainLoop(blocks, y1, events[1..], sent + ReactAll(blocks, y, e.ds).1);
      } else {
        RoundsAfterEnd(blocks, y1, events[1..]);
      }
    }
  }

  lemma RoundIs(blocks: seq<seq<u8>>, y: Sys, e: Event)
    requires AllBlocks(blocks) && (y.verdict == Running ==> AllNoticed(e.ds))
    ensures var y1, y' := Round(blocks, y, [], e.ds, e.heard), ReactAll(blocks, y, e.ds).0;
            y1.sink == y'.sink && y1.verdict == y'.verdict
  {
    hide ReactAll, Served, AllBlocks, AllNoticed, Current;
    ServedIsReactAll(blocks, y, e.ds);
  }

  function Asking(n: nat): seq<u8> {
    seq(n, _ => CRC_CHAR)
  }

  /** Asking for the transfer is waiting for the first character. */
  lemma {:induction false} StartIsHear(l: Line)
    ensures exists n: nat :: Start(l) == Hear(l.(sent := l.sent + Asking(n)))
    decreases |l.input|
  {
    hide Turns;
    var asked := l.(sent := l.sent + [CRC_CHAR]);
    if l.input == [] || l.input[0].Byte? {
      assert Start(l) == Hear(asked);
      assert asked.sent == l.sent + Asking(1);
    } else {
      StartIsHear(asked.(input := l.input[1..]));
      var n: nat :| Start(asked.(input := l.input[1..])) ==
        Hear(asked.(input := l.input[1..], sent := asked.sent + Asking(n)));
      assert asked.sent + Asking(n) == l.sent + Asking(n + 1);
    }
  }

  /**
   * The receiving program from its start, on the bytes and pauses of any run: what it has written is a prefix of the
   * blocks in order, each exactly once, and if it reports success it has written all of them.
   */
  lemma WholeTransfer(blocks: seq<seq<u8>>, capacity: nat, events: seq<Event>)
    requires AllBlocks(blocks) && Noticeable(events)
    ensures var (l, v) := Start(Line(Arrivals(blocks, Begin(capacity), events), Sink(1, [], capacity), []));
            && l.sink.file <= Flatten(blocks) && (v == Running || v == Finished(0) || v == Finished(3))
            && (v == Finished(0) ==> l.sink.file == Flatten(blocks))
  {
    hide Hear, Start, Noticeable, AllBlocks, Flatten, Number, Arrivals, Rounds;
    var y := Begin(capacity);
    var l := Line(Arrivals(blocks, y, events), y.sink, []);
    StartIsHear(l);
    var n: nat :| Start(l) == Hear(l.(sent := l.sent + Asking(n)));
    RunIsMainLoop(blocks, y, events, l.sent + Asking(n));
    StartInStep(blocks, capacity);
    ExactlyOnce(blocks, y, events);
  }

  // ---------- Old replies ----------

  /** Whatever the line does in the next round, receiver and sender stay in step. */
  ghost predicate RoundSafe(blocks: seq<seq<u8>>, y: Sys, left: seq<u8>) {
    forall ds, heard :: AllNoticed(ds) ==> InStep(blocks, Round(blocks, y, left, ds, heard))
  }

  /**
   * Discarding old replies matters: a round is safe if and only if there is no acknowledgement among them, or the
   * receiver has already got the block being sent, or there is no block left to send.
   */
  lemma OldRepliesSafeIff(blocks: seq<seq<u8>>, y: Sys, left: seq<u8>)
    requires AllBlocks(blocks) && InStep(blocks, y) && y.verdict == Running
    ensures RoundSafe(blocks, y, left) <==> ACK !in left || Has(blocks, y.sink, y.acked + 1) || y.acked == |blocks|
  {
    hide AllBlocks, Has, Round, Current, AllNoticed;
    if ACK !in left || Has(blocks, y.sink, y.acked + 1) || y.acked == |blocks| {
      forall ds, heard | AllNoticed(ds) ensures InStep(blocks, Round(blocks, y, left, ds, heard)) {
        RoundKeepsStep(blocks, y, left, ds, heard);
      }
    } else {
      OldAckBreaksStep(blocks, y, left);
    }
  }

  lemma OldAckBreaksStep(blocks: seq<seq<u8>>, y: Sys, left: seq<u8>)
    requires AllBlocks(blocks) && InStep(blocks, y) && y.verdict == Running
    requires ACK in left && !Has(blocks, y.sink, y.acked + 1) && y.acked < |blocks|
    ensures !RoundSafe(blocks, y, left)
  {
    var i :| 0 <= i < |left| && left[i] == ACK;
    var none: seq<Delivery> := [];
    hide Current, AllBlocks, InStep, Has;
    TooFarAhead(blocks, y);
    SilentRound(blocks, y, left, i);
    assert AllNoticed(none);
    assert !InStep(blocks, Round(blocks, y, left, none, Some(i)));
  }

  /** In a round in which no frame arrives, an old reply alone moves the sender on. */
  lemma SilentRound(blocks: seq<seq<u8>>, y: Sys, left: seq<u8>, i: nat)
    requires AllBlocks(blocks) && y.verdict == Running && i < |left| && left[i] == ACK && y.acked < |blocks|
    ensures Round(blocks, y, left, [], Some(i)) == y.(acked := y.acked + 1)
  {
    hide Current, Served, AllBlocks;
    ServedIsReactAll(blocks, y, []);
    assert left + [] == left;
  }

  lemma TooFarAhead(blocks: seq<seq<u8>>, y: Sys)
    requires InStep(blocks, y) && y.verdict == Running && !Has(blocks, y.sink, y.acked + 1)
    ensures !InStep(blocks, y.(acked := y.acked + 1))
  {
    hide Flatten, Number;
    NumbersDiffer(y.acked);
    NumbersDiffer(y.acked + 1);
    TwoApart(y.acked);
  }

  lemma TwoApart(i: nat)
    ensures Number(i) != Number(i + 2)
  {
  }

  /**
   * For example, the second of two acknowledgements for block 0 is taken for one of block 1, whose frame was lost;
   * after EOT the receiver reports success without it.
   */
  lemma StaleAckLosesBlock(x: seq<u8>, z: seq<u8>, capacity: nat)
    requires IsBlock(x) && IsBlock(z) && |x| <= capacity
    ensures var blocks := [x, z];
            var y1 := Round(blocks, Begin(capacity), [], [Intact, Intact], Some(0));
            var y2 := Round(blocks, y1, [ACK], [], Some(0));
            var y3 := Round(blocks, y2, [], [Intact], None);
            y3.verdict == Finished(0) && y3.sink.file == x != Flatten(blocks)
  {
    var blocks := [x, z];
    var k := Sink(2, x, capacity);
    hide Round, IsBlock, Flatten;
    assert AllBlocks(blocks);
    TwiceDelivered(x, z, capacity);
    SilentRound(blocks, Sys(1, k, Running), [ACK], 0);
    EndDelivered(blocks, Sys(2, k, Running));
    TwoBlocks(x, z);
  }

  lemma TwiceDelivered(x: seq<u8>, z: seq<u8>, capacity: nat)
    requires IsBlock(x) && IsBlock(z) && |x| <= capacity
    ensures Round([x, z], Begin(capacity), [], [Intact, Intact], Some(0)) == Sys(1, Sink(2, x, capacity), Running)
  {
    hide Served, Current, ReactAll;
    var blocks, y0, k := [x, z], Begin(capacity), Sink(2, x, capacity);
    assert [] + x == x;
    ServedIsReactAll(blocks, y0, [Intact, Intact]);
    assert React(blocks, y0, Intact) == (y0.(sink := k), [ACK]);
    assert React(blocks, y0.(sink := k), Intact) == (y0.(sink := k), [ACK]);
    TwoDeliveries(blocks, y0, Intact, Intact);
  }

  lemma EndDelivered(blocks: seq<seq<u8>>, y: Sys)
    requires AllBlocks(blocks) && y.acked == |blocks| && y.verdict == Running
    ensures Round(blocks, y, [], [Intact], None) == y.(verdict := Finished(0))
  {
    hide Served, Current, ReactAll, AllBlocks;
    ServedIsReactAll(blocks, y, [Intact]);
    OneDelivery(blocks, y, Intact);
  }

  lemma TwoBlocks(x: seq<u8>, z: seq<u8>)
    ensures Flatten([x, z]) == x + z
  {
    assert [x, z][..1] == [x] && [x][..0] == [];
    assert Flatten([x]) == Flatten([]) + x;
  }

  lemma NoDeliveries(blocks: seq<seq<u8>>, y: Sys)
    ensures ReactAll(blocks, y, []) == (y, [])
  {
  }

  lemma OneDelivery(blocks: seq<seq<u8>>, y: Sys, d: Delivery)
    ensures ReactAll(blocks, y, [d]) == React(blocks, y, d)
  {
    hide React;
    assert [d][1..] == [];
    NoDeliveries(blocks, React(blocks, y, d).0);
    assert React(blocks, y, d).1 + [] == React(blocks, y, d).1;
  }

  lemma TwoDeliveries(blocks: seq<seq<u8>>, y: Sys, d: Delivery, e: Delivery)
    ensures ReactAll(blocks, y, [d, e]) ==
            (React(blocks, React(blocks, y, d).0, e).0,
             React(blocks, y, d).1 + React(blocks, React(blocks, y, d).0, e).1)
  {
    hide React;
    assert [d, e][1..] == [e];
    OneDelivery(blocks, React(blocks, y, d).0, e);
  }

  // ---------- A clean line ----------

  /** The bytes of blocks `from` and on, then EOT; the first one is split off. */
  function Stream(blocks: seq<seq<u8>>, from: nat): (u8, seq<u8>)
    requires from <= |blocks|
    decreases |blocks| - from
  {
    if from == |blocks| then (EOT, [])
    else
      var (next, rest) := Stream(blocks, from + 1);
      (Header(blocks[from]), FrameTail(Number(from), blocks[from]) + [next] + rest)
  }

  function Acks(n: nat): seq<u8> {
    seq(n, _ => ACK)
  }

  /** Sending and receiving over a clean line is the identity, for any mix of block sizes and any number of blocks. */
  lemma {:induction false} CleanTransfer(blocks: seq<seq<u8>>, from: nat, l: Line)
    requires from <= |blocks| && forall i :: 0 <= i < |blocks| ==> IsBlock(blocks[i])
    requires Has(blocks, l.sink, from) && |Flatten(blocks)| <= l.sink.capacity
    ensures var (first, rest) := Stream(blocks, from);
            var (l', v) := Turns(l.(input := AsBytes(rest)), first);
            v == Finished(0) && l'.sink.file == Flatten(blocks) && l'.sent == l.sent + Acks(|blocks| - from + 1)
    decreases |blocks| - from
  {
    hide Accept, FrameTail, Flatten, Has, Header, Number, Turn;
    var (first, rest) := Stream(blocks, from);
    if from == |blocks| {
      HasAll(blocks, l.sink, from);
      EotEnds(l.(input := AsBytes(rest)));
      assert Acks(1) == [ACK];
    } else {
      var (next, more) := Stream(blocks, from + 1);
      var data := blocks[from];
      var after := [Byte(next)] + AsBytes(more);
      assert AsBytes(rest) == AsBytes(FrameTail(Number(from), data)) + after;
      FrameTurn(l, Number(from), data, after);
      RoomForNext(blocks, l.sink, from);
      var k := Accept(l.sink, Number(from), data).0;
      var l1 := Line(after, k, l.sent + [ACK]);
      TurnsOn(l.(input := AsBytes(rest)), first, l1, next, AsBytes(more));
      CleanTransfer(blocks, from + 1, l1);
      assert l.sent + [ACK] + Acks(|blocks| - from) == l.sent + Acks(|blocks| - from + 1);
    }
  }

  lemma EotEnds(l: Line)
    ensures Turns(l, EOT) == (l.(sent := l.sent + [ACK]), Finished(0))
  {
  }

  lemma TurnsOn(l: Line, ch: u8, l1: Line, next: u8, rest: seq<Rx>)
    requires Turn(l, ch) == (l1, Running) && l1.input == [Byte(next)] + rest
    ensures Turns(l, ch) == Turns(l1.(input := rest), next)
  {
    hide Turn;
    assert l1.input[1..] == rest;
  }

  lemma RoomForNext(blocks: seq<seq<u8>>, k: Sink, m: nat)
    requires m < |blocks| && Has(blocks, k, m) && |Flatten(blocks)| <= k.capacity
    ensures var (k', status) := Accept(k, Number(m), blocks[m]);
            status == Ok && Has(blocks, k', m + 1) && k'.capacity == k.capacity
  {
    hide Flatten, Number;
    NumbersDiffer(m);
    FlattenNext(blocks, m);
    FlattenPrefix(blocks, m + 1);
  }
}
