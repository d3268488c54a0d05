/** What a reader gets, told without the machine: the packets that arrive in step with the header, up to
    the first one that does not, which alone decides how the stream ends. */
module FirstDeviation {
  import opened Base
  import opened Protocol
  import opened StreamMachine

  /** A chunk or a trailer; what arrives once a stream is open, apart from repeated headers. */
  predicate IsBody(e: Event) {
    e.Arrival? && !e.packet.HeaderPacket?
  }

  predicate AllBody(events: seq<Event>) {
    forall i | 0 <= i < |events| :: IsBody(events[i])
  }

  function Carried(e: Event): seq<byte> {
    if e.Arrival? && e.packet.ChunkPacket? then e.packet.content else []
  }

  function CarriedBy(events: seq<Event>): seq<seq<byte>> {
    seq(|events|, i requires 0 <= i < |events| => Carried(events[i]))
  }

  /** Event `i` is chunk `i`, under the header's encryption, and still within the declared length. */
  predicate InStep(events: seq<Event>, i: nat, h: Header, encryption: Encryption)
    requires i < |events|
  {
    && events[i].Arrival? && events[i].packet.ChunkPacket?
    && events[i].encryption == encryption
    && events[i].packet.chunkIndex == i
    && (h.totalLength.Some? ==> TotalSize(CarriedBy(events[..i + 1])) <= h.totalLength.value)
  }

  /** How many events arrive in step. */
  function InStepCount(events: seq<Event>, from: nat, h: Header, encryption: Encryption): (j: nat)
    requires from <= |events|
    ensures from <= j <= |events|
    ensures forall i | from <= i < j :: InStep(events, i, h, encryption)
    ensures j < |events| ==> !InStep(events, j, h, encryption)
    decreases |events| - from
  {
    if from < |events| && InStep(events, from, h, encryption)
    then InStepCount(events, from + 1, h, encryption)
    else from
  }

  /** The last thing a reader hears when event `e` arrives after `j` chunks of `size` bytes and is not in step. */
  function Ending(e: Event, j: nat, size: nat, h: Header, encryption: Encryption): seq<Item>
    requires IsBody(e)
  {
    match e.packet
    case ChunkPacket(_, index, content) =>
      if e.encryption != encryption then [Error(EncryptionTypeMismatch)]
      else if index != j then [Error(MissedChunk)]
      else [Error(LengthExceeded)]
    case TrailerPacket(_, reason) =>
      if h.totalLength.Some? && size < h.totalLength.value then [Error(Incomplete)]
      else if reason != "" then [Error(AbnormalEnd(reason))]
      else []
  }

  function Delivered(events: seq<Event>): seq<Item> {
    seq(|events|, i requires 0 <= i < |events| => Data(Carried(events[i])))
  }

  /** What the reader has been sent once all of `events` have arrived. */
  function Heard(events: seq<Event>, h: Header, encryption: Encryption): seq<Item>
    requires AllBody(events)
  {
    var j := InStepCount(events, 0, h, encryption);
    Delivered(events[..j])
    + (if j < |events| then Ending(events[j], j, TotalSize(CarriedBy(events[..j])), h, encryption) else [])
  }

  /** The state of a stream after its header and `events`. */
  predicate Tells(s: Stream, before: Stream, events: seq<Event>, h: Header, encryption: Encryption, identity: string,
                  reserved: seq<string>)
    requires AllBody(events) && h.content.Some?
  {
    var j := InStepCount(events, 0, h, encryption);
    var info := StreamInfo(h.streamId, h.topic, h.totalLength, h.content.value, encryption);
    && s.readers == before.readers + [Channel(info, identity, Heard(events, h, encryption), j == |events|, true)]
    && s.live == (if j < |events| then None
                  else Some(Descriptor(Progress(j, TotalSize(CarriedBy(events)), h.totalLength), encryption,
                                       h.topic in reserved)))
  }

  lemma PrefixInStep(events: seq<Event>, h: Header, encryption: Encryption)
    requires events != []
    ensures var init := events[..|events| - 1];
            var j := InStepCount(events, 0, h, encryption);
            InStepCount(init, 0, h, encryption) == (if j < |events| then j else j - 1)
  {
    var init := events[..|events| - 1];
    forall i | 0 <= i < |init|
      ensures InStep(init, i, h, encryption) <==> InStep(events, i, h, encryption)
    {
      assert init[..i + 1] == events[..i + 1];
    }
    var j, j' := InStepCount(events, 0, h, encryption), InStepCount(init, 0, h, encryption);
    assert !(j' < j && j' < |init|) && !(j < j');
  }

  lemma CarriedSnoc(events: seq<Event>, e: Event)
    ensures CarriedBy(events + [e]) == CarriedBy(events) + [Carried(e)]
    ensures TotalSize(CarriedBy(events + [e])) == TotalSize(CarriedBy(events)) + |Carried(e)|
  {
    assert CarriedBy(events + [e]) == CarriedBy(events) + [Carried(e)];
    FlattenSnoc(CarriedBy(events), Carried(e));
  }

  lemma HeardInStep(events: seq<Event>, h: Header, encryption: Encryption)
    requires AllBody(events) && InStepCount(events, 0, h, encryption) == |events|
    ensures Heard(events, h, encryption) == Delivered(events)
  {
    assert events[..|events|] == events;
  }

  lemma OneInStep(s: Stream, before: Stream, events: seq<Event>, e: Event, h: Header, encryption: Encryption,
                  identity: string, reserved: seq<string>)
    requires s.Fed() && AllBody(events + [e]) && AllBody(events) && h.content.Some?
    requires Tells(s, before, events, h, encryption, identity, reserved)
    requires InStepCount(events, 0, h, encryption) == |events|
    requires InStepCount(events + [e], 0, h, encryption) == |events| + 1
    ensures Tells(Step(s, e, reserved), before, events + [e], h, encryption, identity, reserved)
  {
    var all := events + [e];
    HeardInStep(events, h, encryption);
    HeardInStep(all, h, encryption);
    CarriedSnoc(events, e);
    assert InStep(all, |events|, h, encryption) && all[..|events| + 1] == all;
    assert Delivered(all) == Delivered(events) + [Data(Carried(e))];
    var s' := Step(s, e, reserved);
    assert s'.readers == before.readers + [s'.Current()];
  }

  lemma OneOutOfStep(s: Stream, before: Stream, events: seq<Event>, e: Event, h: Header, encryption: Encryption,
                     identity: string, reserved: seq<string>)
    requires s.Fed() && AllBody(events + [e]) && AllBody(events) && h.content.Some?
    requires Tells(s, before, events, h, encryption, identity, reserved)
    requires InStepCount(events, 0, h, encryption) == |events|
    requires InStepCount(events + [e], 0, h, encryption) == |events|
    ensures Tells(Step(s, e, reserved), before, events + [e], h, encryption, identity, reserved)
  {
    var all := events + [e];
    HeardInStep(events, h, encryption);
    CarriedSnoc(events, e);
    assert IsBody(all[|events|]);
    assert all[..|events|] == events && all[..|events| + 1] == all;
    assert !InStep(all, |events|, h, encryption);
    var s' := Step(s, e, reserved);
    assert s'.readers == before.readers + [s'.Current()];
    assert s'.Current().items == Delivered(events) + Ending(e, |events|, TotalSize(CarriedBy(events)), h, encryption);
  }

  /** One event more: it is in step, it is the first that is not, or it comes too late to matter. */
  lemma OneMore(s: Stream, before: Stream, events: seq<Event>, e: Event, h: Header, encryption: Encryption,
                identity: string, reserved: seq<string>)
    requires s.Fed() && AllBody(events + [e]) && AllBody(events) && h.content.Some?
    requires Tells(s, before, events, h, encryption, identity, reserved)
    ensures Tells(Step(s, e, reserved), before, events + [e], h, encryption, identity, reserved)
  {
    var all := events + [e];
    assert all[..|events|] == events;
    PrefixInStep(all, h, encryption);
    var j := InStepCount(all, 0, h, encryption);
    if j == |all| {
      OneInStep(s, before, events, e, h, encryption, identity, reserved);
    } else if j == |events| {
      OneOutOfStep(s, before, events, e, h, encryption, identity, reserved);
    } else {
      assert IsBody(all[|events|]);
      assert events[..j] == all[..j];
    }
  }

  /** For every sequence of chunks and trailers: the reader gets the chunks in step, then the verdict on the
      first event out of step, and nothing that arrives later changes anything. */
  lemma {:induction false} FirstDeviationDecides(before: Stream, h: Header, encryption: Encryption, identity: string,
                                                 events: seq<Event>, reserved: seq<string>)
    requires before.live.None? && h.content.Some? && AllBody(events)
    ensures Tells(Run(OnHeader(before, h, encryption, identity, reserved), events, reserved),
                  before, events, h, encryption, identity, reserved)
  {
    var s0 := OnHeader(before, h, encryption, identity, reserved);
    if events == [] {
      assert Heard(events, h, encryption) == [];
    } else {
      var init := events[..|events| - 1];
      FirstDeviationDecides(before, h, encryption, identity, init, reserved);
      assert events == init + [events[|events| - 1]];
      OneMore(Run(s0, init, reserved), before, init, events[|events| - 1], h, encryption, identity, reserved);
    }
  }

  // ---- Any events at all ----

  /** The chunks and trailers among `events`. */
  function Bodies(events: seq<Event>): (bodies: seq<Event>)
    ensures AllBody(bodies)
  {
    if events == [] then []
    else
      var n := |events| - 1;
      Bodies(events[..n]) + (if IsBody(events[n]) then [events[n]] else [])
  }

  predicate Departs(e: Event, n: nat) {
    e.ReaderGone? && e.nth == n
  }

  /** When reader `n` goes away, or the number of events. */
  function Departure(events: seq<Event>, n: nat): (d: nat)
    ensures d <= |events|
    ensures forall i | 0 <= i < d :: !Departs(events[i], n)
    ensures d < |events| ==> Departs(events[d], n)
  {
    if events == [] || Departs(events[0], n) then 0 else 1 + Departure(events[1..], n)
  }

  lemma DepartureIs(events: seq<Event>, n: nat, d: nat)
    requires d <= |events| && (forall i | 0 <= i < d :: !Departs(events[i], n))
    requires d < |events| ==> Departs(events[d], n)
    ensures Departure(events, n) == d
  {
    var d' := Departure(events, n);
    assert !(d < d') && !(d' < d);
  }

  /** Reader `n` of a stream that has seen `bodies` since its header; while they are in step it is the last reader
      and the stream is live. */
  predicate Follows(s: Stream, n: nat, bodies: seq<Event>, h: Header, encryption: Encryption, identity: string,
                    reserved: seq<string>)
    requires AllBody(bodies) && h.content.Some?
  {
    var j := InStepCount(bodies, 0, h, encryption);
    var info := StreamInfo(h.streamId, h.topic, h.totalLength, h.content.value, encryption);
    && n < |s.readers|
    && s.readers[n] == Channel(info, identity, Heard(bodies, h, encryption), j == |bodies|, true)
    && (j == |bodies| ==>
          && |s.readers| == n + 1
          && s.live == Some(Descriptor(Progress(j, TotalSize(CarriedBy(bodies)), h.totalLength), encryption,
                                       h.topic in reserved)))
  }

  lemma EndedStays(s: Stream, n: nat, e: Event, reserved: seq<string>)
    requires Reachable(s, reserved) && n < |s.readers| && !s.readers[n].senderOpen && !Departs(e, n)
    ensures n < |Step(s, e, reserved).readers| && Step(s, e, reserved).readers[n] == s.readers[n]
  {
    StepIsLater(s, e, reserved);
  }

  lemma LateHeard(bodies: seq<Event>, e: Event, h: Header, encryption: Encryption)
    requires AllBody(bodies) && IsBody(e) && InStepCount(bodies, 0, h, encryption) < |bodies|
    ensures AllBody(bodies + [e]) && InStepCount(bodies + [e], 0, h, encryption) < |bodies|
    ensures Heard(bodies + [e], h, encryption) == Heard(bodies, h, encryption)
  {
    var all := bodies + [e];
    assert all[..|bodies|] == bodies;
    PrefixInStep(all, h, encryption);
    var j := InStepCount(all, 0, h, encryption);
    assert bodies[..j] == all[..j];
  }

  lemma FollowsBody(s: Stream, n: nat, bodies: seq<Event>, e: Event, h: Header, encryption: Encryption,
                    identity: string, reserved: seq<string>)
    requires Reachable(s, reserved) && AllBody(bodies) && IsBody(e) && h.content.Some?
    requires Follows(s, n, bodies, h, encryption, identity, reserved)
    ensures AllBody(bodies + [e])
    ensures Follows(Step(s, e, reserved), n, bodies + [e], h, encryption, identity, reserved)
  {
    if InStepCount(bodies, 0, h, encryption) == |bodies| {
      var before := Stream(s.readers[..n], None);
      assert s.readers == before.readers + [s.readers[n]];
      OneMore(s, before, bodies, e, h, encryption, identity, reserved);
    } else {
      LateHeard(bodies, e, h, encryption);
      EndedStays(s, n, e, reserved);
    }
  }

  lemma FollowsOther(s: Stream, n: nat, bodies: seq<Event>, e: Event, h: Header, encryption: Encryption,
                     identity: string, reserved: seq<string>)
    requires Reachable(s, reserved) && AllBody(bodies) && !IsBody(e) && !Departs(e, n) && h.content.Some?
    requires Follows(s, n, bodies, h, encryption, identity, reserved)
    ensures Follows(Step(s, e, reserved), n, bodies, h, encryption, identity, reserved)
  {
    if InStepCount(bodies, 0, h, encryption) < |bodies| {
      EndedStays(s, n, e, reserved);
    }
  }

  /** No chunk and no trailer from position `d` on. */
  predicate Quiet(events: seq<Event>, d: nat) {
    forall i | d <= i < |events| :: !IsBody(events[i])
  }

  /** What reader `n` holds after a header and `events`. Its stream is open while all is in step, and once the reader
      has departed until the next chunk or trailer, whatever that is. */
  predicate Hears(c: Channel, n: nat, h: Header, encryption: Encryption, identity: string, events: seq<Event>)
    requires h.content.Some?
  {
    var d := Departure(events, n);
    var seen := Bodies(events[..d]);
    && c.info == StreamInfo(h.streamId, h.topic, h.totalLength, h.content.value, encryption) && c.identity == identity
    && c.items == Heard(seen, h, encryption)
    && (c.readerOpen <==> d == |events|)
    && (c.senderOpen <==> InStepCount(seen, 0, h, encryption) == |seen| && Quiet(events, d))
  }

  /** And while it is there it follows the stream. */
  predicate Attends(s: Stream, n: nat, h: Header, encryption: Encryption, identity: string, events: seq<Event>,
                    reserved: seq<string>)
    requires h.content.Some?
  {
    && Reachable(s, reserved)
    && n < |s.readers| && Hears(s.readers[n], n, h, encryption, identity, events)
    && (Departure(events, n) == |events| ==> Follows(s, n, Bodies(events), h, encryption, identity, reserved))
  }

  lemma JustOpened(before: Stream, h: Header, encryption: Encryption, identity: string, reserved: seq<string>)
    requires Reachable(before, reserved) && before.live.None? && h.content.Some?
    ensures Attends(OnHeader(before, h, encryption, identity, reserved), |before.readers|, h, encryption, identity, [],
                    reserved)
  {
    StepKeepsReachable(before, Arrival(HeaderPacket(h), encryption, identity), reserved);
    assert Heard([], h, encryption) == [] && CarriedBy([]) == [];
  }

  lemma OneMoreHeard(s: Stream, n: nat, h: Header, encryption: Encryption, identity: string, events: seq<Event>,
                     e: Event, reserved: seq<string>)
    requires h.content.Some? && Attends(s, n, h, encryption, identity, events, reserved)
    ensures Attends(Step(s, e, reserved), n, h, encryption, identity, events + [e], reserved)
  {
    StepKeepsReachable(s, e, reserved);
    if Departure(events, n) < |events| {
      HeardAfterDeparture(s, n, h, encryption, identity, events, e, reserved);
    } else if Departs(e, n) {
      HeardAtDeparture(s, n, h, encryption, identity, events, e, reserved);
    } else {
      HeardWhileThere(s, n, h, encryption, identity, events, e, reserved);
    }
  }

  lemma {:induction false} EveryReaderAttends(before: Stream, h: Header, encryption: Encryption, identity: string,
                                              events: seq<Event>, reserved: seq<string>)
    requires Reachable(before, reserved) && before.live.None? && h.content.Some?
    ensures Attends(Run(OnHeader(before, h, encryption, identity, reserved), events, reserved), |before.readers|, h,
                    encryption, identity, events, reserved)
  {
    var s0 := OnHeader(before, h, encryption, identity, reserved);
    if events == [] {
      JustOpened(before, h, encryption, identity, reserved);
    } else {
      var init, e := events[..|events| - 1], events[|events| - 1];
      assert events == init + [e];
      EveryReaderAttends(before, h, encryption, identity, init, reserved);
      OneMoreHeard(Run(s0, init, reserved), |before.readers|, h, encryption, identity, init, e, reserved);
      RunSnoc(s0, init, e, reserved);
    }
  }

  /** For every sequence of events whatsoever, repeated headers, other readers' departures and its own included: the
      reader a header opens gets the chunks in step, then the verdict on the first chunk or trailer out of step, all
      cut off where it departs. */
  lemma EveryReaderHears(before: Stream, h: Header, encryption: Encryption, identity: string, events: seq<Event>,
                         reserved: seq<string>)
    requires Reachable(before, reserved) && before.live.None? && h.content.Some?
    ensures var n, s := |before.readers|, Run(OnHeader(before, h, encryption, identity, reserved), events, reserved);
            n < |s.readers| && Hears(s.readers[n], n, h, encryption, identity, events)
  {
    EveryReaderAttends(before, h, encryption, identity, events, reserved);
  }

  lemma HeardAfterDeparture(s: Stream, n: nat, h: Header, encryption: Encryption, identity: string, events: seq<Event>,
                            e: Event, reserved: seq<string>)
    requires Reachable(s, reserved) && h.content.Some? && Departure(events, n) < |events|
    requires n < |s.readers| && Hears(s.readers[n], n, h, encryption, identity, events)
    ensures n < |Step(s, e, reserved).readers| && Departure(events + [e], n) < |events|
    ensures Hears(Step(s, e, reserved).readers[n], n, h, encryption, identity, events + [e])
  {
    var all, d := events + [e], Departure(events, n);
    DepartureIs(all, n, d);
    assert all[..d] == events[..d];
    StepIsLater(s, e, reserved);
    assert Quiet(all, d) <==> Quiet(events, d) && !IsBody(e) by {
      assert forall i | 0 <= i < |events| :: all[i] == events[i];
      assert all[|events|] == e;
    }
    if s.readers[n].senderOpen {
      DepartedStream(s, n, e, reserved);
    } else {
      EndedStaysEnded(s, n, e, reserved);
    }
  }

  lemma EndedStaysEnded(s: Stream, n: nat, e: Event, reserved: seq<string>)
    requires Reachable(s, reserved) && n < |s.readers| && !s.readers[n].senderOpen
    ensures n < |Step(s, e, reserved).readers| && !Step(s, e, reserved).readers[n].senderOpen
  {
    StepIsLater(s, e, reserved);
  }

  /** An open stream without a reader ends with the next chunk or trailer and with nothing else. */
  lemma DepartedStream(s: Stream, n: nat, e: Event, reserved: seq<string>)
    requires Reachable(s, reserved) && n < |s.readers| && s.readers[n].senderOpen && !s.readers[n].readerOpen
    ensures n < |Step(s, e, reserved).readers|
    ensures Step(s, e, reserved).readers[n].senderOpen <==> !IsBody(e)
    ensures Step(s, e, reserved).live.None? <==> IsBody(e)
  {
    assert s.live.Some? && n == |s.readers| - 1;
  }

  lemma HeardAtDeparture(s: Stream, n: nat, h: Header, encryption: Encryption, identity: string, events: seq<Event>,
                         e: Event, reserved: seq<string>)
    requires s.Fed() && h.content.Some? && Departure(events, n) == |events| && Departs(e, n)
    requires n < |s.readers| && Hears(s.readers[n], n, h, encryption, identity, events)
    ensures n < |Step(s, e, reserved).readers| && Departure(events + [e], n) == |events|
    ensures Hears(Step(s, e, reserved).readers[n], n, h, encryption, identity, events + [e])
  {
    DepartureIs(events + [e], n, |events|);
    assert (events + [e])[..|events|] == events == events[..|events|];
  }

  lemma HeardWhileThere(s: Stream, n: nat, h: Header, encryption: Encryption, identity: string, events: seq<Event>,
                        e: Event, reserved: seq<string>)
    requires Reachable(s, reserved) && h.content.Some? && Departure(events, n) == |events| && !Departs(e, n)
    requires Follows(s, n, Bodies(events), h, encryption, identity, reserved)
    ensures Departure(events + [e], n) == |events + [e]|
    ensures Follows(Step(s, e, reserved), n, Bodies(events + [e]), h, encryption, identity, reserved)
    ensures Hears(Step(s, e, reserved).readers[n], n, h, encryption, identity, events + [e])
  {
    var all := events + [e];
    DepartureIs(all, n, |all|);
    assert all[..|events|] == events && all[..|all|] == all;
    if IsBody(e) {
      FollowsBody(s, n, Bodies(events), e, h, encryption, identity, reserved);
    } else {
      FollowsOther(s, n, Bodies(events), e, h, encryption, identity, reserved);
      assert Bodies(events) + [] == Bodies(events);
    }
  }

  // ---- When the next header opens a stream ----

  /** After a trailer no stream is open, whether its reader is there or not; nor after a chunk that finds no reader. */
  lemma EndsWithBody(s: Stream, e: Event, reserved: seq<string>)
    requires Reachable(s, reserved) && IsBody(e)
    requires e.packet.TrailerPacket? || (s.readers != [] && !s.Current().readerOpen)
    ensures Step(s, e, reserved).live.None? && |Step(s, e, reserved).readers| == |s.readers|
  {
    if s.live.Some? {
      if !s.Current().readerOpen {
        DepartedStream(s, |s.readers| - 1, e, reserved);
      }
    }
  }

  /** So, after any run, once a trailer or a chunk without a reader has arrived, the next valid header of the id opens a
      new stream with a new reader; and an invalid one opens nothing, ever. */
  lemma NextHeaderOpens(events: seq<Event>, e: Event, h: Header, encryption: Encryption, identity: string,
                        reserved: seq<string>)
    requires IsBody(e)
    requires var s := Run(Idle, events, reserved);
             e.packet.TrailerPacket? || (s.readers != [] && !s.Current().readerOpen)
    ensures var n := |Run(Idle, events, reserved).readers|;
            var s := Run(Idle, events + [e], reserved);
            var s' := Run(Idle, events + [e] + [Arrival(HeaderPacket(h), encryption, identity)], reserved);
            && |s.readers| == n && s.live.None?
            && (h.content.None? ==> s' == s)
            && (h.content.Some? ==>
                  && s'.live.Some? && |s'.readers| == n + 1 && s'.readers[..n] == s.readers
                  && s'.readers[n]
                     == Channel(StreamInfo(h.streamId, h.topic, h.totalLength, h.content.value, encryption), identity,
                                [], true, true))
  {
    EveryRunReachable(events, reserved);
    RunSnoc(Idle, events, e, reserved);
    RunSnoc(Idle, events + [e], Arrival(HeaderPacket(h), encryption, identity), reserved);
    EndsWithBody(Run(Idle, events, reserved), e, reserved);
  }

  /** A header without content changes nothing in any state, and neither does a second header while a stream is open. */
  lemma HeaderIgnoredIff(s: Stream, h: Header, encryption: Encryption, identity: string, reserved: seq<string>)
    requires s.Fed()
    ensures Step(s, Arrival(HeaderPacket(h), encryption, identity), reserved) == s <==> h.content.None? || s.live.Some?
  {
    if h.content.Some? && s.live.None? {
      assert Step(s, Arrival(HeaderPacket(h), encryption, identity), reserved).live.Some?;
    }
  }
}
