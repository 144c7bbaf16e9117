/**
  The bounded queue between a publisher and a slow player, and how it is thinned
  out at its high-water mark. The RTMP writer and the HLS source share it, with
  1024 and 512 places.
 */
module PacketQueue {
  import opened Bytes

  datatype Kind = Audio | Video(isSeq: bool, isKeyFrame: bool) | Other

  datatype Packet = Packet(kind: Kind, data: seq<int>) {
    /** Never shed: sound, key frames and decoder configuration. */
    predicate Precious() {
      kind.Audio? || (kind.Video? && (kind.isSeq || kind.isKeyFrame))
    }
  }

  function PreciousOf(q: seq<Packet>): seq<Packet> {
    if q == [] then [] else if q[0].Precious() then [q[0]] + PreciousOf(q[1..]) else PreciousOf(q[1..])
  }

  function HighWater(max: nat): int {
    max - 24
  }

  /** How many packets are taken off the front and looked at. */
  function Looked(max: nat): nat
    requires max > 84
  {
    max - 84
  }

  /** The thinned queue: what was looked at goes, or to the back if it is precious. */
  function Thinned(q: seq<Packet>, n: nat): seq<Packet>
    requires n <= |q|
  {
    q[n..] + PreciousOf(q[..n])
  }

  lemma {:induction false} PreciousSnoc(q: seq<Packet>, p: Packet)
    ensures PreciousOf(q + [p]) == PreciousOf(q) + if p.Precious() then [p] else []
    decreases |q|
  {
    if q == [] {
      assert [p][1..] == [] && q + [p] == [p];
    } else {
      PreciousSnoc(q[1..], p);
      assert (q + [p])[1..] == q[1..] + [p] && (q + [p])[0] == q[0];
    }
  }

  lemma {:induction false} PreciousAppend(a: seq<Packet>, b: seq<Packet>)
    ensures PreciousOf(a + b) == PreciousOf(a) + PreciousOf(b)
    decreases |b|
  {
    if b == [] {
      assert a + b == a && PreciousOf(a) + [] == PreciousOf(a);
    } else {
      var front, last := b[..|b| - 1], b[|b| - 1];
      PreciousAppend(a, front);
      PreciousSnoc(a + front, last);
      PreciousSnoc(front, last);
      assert b == front + [last] && a + b == (a + front) + [last];
    }
  }

  lemma {:induction false} PreciousOnly(q: seq<Packet>)
    ensures |PreciousOf(q)| <= |q| && PreciousOf(PreciousOf(q)) == PreciousOf(q)
    decreases |q|
  {
    if q != [] {
      PreciousOnly(q[1..]);
      var first: seq<Packet> := if q[0].Precious() then [q[0]] else [];
      PreciousAppend(first, PreciousOf(q[1..]));
      PreciousOne(q[0]);
    }
  }

  lemma PreciousOne(p: Packet)
    ensures PreciousOf([p]) == if p.Precious() then [p] else []
  {
    assert [p][1..] == [];
  }

  /** Thinning loses nothing precious and doubles nothing, and only what was looked at can go. */
  lemma NothingPreciousIsLost(q: seq<Packet>, n: nat)
    requires n <= |q|
    ensures multiset(PreciousOf(Thinned(q, n))) == multiset(PreciousOf(q))
    ensures multiset(Thinned(q, n)) <= multiset(q)
    ensures |q| - n <= |Thinned(q, n)| <= |q|
  {
    assert q == q[..n] + q[n..];
    PreciousAppend(q[..n], q[n..]);
    PreciousAppend(q[n..], PreciousOf(q[..n]));
    PreciousOnly(q[..n]);
    PreciousWithin(q[..n]);
  }

  lemma {:induction false} PreciousWithin(q: seq<Packet>)
    ensures multiset(PreciousOf(q)) <= multiset(q)
    decreases |q|
  {
    if q != [] {
      PreciousWithin(q[1..]);
      assert q == [q[0]] + q[1..];
    }
  }

  /** The queue gets shorter if and only if something looked at was not precious. */
  lemma ShorterIff(q: seq<Packet>, n: nat)
    requires n <= |q|
    ensures |Thinned(q, n)| < |q| <==> exists k :: 0 <= k < n && !q[k].Precious()
  {
    AllPreciousIff(q[..n]);
    if k :| 0 <= k < n && !q[k].Precious() {
      assert q[..n][k] == q[k];
    } else {
      assert forall k :: 0 <= k < n ==> q[..n][k].Precious();
    }
  }

  lemma {:induction false} AllPreciousIff(q: seq<Packet>)
    ensures |PreciousOf(q)| <= |q|
    ensures |PreciousOf(q)| == |q| <==> forall k :: 0 <= k < |q| ==> q[k].Precious()
    decreases |q|
  {
    if q != [] {
      AllPreciousIff(q[1..]);
      assert forall k :: 0 < k < |q| ==> q[k] == q[1..][k - 1];
      assert forall k :: 0 <= k < |q| - 1 ==> q[1..][k] == q[k + 1];
    }
  }

  // -------------------------------------------------------------- thinning

  /** One packet taken off the front; None if the call waits at an empty or a full queue. */
  function DropStep(max: nat, q: seq<Packet>): Option<seq<Packet>> {
    if q == [] then None
    else
      var p, rest := q[0], q[1..];
      match p.kind
      case Audio =>
        if |rest| > max - 2 then Some(rest[Min(1, |rest|)..])
        else if |rest| < max then Some(rest + [p]) else None
      case Video(_, _) =>
        if p.Precious() && |rest| >= max then None
        else
          var kept := if p.Precious() then rest + [p] else rest;
          Some(if |kept| > max - 10 then kept[Min(1, |kept|)..] else kept)
      case Other => Some(rest)
  }

  function Drop(max: nat, q: seq<Packet>, n: nat): Option<seq<Packet>>
    decreases n
  {
    if n == 0 then Some(q)
    else
      var next := DropStep(max, q);
      if next.None? then None else Drop(max, next.value, n - 1)
  }

  /**
    From the high-water mark, and up to ten below the limit, thinning never waits,
    never comes to the places that shed sound or key frames, and gives `Thinned`.
   */
  lemma {:induction false} DropIsThinned(max: nat, q: seq<Packet>, n: nat)
    requires max > 84 && n <= |q| <= max - 10
    ensures Drop(max, q, n) == Some(Thinned(q, n))
    decreases n
  {
    if n == 0 {
      assert q[0..] + PreciousOf(q[..0]) == q;
    } else {
      var p := q[0];
      var next := q[1..] + if p.Precious() then [p] else [];
      assert DropStep(max, q) == Some(next) by {
        assert q[1..] + [] == q[1..];
      }
      DropIsThinned(max, next, n - 1);
      ThinnedStep(q, n);
    }
  }

  lemma ThinnedStep(q: seq<Packet>, n: nat)
    requires 0 < n <= |q|
    ensures Thinned(q, n) == Thinned(q[1..] + if q[0].Precious() then [q[0]] else [], n - 1)
  {
    var first: seq<Packet> := if q[0].Precious() then [q[0]] else [];
    var next := q[1..] + first;
    assert next[..n - 1] == q[1..n] && next[n - 1..] == q[n..] + first;
    assert q[..n][1..] == q[1..n] && q[..n][0] == q[0];
  }

  // ------------------------------------------------------- the queue itself

  /** A channel with room for `capacity` packets; a call that would wait is not allowed for. */
  class Channel {
    var items: seq<Packet>
    const capacity: nat

    constructor (capacity: nat)
      ensures items == [] && this.capacity == capacity
    {
      items, this.capacity := [], capacity;
    }

    method Receive() returns (p: Packet)
      requires items != []
      modifies this
      ensures p == old(items)[0] && items == old(items)[1..]
    {
      p := items[0];
      items := items[1..];
    }

    method Send(p: Packet)
      requires |items| < capacity
      modifies this
      ensures items == old(items) + [p]
    {
      items := items + [p];
    }
  }

  class Writer {
    const packetQueue: Channel
    const max: nat
    var closed: bool

    predicate Valid()
      reads this, packetQueue
    {
      max > 84 && packetQueue.capacity == max && |packetQueue.items| <= HighWater(max)
    }

    constructor (max: nat)
      requires max > 84
      ensures Valid() && packetQueue.items == [] && this.max == max && !closed && fresh(packetQueue)
    {
      packetQueue := new Channel(max);
      this.max := max;
      closed := false;
    }

    /** With no one receiving meanwhile; false if it would wait for ever. */
    method DropPacket() returns (done: bool)
      requires max > 84 && packetQueue.capacity == max && |packetQueue.items| <= max
      modifies packetQueue
      ensures var after := Drop(max, old(packetQueue.items), Looked(max));
              done == after.Some? && (done ==> packetQueue.items == after.value)
    {
      for i := 0 to Looked(max)
        invariant |packetQueue.items| <= max
        invariant Drop(max, packetQueue.items, Looked(max) - i) == Drop(max, old(packetQueue.items), Looked(max))
      {
        if packetQueue.items == [] {
          return false;
        }
        var tmpPkt := packetQueue.Receive();
        if tmpPkt.kind.Audio? {
          if |packetQueue.items| > max - 2 {
            var dropped := packetQueue.Receive();
          } else {
            packetQueue.Send(tmpPkt);
          }
        }
        if tmpPkt.kind.Video? {
          if tmpPkt.kind.isSeq || tmpPkt.kind.isKeyFrame {
            packetQueue.Send(tmpPkt);
          }
          if |packetQueue.items| > max - 10 {
            var dropped := packetQueue.Receive();
          }
        }
      }
      done := true;
    }

    /** At the high-water mark the queue is thinned, and the packet itself is not queued. */
    method Write(p: Packet) returns (ok: bool)
      requires Valid()
      modifies packetQueue
      ensures Valid() && ok == !closed
      ensures packetQueue.items == if closed then old(packetQueue.items) else After(max, old(packetQueue.items), Put(p))
    {
      if closed {
        return false;
      }
      if |packetQueue.items| >= HighWater(max) {
        DropIsThinned(max, packetQueue.items, Looked(max));
        var done := DropPacket();
        NothingPreciousIsLost(old(packetQueue.items), Looked(max));
      } else {
        packetQueue.Send(p);
      }
      ok := true;
    }

    /** What the sending loop takes. */
    method Next() returns (p: Packet)
      requires Valid() && packetQueue.items != []
      modifies packetQueue
      ensures Valid() && p == old(packetQueue.items)[0] && packetQueue.items == old(packetQueue.items)[1..]
    {
      p := packetQueue.Receive();
    }
  }

  // ----------------------------------------------------------- whole runs

  datatype Event = Put(p: Packet) | Get

  function After(max: nat, q: seq<Packet>, e: Event): seq<Packet>
    requires max > 84 && |q| <= HighWater(max)
  {
    match e
    case Put(p) => if |q| >= HighWater(max) then Thinned(q, Looked(max)) else q + [p]
    case Get => if q == [] then q else q[1..]
  }

  function Run(max: nat, events: seq<Event>): (q: seq<Packet>)
    requires max > 84
    ensures |q| <= HighWater(max)
    decreases |events|
  {
    if events == [] then []
    else
      var before := Run(max, events[..|events| - 1]);
      var q := After(max, before, events[|events| - 1]);
      assert |q| <= HighWater(max) by {
        if |before| >= HighWater(max) {
          NothingPreciousIsLost(before, Looked(max));
        }
      }
      q
  }

  /** The packets put in, in their order. */
  function Offered(events: seq<Event>): seq<Packet>
    decreases |events|
  {
    if events == [] then []
    else
      var before, e := Offered(events[..|events| - 1]), events[|events| - 1];
      if e.Put? then before + [e.p] else before
  }

  /** The packets refused at the high-water mark. */
  function Refused(max: nat, events: seq<Event>): seq<Packet>
    requires max > 84
    decreases |events|
  {
    if events == [] then []
    else
      var before, e := events[..|events| - 1], events[|events| - 1];
      if e.Put? && |Run(max, before)| >= HighWater(max) then Refused(max, before) + [e.p] else Refused(max, before)
  }

  /** The packets taken out, in their order. */
  function Taken(max: nat, events: seq<Event>): seq<Packet>
    requires max > 84
    decreases |events|
  {
    if events == [] then []
    else
      var before, e := events[..|events| - 1], events[|events| - 1];
      var q := Run(max, before);
      if e.Get? && q != [] then Taken(max, before) + [q[0]] else Taken(max, before)
  }

  /**
    Over any run, every precious packet offered has been taken, is queued, or was
    refused at the door: none is lost from the queue, and none is doubled.
   */
  lemma {:induction false} PreciousConserved(max: nat, events: seq<Event>)
    requires max > 84
    ensures multiset(PreciousOf(Offered(events)))
         == multiset(PreciousOf(Taken(max, events))) + multiset(PreciousOf(Run(max, events)))
            + multiset(PreciousOf(Refused(max, events)))
    decreases |events|
  {
    hide PreciousOf, Thinned;
    if events == [] {
      NoPrecious();
    } else {
      var before, e := events[..|events| - 1], events[|events| - 1];
      var q := Run(max, before);
      PreciousConserved(max, before);
      assert Run(max, events) == After(max, q, e);
      hide Run;
      match e
      case Put(p) =>
        Appended(Offered(before), p);
        if |q| >= HighWater(max) {
          Appended(Refused(max, before), p);
          NothingPreciousIsLost(q, Looked(max));
        } else {
          Appended(q, p);
        }
      case Get =>
        if q != [] {
          Appended(Taken(max, before), q[0]);
          Removed(q);
        }
    }
  }

  lemma NoPrecious()
    ensures PreciousOf([]) == []
  {
  }

  /** What one packet more adds to the precious ones. */
  lemma Appended(q: seq<Packet>, p: Packet)
    ensures multiset(PreciousOf(q + [p])) == multiset(PreciousOf(q)) + multiset(if p.Precious() then [p] else [])
  {
    PreciousSnoc(q, p);
  }

  lemma Removed(q: seq<Packet>)
    requires q != []
    ensures multiset(PreciousOf(q)) == multiset(if q[0].Precious() then [q[0]] else []) + multiset(PreciousOf(q[1..]))
  {
  }

  /** The `k`th event offers `p` while the queue is at the high-water mark. */
  predicate AtTheMark(max: nat, events: seq<Event>, p: Packet, k: nat)
    requires max > 84
  {
    k < |events| && events[k] == Put(p) && |Run(max, events[..k])| >= HighWater(max)
  }

  /**
    The door is not selective, but it is all there is: a precious packet, a key frame as
    well, is missing from what was taken and what is queued if and only if it was
    offered at the high-water mark.
   */
  lemma MissingIff(max: nat, events: seq<Event>, p: Packet)
    requires max > 84 && p.Precious()
    ensures multiset(Taken(max, events))[p] + multiset(Run(max, events))[p] < multiset(Offered(events))[p] <==>
            exists k: nat :: AtTheMark(max, events, p, k)
  {
    PreciousConserved(max, events);
    PreciousCount(Offered(events), p);
    PreciousCount(Taken(max, events), p);
    PreciousCount(Run(max, events), p);
    PreciousCount(Refused(max, events), p);
    RefusedIff(max, events, p);
    hide Offered, Taken, Run, Refused, PreciousOf, AtTheMark;
    assert p in Refused(max, events) <==> multiset(Refused(max, events))[p] > 0;
  }

  lemma {:induction false} PreciousCount(q: seq<Packet>, p: Packet)
    requires p.Precious()
    ensures multiset(PreciousOf(q))[p] == multiset(q)[p]
  {
    if q != [] {
      PreciousCount(q[1..], p);
      assert q == [q[0]] + q[1..];
    }
  }

  lemma {:induction false} RefusedIff(max: nat, events: seq<Event>, p: Packet)
    requires max > 84
    ensures p in Refused(max, events) <==> exists k: nat :: AtTheMark(max, events, p, k)
    decreases |events|
  {
    hide Run;
    if events != [] {
      var n := |events| - 1;
      var before := events[..n];
      RefusedIff(max, before, p);
      forall k: nat | k < n ensures AtTheMark(max, events, p, k) == AtTheMark(max, before, p, k) {
        assert events[..k] == before[..k];
      }
      if exists k: nat :: AtTheMark(max, events, p, k) {
        var k: nat :| AtTheMark(max, events, p, k);
        assert k < n ==> AtTheMark(max, before, p, k);
      }
      if events[n] == Put(p) && |Run(max, before)| >= HighWater(max) {
        assert AtTheMark(max, events, p, n);
      }
      if p in Refused(max, before) {
        var k: nat :| AtTheMark(max, before, p, k);
        assert AtTheMark(max, events, p, k);
      }
    }
  }

  /** A queue of nothing but precious packets is only turned round: the mark is reached again at once. */
  lemma {:induction false} StuckWhenAllPrecious(max: nat, q: seq<Packet>, p: Packet)
    requires max > 84 && |q| == HighWater(max) && forall k :: 0 <= k < |q| ==> q[k].Precious()
    ensures |After(max, q, Put(p))| == HighWater(max)
  {
    NothingPreciousIsLost(q, Looked(max));
    ShorterIff(q, Looked(max));
  }

  // --------------------------------------------------- what is shed, by kind

  /** Sound, sequence headers and key frames, in their order. */
  function KeptKinds(q: seq<Packet>): seq<Packet> {
    if q == [] then []
    else
      var before, p := KeptKinds(q[..|q| - 1]), q[|q| - 1];
      match p.kind
      case Audio => before + [p]
      case Video(isSeq, isKeyFrame) => if isSeq || isKeyFrame then before + [p] else before
      case Other => before
  }

  /**
    Writing below the mark, which is 24 short of the limit, queues the packet. At the mark
    all but the last 60 packets are looked at; sound, sequence headers and key frames among
    them go to the back, all else is dropped, and the packet written as well.
   */
  lemma WrittenByKind(max: nat, q: seq<Packet>, p: Packet)
    requires max > 84 && |q| <= max - 24
    ensures After(max, q, Put(p)) == if |q| < max - 24 then q + [p] else q[max - 84..] + KeptKinds(q[..max - 84])
  {
    if |q| == max - 24 {
      PreciousIsKept(q[..max - 84]);
    }
  }

  lemma {:induction false} PreciousIsKept(q: seq<Packet>)
    ensures PreciousOf(q) == KeptKinds(q)
    decreases |q|
  {
    if q != [] {
      var front, p := q[..|q| - 1], q[|q| - 1];
      PreciousIsKept(front);
      PreciousSnoc(front, p);
      assert q == front + [p] && PreciousOf(front) + [] == PreciousOf(front);
    }
  }

  /**
    What one step of shedding does to a queue of any length up to the limit. Below it
    sound goes to the back; in a full queue it is dropped, and so is the packet behind it.
    From nine below the limit on a picture that goes, to the back or for good, takes the
    packet behind it along.
   */
  lemma ShedByKind(max: nat, q: seq<Packet>)
    requires max > 84 && 0 < |q| <= max
    ensures DropStep(max, q).Some?
    ensures var first, after := q[0], DropStep(max, q).value;
            && (first.kind.Audio? ==> after == if |q| == max then q[2..] else q[1..] + [first])
            && (first.kind.Video? && (first.kind.isSeq || first.kind.isKeyFrame) ==>
                 after == (if |q| < max - 9 then q[1..] else q[2..]) + [first])
            && (first.kind.Video? && !first.kind.isSeq && !first.kind.isKeyFrame ==>
                 after == if |q| < max - 8 then q[1..] else q[2..])
            && (first.kind.Other? ==> after == q[1..])
  {
    var rest := q[1..];
    if |q| >= 2 {
      assert rest[1..] == q[2..] && (rest + [q[0]])[1..] == q[2..] + [q[0]];
    }
  }
}
