/**
  The cache of groups of pictures that a new player is sent first: a ring of
  `count` groups, each holding at most 1024 packets.
 */
module Gop {
  import opened Bytes

  const MAX_GOP_CAP := 1024

  /** Of a packet, what the cache looks at, and the rest. */
  datatype Packet = Packet(isVideo: bool, isKeyFrame: bool, isSeq: bool, data: seq<byte>) {
    predicate Starts() {
      isVideo && isKeyFrame && !isSeq
    }
  }

  // ------------------------------------------------------ what is promised

  /** The groups of a stream, oldest first; what comes before the first key frame is in none. */
  function Groups(ps: seq<Packet>): (g: seq<seq<Packet>>)
    ensures forall k :: 0 <= k < |g| ==> g[k] != [] && g[k][0].Starts()
  {
    if ps == [] then []
    else
      var before := Groups(ps[..|ps| - 1]);
      var p := ps[|ps| - 1];
      if p.Starts() then before + [[p]]
      else if before == [] then []
      else before[..|before| - 1] + [before[|before| - 1] + [p]]
  }

  function Cut(g: seq<Packet>): seq<Packet> {
    g[..Min(|g|, MAX_GOP_CAP)]
  }

  /** The groups from `from` on, each cut short, one after another. */
  function Joined(groups: seq<seq<Packet>>, from: nat): seq<Packet>
    requires from <= |groups|
    decreases |groups| - from
  {
    if from == |groups| then [] else Cut(groups[from]) + Joined(groups, from + 1)
  }

  /** The last `count` groups, or all if there are fewer. */
  function Replay(ps: seq<Packet>, count: nat): seq<Packet> {
    var g := Groups(ps);
    Joined(g, |g| - Min(count, |g|))
  }

  // --------------------------------------------------------- what is done

  /** The fields of the cache; a slot of the ring is empty until first used. */
  datatype Ring = Ring(start: bool, num: nat, nextIndex: nat, gops: seq<Option<seq<Packet>>>)

  function Fresh(count: nat): Ring {
    Ring(false, 0, 0, seq(count, _ => None))
  }

  /** One packet more in a group that is not full. */
  function Appended(g: seq<Packet>, p: Packet): seq<Packet> {
    if |g| >= MAX_GOP_CAP then g else g + [p]
  }

  /** A packet written; None is the crash on an empty slot, or on a ring without any. */
  function Written(r: Ring, p: Packet): Option<Ring>
    requires r.gops != [] ==> r.nextIndex < |r.gops|
  {
    var count := |r.gops|;
    if !p.Starts() && !r.start then Some(r)
    else if count == 0 then None
    else if p.Starts() then
      Some(Ring(true, if r.gops[r.nextIndex].None? then r.num + 1 else r.num, (r.nextIndex + 1) % count,
                r.gops[r.nextIndex := Some([p])]))
    else
      var current := (r.nextIndex + 1) % count;
      if r.gops[current].None? then None
      else Some(r.(gops := r.gops[current := Some(Appended(r.gops[current].value, p))]))
  }

  /** Written one after another. */
  function WrittenAll(count: nat, ps: seq<Packet>): (r: Option<Ring>)
    ensures r.Some? ==> |r.value.gops| == count && (count > 0 ==> r.value.nextIndex < count)
  {
    if ps == [] then Some(Fresh(count))
    else
      var r := WrittenAll(count, ps[..|ps| - 1]);
      if r.None? then None else Written(r.value, ps[|ps| - 1])
  }

  /** The slot sent at step `i`; the source does not check that it is one. */
  function SlotAt(r: Ring, i: nat): int
    requires |r.gops| > 0
  {
    var pos := (r.nextIndex + 1) % |r.gops|;
    var index := pos - r.num + 1 + i;
    if index < 0 then index + |r.gops| else index
  }

  /** What is sent from step `i` on; None is the crash on an empty or missing slot, or without any at once. */
  function SentFrom(r: Ring, i: nat): Option<seq<Packet>>
    decreases r.num - i
  {
    if r.gops == [] then None
    else if i >= r.num then Some([])
    else
      var index := SlotAt(r, i);
      if !(0 <= index < |r.gops|) || r.gops[index].None? then None
      else
        var rest := SentFrom(r, i + 1);
        if rest.None? then None else Some(r.gops[index].value + rest.value)
  }

  /** What is sent from step `i` until the end or the crash. */
  function BeforeCrash(r: Ring, i: nat): seq<Packet>
    decreases r.num - i
  {
    if r.gops == [] || i >= r.num then []
    else
      var index := SlotAt(r, i);
      if !(0 <= index < |r.gops|) || r.gops[index].None? then [] else r.gops[index].value + BeforeCrash(r, i + 1)
  }

  lemma {:induction false} NoCrashSendsAll(r: Ring, i: nat)
    requires SentFrom(r, i).Some?
    ensures BeforeCrash(r, i) == SentFrom(r, i).value
    decreases r.num - i
  {
    if i < r.num {
      NoCrashSendsAll(r, i + 1);
    }
  }

  /** The packets go through the cache, and then it is replayed. */
  function Replayed(ps: seq<Packet>, count: nat): Option<seq<Packet>> {
    var r := WrittenAll(count, ps);
    if r.None? then None else SentFrom(r.value, 0)
  }

  // ------------------------------------------------------------- theorems

  /** With one or two slots, the ring holds the last groups in the slots their numbers give. */
  predicate Holds(r: Ring, groups: seq<seq<Packet>>) {
    var count := |r.gops|;
    var n := |groups|;
    1 <= count <= 2 && r.start == (n > 0) && r.num == Min(count, n) && r.nextIndex == n % count &&
    (forall k :: n - r.num <= k < n ==> r.gops[k % count] == Some(Cut(groups[k]))) &&
    (forall k :: n <= k < count ==> r.gops[k].None?)
  }

  lemma {:induction false} RunHolds(count: nat, ps: seq<Packet>)
    requires 1 <= count <= 2
    ensures WrittenAll(count, ps).Some? && Holds(WrittenAll(count, ps).value, Groups(ps))
    decreases |ps|
  {
    if ps != [] {
      var before, p := ps[..|ps| - 1], ps[|ps| - 1];
      RunHolds(count, before);
      StepHolds(WrittenAll(count, before).value, Groups(before), p);
    }
  }

  lemma StepHolds(r: Ring, groups: seq<seq<Packet>>, p: Packet)
    requires Holds(r, groups) && (forall k :: 0 <= k < |groups| ==> groups[k] != [])
    ensures var after := if p.Starts() then groups + [[p]]
                         else if groups == [] then []
                         else groups[..|groups| - 1] + [groups[|groups| - 1] + [p]];
            r.nextIndex < |r.gops| && Written(r, p).Some? && Holds(Written(r, p).value, after)
  {
    if p.Starts() {
      StartHolds(r, groups, p);
    } else if groups != [] {
      AppendHolds(r, groups, p);
    }
  }

  lemma StartHolds(r: Ring, groups: seq<seq<Packet>>, p: Packet)
    requires Holds(r, groups) && p.Starts()
    ensures r.nextIndex < |r.gops| && Holds(Written(r, p).value, groups + [[p]])
  {
    var n, count := |groups|, |r.gops|;
    assert Cut([p]) == [p];
    NextSlot(n, count);
    hide Cut;
    var after := Written(r, p).value;
    assert after.num == Min(count, n + 1) && after.nextIndex == (n + 1) % count && |after.gops| == count;
    forall k | n + 1 - after.num <= k < n + 1
      ensures after.gops[k % count] == Some(Cut((groups + [[p]])[k]))
    {
      if k < n {
        assert k % count != n % count;
      }
    }
    if n < count { Small(n, count); }
  }

  lemma AppendHolds(r: Ring, groups: seq<seq<Packet>>, p: Packet)
    requires Holds(r, groups) && !p.Starts() && groups != [] && groups[|groups| - 1] != []
    ensures r.nextIndex < |r.gops| && Written(r, p).Some?
    ensures Holds(Written(r, p).value, groups[..|groups| - 1] + [groups[|groups| - 1] + [p]])
  {
    var n, count := |groups|, |r.gops|;
    var g := groups[n - 1];
    NextSlot(n, count);
    assert Cut(g + [p]) == Appended(Cut(g), p);
    hide Cut, Appended;
    var after := Written(r, p).value;
    var more := groups[..n - 1] + [g + [p]];
    forall k | n - after.num <= k < n ensures after.gops[k % count] == Some(Cut(more[k])) {
      if k < n - 1 {
        assert k % count != (n - 1) % count;
      }
    }
  }

  /** The ring steps on by one, and with one or two slots two steps come round. */
  lemma NextSlot(n: nat, count: nat)
    requires 1 <= count <= 2
    ensures (n % count + 1) % count == (n + 1) % count
    ensures n > 0 ==> (n + 1) % count == (n - 1) % count
    ensures count == 2 && n > 0 ==> (n - 1) % count != n % count
    ensures count == 2 && n > 1 ==> (n - 2) % count != (n - 1) % count
  {
  }

  /**
    Any stream at all is replayed as promised, without a crash, if and only if the
    cache has one or two slots.
   */
  lemma ReplayIff(count: nat, p: Packet)
    requires p.Starts()
    ensures (forall ps: seq<Packet> :: Replayed(ps, count) == Some(Replay(ps, count))) <==> 1 <= count <= 2
  {
    if count == 0 {
      assert Replayed([], count) == None;
    } else if count <= 2 {
      forall ps: seq<Packet> ensures Replayed(ps, count) == Some(Replay(ps, count)) {
        ReplayRight(count, ps);
      }
    } else {
      CrashesAfterOne(count, p);
      assert Replayed([p], count) != Some(Replay([p], count));
    }
  }

  lemma ReplayRight(count: nat, ps: seq<Packet>)
    requires 1 <= count <= 2
    ensures Replayed(ps, count) == Some(Replay(ps, count))
  {
    RunHolds(count, ps);
    var r := WrittenAll(count, ps).value;
    var g := Groups(ps);
    SendsFrom(r, g, 0);
  }

  /** In so many words: the last group with one slot, and the last two with two, each up to its packet 1024. */
  lemma LastGroups(count: nat, ps: seq<Packet>)
    requires 1 <= count <= 2
    ensures var g, n := Groups(ps), |Groups(ps)|;
            Replayed(ps, count) ==
              if n == 0 then Some([])
              else if count == 1 || n == 1 then Some(g[n - 1][..Min(|g[n - 1]|, 1024)])
              else Some(g[n - 2][..Min(|g[n - 2]|, 1024)] + g[n - 1][..Min(|g[n - 1]|, 1024)])
  {
    ReplayRight(count, ps);
    var g, n := Groups(ps), |Groups(ps)|;
    hide Groups, Replayed;
    JoinedEnd(g);
  }

  lemma JoinedEnd(g: seq<seq<Packet>>)
    ensures var n := |g|;
            && Joined(g, n) == []
            && (n > 0 ==> Joined(g, n - 1) == Cut(g[n - 1]))
            && (n > 1 ==> Joined(g, n - 2) == Cut(g[n - 2]) + Cut(g[n - 1]))
  {
    hide Cut;
    var n := |g|;
    if n > 0 {
      assert Joined(g, n - 1) == Cut(g[n - 1]) + Joined(g, n);
      assert Cut(g[n - 1]) + [] == Cut(g[n - 1]);
    }
  }

  lemma {:induction false} SendsFrom(r: Ring, groups: seq<seq<Packet>>, i: nat)
    requires Holds(r, groups) && i <= r.num
    ensures SentFrom(r, i) == Some(Joined(groups, |groups| - r.num + i))
    decreases r.num - i
  {
    if i < r.num {
      var k := |groups| - r.num + i;
      assert SlotAt(r, i) == k % |r.gops|;
      SendsFrom(r, groups, i + 1);
    }
  }

  /** With more slots, the first group is started in one slot and looked for in another. */
  lemma CrashesAfterOne(count: nat, p: Packet)
    requires count > 2 && p.Starts()
    ensures Replayed([p], count) == None
  {
    assert [p][..0] == [];
    Small(1, count);
    Small(2, count);
    var r := Written(Fresh(count), p).value;
    assert WrittenAll(count, [p]) == Some(r);
    assert r.num == 1 && r.nextIndex == 1 && r.gops[2] == None;
    hide Written, WrittenAll, Fresh;
    assert SlotAt(r, 0) == 2;
  }

  // -------------------------------------------------- when writing crashes

  /** How many groups are started. */
  function Started(ps: seq<Packet>): nat {
    if ps == [] then 0 else Started(ps[..|ps| - 1]) + if ps[|ps| - 1].Starts() then 1 else 0
  }

  /**
    Packet `i` needs a slot that is not there: any key frame if there are none at all,
    and with three or more whatever is appended to one of the first `count - 2` groups.
   */
  predicate NeedsMissing(count: nat, ps: seq<Packet>, i: nat) {
    i < |ps| && if ps[i].Starts() then count == 0 else 1 <= Started(ps[..i]) <= count - 2
  }

  /** Without a crash so far, the slots are filled in order, one for each group started. */
  predicate Filled(r: Ring, n: nat) {
    && r.start == (n > 0) && (r.gops == [] ==> n == 0)
    && (r.gops != [] ==> r.nextIndex == n % |r.gops|)
    && forall k :: 0 <= k < |r.gops| ==> (r.gops[k].Some? <==> k < n)
  }

  /** Writing a stream crashes if and only if some packet of it needs a slot that is missing. */
  lemma {:induction false} WriteCrashesIff(count: nat, ps: seq<Packet>)
    ensures WrittenAll(count, ps).None? <==> exists i: nat :: NeedsMissing(count, ps, i)
    ensures WrittenAll(count, ps).Some? ==> Filled(WrittenAll(count, ps).value, Started(ps))
    decreases |ps|
  {
    if ps != [] {
      var n := |ps| - 1;
      var before := ps[..n];
      WriteCrashesIff(count, before);
      NeedsBefore(count, before, ps);
      hide NeedsMissing;
      if WrittenAll(count, before).Some? {
        hide WrittenAll;
        var r := WrittenAll(count, before).value;
        StepCrashesIff(count, r, ps);
        StepOfAll(count, ps);
        if Written(r, ps[n]).Some? {
          StepFills(r, Started(before), ps[n]);
          StartedSnoc(ps);
        }
      }
    }
  }

  lemma StepOfAll(count: nat, ps: seq<Packet>)
    requires ps != [] && WrittenAll(count, ps[..|ps| - 1]).Some?
    ensures WrittenAll(count, ps) == Written(WrittenAll(count, ps[..|ps| - 1]).value, ps[|ps| - 1])
  {
    hide Written;
  }

  lemma StepCrashesIff(count: nat, r: Ring, ps: seq<Packet>)
    requires ps != [] && |r.gops| == count && Filled(r, Started(ps[..|ps| - 1]))
    ensures (count > 0 ==> r.nextIndex < count) && (Written(r, ps[|ps| - 1]).None? <==> NeedsMissing(count, ps, |ps| - 1))
  {
    var n := Started(ps[..|ps| - 1]);
    hide Started;
    if count > 0 {
      SlotsInTurn(n, count);
    }
  }

  /** If writing does not crash, the next slot is filled by a start, and none by anything else. */
  lemma StepFills(r: Ring, n: nat, p: Packet)
    requires Filled(r, n) && (r.gops != [] ==> r.nextIndex < |r.gops|) && Written(r, p).Some?
    ensures Filled(Written(r, p).value, n + if p.Starts() then 1 else 0)
  {
    hide Appended;
    var count := |r.gops|;
    if count > 0 {
      SlotsInTurn(n, count);
      SumModulo(n, count);
      if n >= count {
        assert n % count < n;
      }
    }
  }

  lemma StartedSnoc(ps: seq<Packet>)
    requires ps != []
    ensures Started(ps) == Started(ps[..|ps| - 1]) + if ps[|ps| - 1].Starts() then 1 else 0
  {
  }

  /** The current slot after `n` starts is one of those filled, except in the first round. */
  lemma SlotsInTurn(n: nat, count: nat)
    requires count > 0
    ensures var slot := (n % count + 1) % count;
            slot == (n + 1) % count && (n > 0 ==> (slot < n <==> n > count - 2)) && (n < count ==> n % count == n)
  {
    if n < count {
      Small(n, count);
      if n + 1 < count {
        Small(n + 1, count);
      }
    } else {
      SumModulo(n, count);
    }
  }

  lemma Small(n: nat, count: nat)
    requires n < count
    ensures n % count == n
  {
  }

  lemma SumModulo(n: nat, count: nat)
    requires count > 0
    ensures (n % count + 1) % count == (n + 1) % count
  {
    var q, m := n / count, n % count;
    assert n + 1 == q * count + (m + 1);
    if m + 1 == count {
      assert n + 1 == (q + 1) * count + 0;
      Remainder(n + 1, q + 1, 0, count);
      Remainder(count, 1, 0, count);
    } else {
      Remainder(n + 1, q, m + 1, count);
      Small(m + 1, count);
    }
  }

  lemma Remainder(x: nat, q: nat, m: nat, count: nat)
    requires m < count && x == q * count + m
    ensures x % count == m
  {
    var d := x / count - q;
    assert x == x / count * count + x % count;
    assert d * count == m - x % count;
    NoMultiple(d, count);
  }

  lemma NoMultiple(d: int, count: nat)
    ensures d > 0 ==> d * count >= count
    ensures d < 0 ==> d * count <= 0 - count
  {
  }

  /** All packets but the last need what they needed without it. */
  lemma NeedsBefore(count: nat, before: seq<Packet>, ps: seq<Packet>)
    requires ps != [] && before == ps[..|ps| - 1]
    ensures (exists i: nat :: NeedsMissing(count, ps, i)) <==>
            (exists i: nat :: NeedsMissing(count, before, i)) || NeedsMissing(count, ps, |ps| - 1)
  {
    var n := |ps| - 1;
    forall i: nat | i < n ensures NeedsMissing(count, ps, i) == NeedsMissing(count, before, i) {
      assert before[i] == ps[i] && ps[..i] == before[..i];
    }
    if exists i: nat :: NeedsMissing(count, ps, i) {
      var i: nat :| NeedsMissing(count, ps, i);
      assert i < n ==> NeedsMissing(count, before, i);
    }
    if exists i: nat :: NeedsMissing(count, before, i) {
      var i: nat :| NeedsMissing(count, before, i);
      assert NeedsMissing(count, ps, i);
    }
  }

  /** Where the first group starts, if one does. */
  function FirstStart(ps: seq<Packet>): (n: nat)
    ensures n <= |ps|
  {
    if ps == [] then 0
    else
      var n := FirstStart(ps[..|ps| - 1]);
      if n < |ps| - 1 || ps[n].Starts() then n else |ps|
  }

  lemma {:induction false} FirstStartIs(ps: seq<Packet>)
    ensures var n := FirstStart(ps); (forall i :: 0 <= i < n ==> !ps[i].Starts()) && (n < |ps| ==> ps[n].Starts())
    decreases |ps|
  {
    if ps != [] {
      FirstStartIs(ps[..|ps| - 1]);
    }
  }

  /** From the first key frame on, the groups are the stream: no packet is lost, doubled or moved. */
  lemma {:induction false} GroupsAreTheStream(ps: seq<Packet>)
    ensures Flat(Groups(ps)) == ps[FirstStart(ps)..] && (Groups(ps) == [] <==> FirstStart(ps) == |ps|)
    ensures forall i :: 0 <= i < FirstStart(ps) ==> !(ps[i].isVideo && ps[i].isKeyFrame && !ps[i].isSeq)
    decreases |ps|
  {
    FirstStartIs(ps);
    hide FirstStart, Flat;
    FlatNone();
    if ps == [] {
      FirstStartNone();
    } else {
      var before, p := ps[..|ps| - 1], ps[|ps| - 1];
      GroupsAreTheStream(before);
      FirstStartStep(ps);
      var g := Groups(before);
      FlatSnoc(g, [p]);
      if g != [] {
        LastFlat(g[..|g| - 1], g[|g| - 1], p);
        assert g[..|g| - 1] + [g[|g| - 1]] == g;
      }
      assert ps[FirstStart(before)..] == before[FirstStart(before)..] + [p];
    }
  }

  /** One packet more in the last group is one more at the end. */
  lemma LastFlat(front: seq<seq<Packet>>, last: seq<Packet>, p: Packet)
    ensures Flat(front + [last + [p]]) == Flat(front + [last]) + [p]
  {
    hide Flat;
    FlatSnoc(front, last);
    FlatSnoc(front, last + [p]);
    assert Flat(front) + (last + [p]) == Flat(front) + last + [p];
  }

  lemma FirstStartNone()
    ensures FirstStart([]) == 0
  {
  }

  lemma FlatNone()
    ensures Flat([]) == []
  {
  }

  lemma FirstStartStep(ps: seq<Packet>)
    requires ps != []
    ensures var n := FirstStart(ps[..|ps| - 1]);
            FirstStart(ps) == if n < |ps| - 1 || ps[n].Starts() then n else |ps|
  {
  }

  /** The stream is split before every key frame, and nowhere else. */
  lemma {:induction false} OneStartEach(ps: seq<Packet>, k: nat, i: nat)
    requires k < |Groups(ps)| && i < |Groups(ps)[k]|
    ensures var p := Groups(ps)[k][i]; p.isVideo && p.isKeyFrame && !p.isSeq <==> i == 0
    decreases |ps|
  {
    var before := Groups(ps[..|ps| - 1]);
    if k < |before| && i < |before[k]| {
      OneStartEach(ps[..|ps| - 1], k, i);
    }
  }

  function Flat(groups: seq<seq<Packet>>): seq<Packet> {
    if groups == [] then [] else groups[0] + Flat(groups[1..])
  }

  lemma {:induction false} FlatSnoc(groups: seq<seq<Packet>>, last: seq<Packet>)
    ensures Flat(groups + [last]) == Flat(groups) + last
    decreases |groups|
  {
    if groups == [] {
      assert Flat([last]) == last + Flat([last][1..]);
    } else {
      FlatSnoc(groups[1..], last);
      assert (groups + [last])[1..] == groups[1..] + [last];
    }
  }
}
