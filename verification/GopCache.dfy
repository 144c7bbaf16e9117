/**
  The cache of groups of pictures as the server keeps it: a ring of arrays that
  are emptied and used again, written through and sent from by index.
 */
module GopCache {
  import opened Bytes
  import opened Gop

  /** One group: a slice of packets that is emptied in place. */
  class GopArray {
    var index: nat
    var packets: seq<Packet>

    predicate Valid()
      reads this
    {
      index == |packets|
    }

    constructor ()
      ensures Valid() && packets == []
    {
      index, packets := 0, [];
    }

    method Reset()
      modifies this
      ensures Valid() && packets == []
    {
      index, packets := 0, [];
    }

    method Write(p: Packet) returns (ok: bool)
      requires Valid()
      modifies this
      ensures Valid() && packets == Appended(old(packets), p) && ok == (old(|packets|) < MAX_GOP_CAP)
    {
      if index >= MAX_GOP_CAP {
        return false;
      }
      packets := packets + [p];
      index := index + 1;
      ok := true;
    }

    method Send(w: Player) returns (ok: bool)
      requires Valid()
      modifies w
      ensures w.Took(old(w.got), old(w.room), packets) && ok == (|packets| <= old(w.room))
    {
      for i := 0 to index
        invariant w.Took(old(w.got), old(w.room), packets[..i]) && i <= old(w.room)
      {
        var written := w.Write(packets[i]);
        if !written {
          return false;
        }
        assert packets[..i] + [packets[i]] == packets[..i + 1];
      }
      assert packets[..index] == packets;
      ok := true;
    }
  }

  /** Where packets are sent: it takes `room` more, and then refuses. */
  class Player {
    var got: seq<Packet>
    var room: nat

    /** Since it had `before` and `space`, `sent` was sent to it. */
    predicate Took(before: seq<Packet>, space: nat, sent: seq<Packet>)
      reads this
    {
      got == before + sent[..Min(|sent|, space)] && room == space - Min(|sent|, space)
    }

    method Write(p: Packet) returns (ok: bool)
      modifies this
      ensures Took(old(got), old(room), [p]) && ok == (old(room) > 0)
    {
      ok := room > 0;
      if ok {
        got := got + [p];
        room := room - 1;
      }
    }
  }

  lemma TookMore(before: seq<Packet>, space: nat, done: seq<Packet>, more: seq<Packet>, rest: seq<Packet>)
    requires |done| <= space
    ensures before + done[..Min(|done|, space)] + more[..Min(|more|, space - |done|)]
         == before + (done + more)[..Min(|done + more|, space)]
    ensures done + (more + rest) == (done + more) + rest
    ensures |done + more| > space ==> (done + (more + rest))[..space] == (done + more)[..space]
  {
  }

  class GopCache {
    var start: bool
    var num: nat
    const count: nat
    var nextIndex: nat
    const gops: array<GopArray?>

    ghost predicate Valid()
      reads this, gops, Slots()
    {
      gops.Length == count && (count > 0 ==> nextIndex < count) && (count == 0 ==> !start) &&
      (forall i :: 0 <= i < count && gops[i] != null ==> gops[i].Valid()) &&
      (forall i, j :: 0 <= i < j < count && gops[i] != null ==> gops[i] != gops[j])
    }

    ghost function Slots(): set<object>
      reads gops
    {
      set i | 0 <= i < gops.Length && gops[i] != null :: gops[i]
    }

    /** The fields as values. */
    ghost function State(): Ring
      reads this, gops, Slots()
    {
      Ring(start, num, nextIndex,
           seq(gops.Length, i requires 0 <= i < gops.Length reads gops, Slots() =>
             if gops[i] == null then None else Some(gops[i].packets)))
    }

    constructor (num: nat)
      ensures Valid() && count == num && State() == Fresh(num) && fresh(gops) && Slots() == {}
    {
      start, this.num, count, nextIndex := false, 0, num, 0;
      gops := new GopArray?[num](_ => null);
    }

    /** The next slot of the ring is filled, or emptied and used again. */
    method StartNew(p: Packet)
      requires Valid() && count > 0 && start && p.Starts()
      modifies this, gops, Slots()
      ensures Valid() && Some(State()) == Written(old(State()), p) && fresh(Slots() - old(Slots()))
    {
      ghost var was := State();
      var at := nextIndex;
      var ginc := gops[at];
      if ginc == null {
        ginc := new GopArray();
        num := num + 1;
        gops[at] := ginc;
      } else {
        ginc.Reset();
      }
      var written := ginc.Write(p);
      assert ginc.packets == [p];
      nextIndex := (nextIndex + 1) % count;
      OthersKept(at);
      assert State().gops == was.gops[at := Some([p])];
    }

    /** The packet goes to the current slot; `ok` is false at the crash if that is empty. */
    method Append(p: Packet) returns (ok: bool)
      requires Valid() && count > 0 && start && !p.Starts()
      modifies this, gops, Slots()
      ensures ok == Written(old(State()), p).Some?
      ensures ok ==> Valid() && Some(State()) == Written(old(State()), p) && Slots() == old(Slots())
    {
      ghost var was := State();
      var current := (nextIndex + 1) % count;
      var ginc := gops[current];
      if ginc == null {
        return false;
      }
      var written := ginc.Write(p);
      OthersKept(current);
      assert State().gops == was.gops[current := Some(Appended(was.gops[current].value, p))];
      ok := true;
    }

    /** Different slots hold different arrays, so writing one leaves the others alone. */
    lemma OthersKept(at: nat)
      requires Valid() && at < count
      ensures forall i :: 0 <= i < count && i != at && gops[i] != null ==> gops[i] != gops[at]
    {
    }

    method Write(p: Packet) returns (ok: bool)
      requires Valid()
      modifies this, gops, Slots()
      ensures ok == Written(old(State()), p).Some?
      ensures ok ==> Valid() && State() == Written(old(State()), p).value && fresh(Slots() - old(Slots()))
    {
      var starts := p.isVideo && p.isKeyFrame && !p.isSeq;
      if starts || start {
        if count == 0 {
          return false;
        }
        ghost var was := State();
        start := true;
        assert State() == was.(start := true);
        if starts {
          StartNew(p);
          ok := true;
        } else {
          ok := Append(p);
        }
      } else {
        ok := true;
      }
    }

    /**
      Every group in its turn: Some(true) if all went, Some(false) if the player
      refused one, None at the crash on an empty or missing slot.
     */
    method Send(w: Player) returns (sent: Option<bool>)
      requires Valid()
      modifies w
      ensures var all := BeforeCrash(State(), 0);
              w.Took(old(w.got), old(w.room), all) &&
              sent == if |all| > old(w.room) then Some(false) else if SentFrom(State(), 0).None? then None else Some(true)
    {
      hide BeforeCrash, SentFrom, SlotAt;
      if count == 0 {
        NoSlots(State());
        assert w.Took(old(w.got), old(w.room), []);
        return None;
      }
      ghost var r := State();
      ghost var done: seq<Packet> := [];
      for i := 0 to num
        invariant w.Took(old(w.got), old(w.room), done) && |done| <= old(w.room)
        invariant BeforeCrash(r, 0) == done + BeforeCrash(r, i)
        invariant SentFrom(r, 0).Some? == SentFrom(r, i).Some? && State() == r
      {
        SendStep(r, i);
        var g := GroupAt(i);
        assert State() == r && SlotAt(State(), i) == SlotAt(r, i);
        if g == null {
          assert done + [] == done;
          return None;
        }
        var ok := g.Send(w);
        assert State() == r;
        TookMore(old(w.got), old(w.room), done, g.packets, BeforeCrash(r, i + 1));
        if !ok {
          return Some(false);
        }
        done := done + g.packets;
      }
      SendStep(r, num);
      sent := Some(true);
    }

    /** The slot to send at step `i`, null if it is empty or not there. */
    method GroupAt(i: nat) returns (g: GopArray?)
      requires Valid() && count > 0 && i < num
      ensures var index := SlotAt(State(), i);
              if 0 <= index < count && State().gops[index].Some? then
                g != null && State().gops[index].value == g.packets
              else g == null
      ensures g != null ==> g.Valid()
    {
      var pos := (nextIndex + 1) % count;
      var index: int := (pos - num + 1) + i;
      if index < 0 {
        index := index + count;
      }
      g := if 0 <= index < count then gops[index] else null;
    }
  }

  lemma NoSlots(r: Ring)
    requires r.gops == []
    ensures BeforeCrash(r, 0) == [] && SentFrom(r, 0).None?
  {
  }

  lemma SendStep(r: Ring, i: nat)
    requires |r.gops| > 0
    ensures if i >= r.num then BeforeCrash(r, i) == [] && SentFrom(r, i).Some?
            else
              var index := SlotAt(r, i);
              if 0 <= index < |r.gops| && r.gops[index].Some? then
                BeforeCrash(r, i) == r.gops[index].value + BeforeCrash(r, i + 1) &&
                SentFrom(r, i).Some? == SentFrom(r, i + 1).Some?
              else BeforeCrash(r, i) == [] && SentFrom(r, i).None?
  {
    hide SlotAt;
  }
}
