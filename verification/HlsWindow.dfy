/**
  The window of segments that a playlist offers: a list of the latest names and a
  map from names to segments, kept side by side.
 */
module HlsWindow {
  import opened Bytes

  const WINDOW := 3

  datatype Item = Item(name: string, seqNum: int, duration: nat, data: seq<byte>)

  datatype Window = Window(names: seq<string>, items: map<string, Item>)

  /** A new segment: the oldest name goes when the list is full, and with it whatever the map has for it. */
  function Set(w: Window, item: Item): Window {
    var full := |w.names| == WINDOW;
    var names := if full then w.names[1..] else w.names;
    var items := if full then w.items - {w.names[0]} else w.items;
    Window(names + [item.name], items[item.name := item])
  }

  function SetAll(all: seq<Item>): (w: Window)
    ensures |w.names| == Min(WINDOW, |all|)
  {
    if all == [] then Window([], map[]) else Set(SetAll(all[..|all| - 1]), all[|all| - 1])
  }

  /** The latest segments, as many as there may be. */
  function Latest(all: seq<Item>): seq<Item> {
    all[|all| - Min(WINDOW, |all|)..]
  }

  function Names(all: seq<Item>): (names: seq<string>)
    ensures |names| == |all|
  {
    seq(|all|, i requires 0 <= i < |all| => all[i].name)
  }

  predicate Has(items: map<string, Item>, item: Item) {
    item.name in items && items[item.name] == item
  }

  predicate HasAll(items: map<string, Item>, wanted: seq<Item>) {
    forall k :: 0 <= k < |wanted| ==> Has(items, wanted[k])
  }

  /** What the window should hold: the latest segments, each under its name, and no other. */
  predicate Exact(w: Window, all: seq<Item>) {
    w.names == Names(Latest(all)) && HasAll(w.items, Latest(all)) && forall name :: name in w.items ==> name in w.names
  }

  /** The list is always right, and the map never holds what the list does not name. */
  lemma {:induction false} ListIsLatest(all: seq<Item>)
    ensures SetAll(all).names == Names(Latest(all))
    ensures forall name :: name in SetAll(all).items ==> name in SetAll(all).names
    decreases |all|
  {
    hide Set, SetAll, Names, Latest;
    if all == [] {
      NoneListed(all);
    } else {
      var before, item := all[..|all| - 1], all[|all| - 1];
      ListIsLatest(before);
      LatestSnoc(before, item);
      SetAllSnoc(before, item);
      SetNames(SetAll(before), item);
      assert all == before + [item];
    }
  }

  lemma NoneListed(all: seq<Item>)
    requires all == []
    ensures SetAll(all) == Window([], map[]) && Names(Latest(all)) == []
  {
  }

  lemma SetNames(w: Window, item: Item)
    requires |w.names| <= WINDOW && forall name :: name in w.items ==> name in w.names
    ensures Set(w, item).names == (if |w.names| == WINDOW then w.names[1..] else w.names) + [item.name]
    ensures forall name :: name in Set(w, item).items ==> name in Set(w, item).names
  {
    if |w.names| == WINDOW {
      assert w.names == [w.names[0]] + w.names[1..];
    }
  }

  lemma LatestSnoc(all: seq<Item>, item: Item)
    ensures Names(Latest(all + [item])) ==
            (if |all| >= WINDOW then Names(Latest(all))[1..] else Names(Latest(all))) + [item.name]
  {
  }

  /** Segments are numbered from one on. */
  predicate Numbered(all: seq<Item>) {
    forall k :: 0 <= k < |all| ==> all[k].seqNum == k + 1
  }

  /** A segment does not share its name with either of the two before it. */
  predicate Unlike(all: seq<Item>, k: nat)
    requires k < |all|
  {
    (k >= 1 ==> all[k - 1].name != all[k].name) && (k >= 2 ==> all[k - 2].name != all[k].name)
  }

  predicate AllUnlike(all: seq<Item>) {
    forall k :: |all| - Min(WINDOW, |all|) <= k < |all| ==> Unlike(all, k)
  }

  /**
    List and map hold exactly the latest three segments if and only if each of these
    is named unlike the two before it. Otherwise a name is either written over or, when
    an older segment of the same name goes, taken out of the map though the list has it.
   */
  lemma WindowIff(all: seq<Item>)
    requires Numbered(all)
    ensures Exact(SetAll(all), all) <==> AllUnlike(all)
  {
    ListIsLatest(all);
    hide SetAll, Latest, Unlike, Names, Has, AllUnlike, HasAll;
    if |all| >= 3 {
      ThreeLatest(all);
      ThreeUnlike(all);
    } else {
      FewLatest(all);
    }
  }

  lemma ThreeUnlike(all: seq<Item>)
    requires |all| >= 3
    ensures var n := |all|;
            (AllUnlike(all) <==> Unlike(all, n - 3) && Unlike(all, n - 2) && Unlike(all, n - 1)) &&
            forall items :: HasAll(items, Latest(all)) <==>
              Has(items, all[n - 3]) && Has(items, all[n - 2]) && Has(items, all[n - 1])
  {
    hide Unlike, Has;
    var n := |all|;
    var latest := Latest(all);
    assert latest[0] == all[n - 3] && latest[1] == all[n - 2] && latest[2] == all[n - 1];
  }

  lemma FewLatest(all: seq<Item>)
    requires Numbered(all) && |all| < 3
    ensures HasAll(SetAll(all).items, Latest(all)) <==> AllUnlike(all)
  {
    hide Set, SetAll, Has, HasAll, AllUnlike, Latest;
    FewUnlike(all);
    NoneSet();
    if |all| == 2 {
      var a, b := all[0], all[1];
      TwoSets(a, b);
      SetAllSnoc([], a);
      SetAllSnoc([] + [a], b);
      assert all == [] + [a] + [b];
    } else if |all| == 1 {
      SetAllSnoc([], all[0]);
      assert all == [] + [all[0]];
      OneSet(all[0]);
    }
  }

  lemma FewUnlike(all: seq<Item>)
    requires |all| < 3
    ensures AllUnlike(all) <==> (|all| == 2 ==> all[0].name != all[1].name)
    ensures forall items :: HasAll(items, Latest(all)) <==>
              (|all| >= 1 ==> Has(items, all[0])) && (|all| >= 2 ==> Has(items, all[1]))
  {
    hide Has;
    assert Latest(all) == all;
    if |all| == 2 {
      assert Unlike(all, 0) && (Unlike(all, 1) <==> all[0].name != all[1].name);
    }
  }

  lemma NoneSet()
    ensures SetAll([]) == Window([], map[])
  {
  }

  lemma OneSet(a: Item)
    ensures Has(Set(Window([], map[]), a).items, a)
  {
  }

  lemma SetAllSnoc(all: seq<Item>, item: Item)
    ensures SetAll(all + [item]) == Set(SetAll(all), item)
  {
    hide Set;
    assert (all + [item])[..|all|] == all;
  }

  lemma TwoSets(a: Item, b: Item)
    requires a != b
    ensures var items := Set(Set(Window([], map[]), a), b).items; Has(items, a) && Has(items, b) <==> a.name != b.name
  {
  }

  lemma ThreeLatest(all: seq<Item>)
    requires Numbered(all) && |all| >= 3
    ensures var n, items := |all|, SetAll(all).items;
            Has(items, all[n - 3]) && Has(items, all[n - 2]) && Has(items, all[n - 1]) <==>
            Unlike(all, n - 3) && Unlike(all, n - 2) && Unlike(all, n - 1)
  {
    hide Set, SetAll, Has, Names, Latest, Unlike, Numbered;
    var n := |all|;
    var front, a, b, c := all[..n - 3], all[n - 3], all[n - 2], all[n - 1];
    ThreeMore(all);
    SetAllSnoc(front, a);
    SetAllSnoc(front + [a], b);
    SetAllSnoc(front + [a] + [b], c);
    ListIsLatest(front);
    UnlikeLast(all);
    NumberedUnequal(all);
    var w := SetAll(front);
    ThreeSets(w, a, b, c);
  }

  lemma NumberedUnequal(all: seq<Item>)
    requires Numbered(all)
    ensures forall i, j :: 0 <= i < j < |all| ==> all[i] != all[j]
  {
  }

  /** What unlike names mean for the end of the list before the last three segments. */
  lemma UnlikeLast(all: seq<Item>)
    requires |all| >= 3
    ensures var n, names := |all|, Names(Latest(all[..|all| - 3]));
            var m := |names|;
            var a, b, c := all[n - 3].name, all[n - 2].name, all[n - 1].name;
            (Unlike(all, n - 3) && Unlike(all, n - 2) && Unlike(all, n - 1) <==>
             a != b && a != c && b != c && (m >= 1 ==> names[m - 1] != a && names[m - 1] != b) &&
             (m >= 2 ==> names[m - 2] != a))
  {
    LastNames(all, |all| - 3);
    hide Names, Latest;
  }

  lemma ThreeMore(all: seq<Item>)
    requires |all| >= 3
    ensures all == all[..|all| - 3] + [all[|all| - 3]] + [all[|all| - 2]] + [all[|all| - 1]]
  {
  }

  /** The end of the list before the last three segments. */
  lemma LastNames(all: seq<Item>, m: nat)
    requires m <= |all|
    ensures var names := Names(Latest(all[..m]));
            |names| == Min(WINDOW, m) &&
            (m >= 1 ==> names[|names| - 1] == all[m - 1].name) && (m >= 2 ==> names[|names| - 2] == all[m - 2].name)
  {
  }

  /** Of three segments put in one after the other, those survive that no older name takes away. */
  lemma ThreeSets(w: Window, a: Item, b: Item, c: Item)
    requires |w.names| <= WINDOW && a != b && b != c && a != c
    ensures var n := |w.names|;
            var items := Set(Set(Set(w, a), b), c).items;
            Has(items, a) && Has(items, b) && Has(items, c) <==>
            a.name != b.name && a.name != c.name && b.name != c.name &&
            (n >= 1 ==> w.names[n - 1] != a.name && w.names[n - 1] != b.name) &&
            (n >= 2 ==> w.names[n - 2] != a.name)
  {
  }

  // --------------------------------------------------------------- playlist

  /** What a playlist says: the target duration in seconds, the first number, and an entry per segment. */
  datatype Playlist = Playlist(target: nat, sequence: int, entries: seq<(nat, string)>)

  /** The segments that the list names and the map holds. */
  function Listed(names: seq<string>, items: map<string, Item>): seq<Item> {
    if names == [] then []
    else
      var front := Listed(names[..|names| - 1], items);
      var name := names[|names| - 1];
      if name in items then front + [items[name]] else front
  }

  function Longest(items: seq<Item>): (d: nat)
    ensures forall k :: 0 <= k < |items| ==> items[k].duration <= d
  {
    if items == [] then 0
    else
      var front := Longest(items[..|items| - 1]);
      var last := items[|items| - 1].duration;
      if last > front then last else front
  }

  function Entries(items: seq<Item>): seq<(nat, string)> {
    seq(|items|, i requires 0 <= i < |items| => (items[i].duration, items[i].name))
  }

  function PlaylistOf(w: Window): Playlist {
    var items := Listed(w.names, w.items);
    Playlist(Longest(items) / 1000 + 1, if items == [] then 0 else items[0].seqNum, Entries(items))
  }

  lemma {:induction false} AllListed(items: seq<Item>, m: map<string, Item>)
    requires HasAll(m, items)
    ensures Listed(Names(items), m) == items
    decreases |items|
  {
    if items != [] {
      var front := items[..|items| - 1];
      AllListed(front, m);
      assert Names(items)[..|items| - 1] == Names(front);
    }
  }

  /** While the latest names are unlike those before them, the playlist lists the latest three, numbered on from its sequence. */
  lemma PlaylistRight(all: seq<Item>)
    requires Numbered(all) && all != [] && AllUnlike(all)
    ensures var p := PlaylistOf(SetAll(all));
            var n := if |all| < 3 then |all| else 3;
            var latest := all[|all| - n..];
            && |p.entries| == n && (forall k :: 0 <= k < n ==> p.entries[k] == (latest[k].duration, latest[k].name))
            && p.sequence == |all| - n + 1
            && (forall k :: 0 <= k < n ==> latest[k].duration < p.target * 1000)
            && (exists k :: 0 <= k < n && (p.target - 1) * 1000 <= latest[k].duration)
  {
    WindowIff(all);
    hide AllUnlike, SetAll;
    AllListed(Latest(all), SetAll(all).items);
    assert Latest(all) == all[|all| - (if |all| < 3 then |all| else 3)..];
    hide Latest, Min;
    var d := Longest(Latest(all));
    assert d / 1000 * 1000 <= d < (d / 1000 + 1) * 1000;
    var k := LongestIsThere(Latest(all));
  }

  lemma {:induction false} LongestIsThere(items: seq<Item>) returns (k: nat)
    requires items != []
    ensures k < |items| && items[k].duration == Longest(items)
  {
    var front, last := items[..|items| - 1], |items| - 1;
    if front == [] || items[last].duration > Longest(front) {
      k := last;
    } else {
      k := LongestIsThere(front);
    }
  }

  // ------------------------------------------------------- the cache itself

  class TSCacheItem {
    const num: nat
    var ll: seq<string>
    var lm: map<string, Item>

    constructor ()
      ensures State() == SetAll([]) && num == WINDOW
    {
      num, ll, lm := WINDOW, [], map[];
    }

    function State(): Window
      reads this
    {
      Window(ll, lm)
    }

    method SetItem(key: string, item: Item)
      requires num == WINDOW && key == item.name
      modifies this
      ensures State() == Set(old(State()), item)
    {
      if |ll| == num {
        var k := ll[0];
        ll := ll[1..];
        lm := lm - {k};
      }
      lm := lm[key := item];
      ll := ll + [key];
    }

    /** One pass over the list for the entries, the longest duration and the first number. */
    method GenM3U8PlayList() returns (p: Playlist)
      ensures p == PlaylistOf(State())
    {
      hide Listed, Longest, Entries;
      ListedStart(lm);
      var seqNum, getSeq, maxDuration := 0, false, 0;
      var entries: seq<(nat, string)> := [];
      for i := 0 to |ll|
        invariant var items := Listed(ll[..i], lm);
                  entries == Entries(items) && maxDuration == Longest(items) && getSeq == (items != []) &&
                  seqNum == if items == [] then 0 else items[0].seqNum
      {
        ListedStep(ll, lm, i);
        var key := ll[i];
        if key in lm {
          var v := lm[key];
          OneMore(Listed(ll[..i], lm), v);
          if v.duration > maxDuration {
            maxDuration := v.duration;
          }
          if !getSeq {
            getSeq := true;
            seqNum := v.seqNum;
          }
          entries := entries + [(v.duration, v.name)];
        }
      }
      assert ll[..|ll|] == ll;
      p := Playlist(maxDuration / 1000 + 1, seqNum, entries);
    }
  }

  lemma ListedStart(m: map<string, Item>)
    ensures Listed([], m) == [] && Entries([]) == [] && Longest([]) == 0
  {
  }

  lemma ListedStep(names: seq<string>, m: map<string, Item>, i: nat)
    requires i < |names|
    ensures Listed(names[..i + 1], m) ==
            if names[i] in m then Listed(names[..i], m) + [m[names[i]]] else Listed(names[..i], m)
  {
    assert names[..i + 1][..i] == names[..i];
  }

  lemma OneMore(items: seq<Item>, v: Item)
    ensures Longest(items + [v]) == if v.duration > Longest(items) then v.duration else Longest(items)
    ensures Entries(items + [v]) == Entries(items) + [(v.duration, v.name)]
  {
    assert (items + [v])[..|items|] == items;
  }
}
