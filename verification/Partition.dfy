/** Servers grouped into partitions by their tags, kept up to date by batches of added and removed servers. */
module Partition {
  import opened Options
  import opened SeqSum

  datatype Part = Part(kinds: int, index: int)

  datatype Server = Server(id: nat, tag: string)

  type Parser = string -> Option<Part>

  // The tag is that of partition `index` out of `kinds`.
  predicate Belongs(parse: Parser, s: Server, kinds: int, index: int)
  {
    parse(s.tag) == Some(Part(kinds, index)) && 0 <= index < kinds
  }

  // The tag is a valid one of a scheme of so many kinds.
  predicate IsOf(parse: Parser, s: Server, kinds: int)
  {
    parse(s.tag).Some? && Belongs(parse, s, kinds, parse(s.tag).value.index)
  }

  ghost function Group(parse: Parser, live: set<Server>, kinds: int, index: int): set<Server>
  {
    set s | s in live && Belongs(parse, s, kinds, index)
  }

  ghost function Members(parse: Parser, live: set<Server>, kinds: int): set<Server>
  {
    set s | s in live && IsOf(parse, s, kinds)
  }

  function Elements(servers: seq<Server>): set<Server> { set s | s in servers }

  // The servers of a batch that go to one sub-channel, and to one partitioning, in order.
  function PickIndex(parse: Parser, servers: seq<Server>, kinds: int, index: int): seq<Server>
  {
    if servers == [] then []
    else
      var (init, last) := (servers[..|servers| - 1], servers[|servers| - 1]);
      PickIndex(parse, init, kinds, index) + if Belongs(parse, last, kinds, index) then [last] else []
  }

  function PickKinds(parse: Parser, servers: seq<Server>, kinds: int): seq<Server>
  {
    if servers == [] then []
    else
      var (init, last) := (servers[..|servers| - 1], servers[|servers| - 1]);
      PickKinds(parse, init, kinds) + if IsOf(parse, last, kinds) then [last] else []
  }

  // Both keep the order of the batch and take every server on its own merits.
  lemma {:induction false} PicksKeepOrder(parse: Parser, a: seq<Server>, b: seq<Server>, kinds: int, index: int)
    ensures PickIndex(parse, a + b, kinds, index) == PickIndex(parse, a, kinds, index) + PickIndex(parse, b, kinds, index)
    ensures PickKinds(parse, a + b, kinds) == PickKinds(parse, a, kinds) + PickKinds(parse, b, kinds)
    decreases b
  {
    if b == [] {
      assert a + b == a;
    } else {
      var (init, last) := (b[..|b| - 1], b[|b| - 1]);
      assert (a + b)[..|a + b| - 1] == a + init && (a + b)[|a + b| - 1] == last;
      PicksKeepOrder(parse, a, init, kinds, index);
    }
  }

  lemma ElementsSnoc(servers: seq<Server>, s: Server)
    ensures Elements(servers + [s]) == Elements(servers) + {s}
  {
  }

  lemma {:induction false} PickIndexElements(parse: Parser, servers: seq<Server>, kinds: int, index: int)
    ensures Elements(PickIndex(parse, servers, kinds, index)) == Group(parse, Elements(servers), kinds, index)
  {
    if servers != [] {
      hide Elements;
      var (init, last) := (servers[..|servers| - 1], servers[|servers| - 1]);
      PickIndexElements(parse, init, kinds, index);
      assert servers == init + [last];
      ElementsSnoc(init, last);
      ElementsSnoc(PickIndex(parse, init, kinds, index), last);
      assert PickIndex(parse, init, kinds, index) + [] == PickIndex(parse, init, kinds, index);
    }
  }

  lemma {:induction false} PickKindsElements(parse: Parser, servers: seq<Server>, kinds: int)
    ensures Elements(PickKinds(parse, servers, kinds)) == Members(parse, Elements(servers), kinds)
  {
    if servers != [] {
      hide Elements;
      var (init, last) := (servers[..|servers| - 1], servers[|servers| - 1]);
      PickKindsElements(parse, init, kinds);
      assert servers == init + [last];
      ElementsSnoc(init, last);
      ElementsSnoc(PickKinds(parse, init, kinds), last);
      assert PickKinds(parse, init, kinds) + [] == PickKinds(parse, init, kinds);
    }
  }

  // Picking by index from what was picked by kinds loses nothing.
  lemma GroupOfPicked(parse: Parser, servers: seq<Server>, kinds: int, index: int)
    ensures Group(parse, Elements(PickKinds(parse, servers, kinds)), kinds, index) == Group(parse, Elements(servers), kinds, index)
  {
    PickKindsElements(parse, servers, kinds);
  }

  function Size(s: set<Server>): nat { |s| }

  // Servers of the first n partitions.
  ghost function MembersTo(parse: Parser, live: set<Server>, kinds: int, n: nat): set<Server>
  {
    set s | s in live && IsOf(parse, s, kinds) && parse(s.tag).value.index < n
  }

  lemma {:induction false} SizesAddUpTo(parse: Parser, live: set<Server>, kinds: nat, subs: seq<set<Server>>, n: nat)
    requires |subs| == kinds && forall i :: 0 <= i < kinds ==> subs[i] == Group(parse, live, kinds, i)
    requires n <= kinds
    ensures SumTo(subs, Size, n) == |MembersTo(parse, live, kinds, n)|
  {
    if n == 0 {
      assert MembersTo(parse, live, kinds, 0) == {};
    } else {
      SizesAddUpTo(parse, live, kinds, subs, n - 1);
      var (a, b) := (MembersTo(parse, live, kinds, n - 1), Group(parse, live, kinds, n - 1));
      assert MembersTo(parse, live, kinds, n) == a + b && a !! b;
    }
  }

  // The groups are disjoint and cover the partitioning.
  lemma SizesAddUp(parse: Parser, live: set<Server>, kinds: nat, subs: seq<set<Server>>)
    requires |subs| == kinds && forall i :: 0 <= i < kinds ==> subs[i] == Group(parse, live, kinds, i)
    ensures Sum(subs, Size) == |Members(parse, live, kinds)|
  {
    SizesAddUpTo(parse, live, kinds, subs, kinds);
    assert MembersTo(parse, live, kinds, kinds) == Members(parse, live, kinds);
  }

  // ---- one partitioning: a sub-channel per index ----

  class PartitionChannel {
    const parser: Parser
    const kinds: nat
    var subs: seq<set<Server>>        // the servers in the load balancer of each sub-channel
    var subTmps: seq<seq<Server>>
    var tmp: seq<Server>
    var numServers: int

    constructor (parser: Parser, kinds: nat)
      ensures this.parser == parser && this.kinds == kinds && tmp == []
      ensures subs == seq(kinds, i => {}) && numServers == 0 && |subTmps| == kinds
    {
      this.parser, this.kinds, tmp, numServers := parser, kinds, [], 0;
      subs, subTmps := seq(kinds, i => {}), seq(kinds, i => []);
    }

    // Each sub-channel has exactly the live servers of its index, and they are counted.
    ghost predicate Holds(live: set<Server>)
      reads this
    {
      && |subs| == |subTmps| == kinds
      && (forall i :: 0 <= i < kinds ==> subs[i] == Group(parser, live, kinds, i))
      && numServers == |Members(parser, live, kinds)|
    }

    method AddTmp(s: Server)
      modifies this`tmp
      ensures tmp == old(tmp) + [s]
      ensures forall live :: old(Holds(live)) ==> Holds(live)
    {
      tmp := tmp + [s];
    }

    method PartitionServersIntoTemps(servers: seq<Server>)
      requires |subTmps| == kinds
      modifies this`subTmps
      ensures |subTmps| == kinds
      ensures forall i :: 0 <= i < kinds ==> subTmps[i] == PickIndex(parser, servers, kinds, i)
    {
      subTmps := seq(kinds, i => []);
      for j := 0 to |servers|
        invariant |subTmps| == kinds
        invariant forall i :: 0 <= i < kinds ==> subTmps[i] == PickIndex(parser, servers[..j], kinds, i)
      {
        var s := servers[j];
        assert servers[..j + 1][..j] == servers[..j];
        var part := parser(s.tag);
        if part.None? || part.value.kinds != kinds || part.value.index < 0 || part.value.index >= kinds {
          continue;
        }
        subTmps := subTmps[part.value.index := subTmps[part.value.index] + [s]];
      }
      assert servers[..|servers|] == servers;
    }

    // A load balancer counts the servers that were not there before.
    method AddServersInBatch(servers: seq<Server>) returns (ntotal: nat)
      requires |subs| == |subTmps| == kinds
      modifies this`subs, this`subTmps
      ensures |subs| == |subTmps| == kinds
      ensures forall i :: 0 <= i < kinds ==> subs[i] == old(subs[i]) + Group(parser, Elements(servers), kinds, i)
      ensures Sum(subs, Size) == Sum(old(subs), Size) + ntotal
    {
      hide Group, PickIndex, Elements, SumTo;
      PartitionServersIntoTemps(servers);
      ntotal := 0;
      for i := 0 to kinds
        invariant |subs| == |subTmps| == kinds
        invariant forall j :: 0 <= j < kinds ==> subTmps[j] == PickIndex(parser, servers, kinds, j)
        invariant forall j :: 0 <= j < i ==> subs[j] == old(subs[j]) + Group(parser, Elements(servers), kinds, j)
        invariant forall j :: i <= j < kinds ==> subs[j] == old(subs[j])
        invariant Sum(subs, Size) == Sum(old(subs), Size) + ntotal
      {
        PickIndexElements(parser, servers, kinds, i);
        if subTmps[i] != [] {
          var next := subs[i] + Elements(subTmps[i]);
          SubsetSize(subs[i], next);
          SumUpdate(subs, i, next, Size);
          var n := |next| - |subs[i]|;
          subs := subs[i := next];
          ntotal := ntotal + n;
        } else {
          NoElements();
        }
      }
    }

    // And here those that were there.
    method RemoveServersInBatch(servers: seq<Server>) returns (ntotal: nat)
      requires |subs| == |subTmps| == kinds
      modifies this`subs, this`subTmps
      ensures |subs| == |subTmps| == kinds
      ensures forall i :: 0 <= i < kinds ==> subs[i] == old(subs[i]) - Group(parser, Elements(servers), kinds, i)
      ensures Sum(subs, Size) == Sum(old(subs), Size) - ntotal
    {
      hide Group, PickIndex, Elements, SumTo;
      PartitionServersIntoTemps(servers);
      ntotal := 0;
      for i := 0 to kinds
        invariant |subs| == |subTmps| == kinds
        invariant forall j :: 0 <= j < kinds ==> subTmps[j] == PickIndex(parser, servers, kinds, j)
        invariant forall j :: 0 <= j < i ==> subs[j] == old(subs[j]) - Group(parser, Elements(servers), kinds, j)
        invariant forall j :: i <= j < kinds ==> subs[j] == old(subs[j])
        invariant Sum(subs, Size) == Sum(old(subs), Size) - ntotal
      {
        PickIndexElements(parser, servers, kinds, i);
        if subTmps[i] != [] {
          var next := subs[i] - Elements(subTmps[i]);
          SubsetSize(next, subs[i]);
          SumUpdate(subs, i, next, Size);
          var n := |subs[i]| - |next|;
          subs := subs[i := next];
          ntotal := ntotal + n;
        } else {
          NoElements();
        }
      }
    }
  }

  lemma SubsetSize(a: set<Server>, b: set<Server>)
    requires a <= b
    ensures |a| <= |b|
  {
    assert b == a + (b - a);
  }

  lemma NoElements()
    ensures Elements([]) == {}
  {
  }

  lemma GroupAfter(parse: Parser, live: set<Server>, servers: seq<Server>, kinds: int, i: int)
    ensures var batch := Group(parse, Elements(PickKinds(parse, servers, kinds)), kinds, i);
            && Group(parse, live + Elements(servers), kinds, i) == Group(parse, live, kinds, i) + batch
            && Group(parse, live - Elements(servers), kinds, i) == Group(parse, live, kinds, i) - batch
  {
    GroupOfPicked(parse, servers, kinds, i);
  }

  lemma NoGroup(parse: Parser, kinds: int, i: int)
    ensures Group(parse, Elements([]), kinds, i) == {}
  {
  }

  // What one more server in a batch changes for a number of kinds.
  lemma StageFacts(parse: Parser, live: set<Server>, before: seq<Server>, s: Server, k: int)
    ensures PickKinds(parse, before + [s], k) ==
            if IsOf(parse, s, k) then PickKinds(parse, before, k) + [s] else PickKinds(parse, before, k)
    ensures Members(parse, live + Elements(before + [s]), k) != {}
            <==> Members(parse, live + Elements(before), k) != {} || IsOf(parse, s, k)
  {
    hide Elements;
    var all := before + [s];
    assert all[..|all| - 1] == before && all[|all| - 1] == s;
    ElementsSnoc(before, s);
    var (a, b) := (Members(parse, live + Elements(before), k), Members(parse, live + Elements(all), k));
    assert b == a + if IsOf(parse, s, k) then {s} else {};
    if IsOf(parse, s, k) {
      assert s in b;
    }
  }

  lemma NothingStaged(parse: Parser, live: set<Server>, before: seq<Server>, k: nat)
    requires Members(parse, live + Elements(before), k) == {}
    ensures PickKinds(parse, before, k) == [] && Members(parse, live, k) == {}
    ensures forall i :: Group(parse, live, k, i) == {}
  {
    PickKindsElements(parse, before, k);
    assert forall s <- live :: s !in Members(parse, live + Elements(before), k);
    assert forall s <- before :: s in Elements(before) && s !in Members(parse, live + Elements(before), k);
    assert Members(parse, Elements(before), k) == {};
    forall i, s | s in live ensures !Belongs(parse, s, k, i) {
      assert !IsOf(parse, s, k);
    }
  }

  // ---- all partitionings ----

  class Partitioner {
    const parser: Parser
    var parts: map<int, PartitionChannel>
    var order: seq<int>           // the keys of the map, as it is iterated
    ghost var live: set<Server>

    constructor (parser: Parser)
      ensures Valid() && this.parser == parser && live == {} && parts.Values == {}
    {
      this.parser, parts, order, live := parser, map[], [], {};
    }

    // The channels are told apart by their number of kinds.
    ghost predicate Shape()
      reads this
    {
      && (forall k :: k in parts <==> k in order)
      && (forall i :: 0 <= i < |order| ==> order[i] in parts)
      && Distinct(order)
      && forall k <- parts :: k > 0 && parts[k].kinds == k && parts[k].parser == parser
    }

    // There is a channel exactly for the numbers of kinds that some of these servers have.
    ghost predicate Covers(servers: set<Server>)
      reads this
    {
      forall k :: k in parts <==> Members(parser, servers, k) != {}
    }

    // The map is the grouping of the live servers by valid tag.
    ghost predicate Valid()
      reads this, parts.Values
    {
      Shape() && Covers(live) && forall k <- parts :: parts[k].Holds(live)
    }

    // Every channel holds the live servers and has its share of the batch in `tmp`.
    ghost predicate Staged(servers: seq<Server>)
      reads this, parts.Values
    {
      && Shape()
      && Covers(live + Elements(servers))
      && forall k <- parts :: parts[k].Holds(live) && parts[k].tmp == PickKinds(parser, servers, k)
    }

    method PartitionServersIntoTemps(servers: seq<Server>)
      requires Valid()
      modifies this`parts, this`order, parts.Values
      ensures Staged(servers) && fresh(parts.Values - old(parts.Values))
    {
      hide Group, Members, PartitionChannel.Holds;
      ClearTemps();
      for j := 0 to |servers|
        invariant Staged(servers[..j]) && fresh(parts.Values - old(parts.Values))
      {
        StageServer(servers[..j], servers[j]);
        assert servers[..j] + [servers[j]] == servers[..j + 1];
      }
      assert servers[..|servers|] == servers;
    }

    method ClearTemps()
      requires Valid()
      modifies parts.Values
      ensures Staged([])
    {
      hide Group, Members;
      var ps, ks := parts, order;
      for i := 0 to |ks|
        invariant parts == ps && order == ks && Valid()
        invariant forall j :: 0 <= j < i ==> ps[ks[j]].tmp == []
      {
        ps[ks[i]].tmp := [];
      }
      NoElements();
      assert live + {} == live;
    }

    method CreateChannel(kinds: nat, ghost before: seq<Server>) returns (ch: PartitionChannel)
      requires Members(parser, live + Elements(before), kinds) == {}
      ensures fresh(ch) && ch.kinds == kinds && Pending(ch, before)
    {
      hide Group, Members, PickKinds, Elements;
      NothingStaged(parser, live, before, kinds);
      ch := new PartitionChannel(parser, kinds);
    }

    // One server of a batch; its channel is created if there is none.
    method StageServer(before: seq<Server>, s: Server)
      requires Staged(before)
      modifies this`parts, this`order, parts.Values
      ensures Staged(before + [s]) && fresh(parts.Values - old(parts.Values))
    {
      hide Group, Members, PickKinds, Elements, PartitionChannel.Holds;
      var part := parser(s.tag);
      forall k {
        StageFacts(parser, live, before, s, k);
      }
      if part.None? || part.value.kinds <= 0 || part.value.index < 0 || part.value.index >= part.value.kinds {
        assert forall k :: !IsOf(parser, s, k);
        return;
      }
      var k := part.value.kinds;
      assert forall j :: IsOf(parser, s, j) <==> j == k;
      if k !in parts {
        var ch := CreateChannel(k, before);
        parts, order := parts[k := ch], order + [k];
      }
      assert parts[k].kinds == k;
      parts[k].AddTmp(s);
    }

    method OnAddedServers(servers: seq<Server>)
      requires Valid()
      modifies this, parts.Values
      ensures Valid() && live == old(live) + Elements(servers) && fresh(parts.Values - old(parts.Values))
    {
      hide Group, Members, PickKinds, Elements, PartitionChannel.Holds;
      PartitionServersIntoTemps(servers);
      ghost var live' := live + Elements(servers);
      var ps, ks := parts, order;
      AllPending(servers);
      for i := 0 to |ks|
        invariant parts == ps && order == ks && live == old(live)
        invariant forall j :: 0 <= j < i ==> ps[ks[j]].Holds(live')
        invariant forall j :: i <= j < |ks| ==> Pending(ps[ks[j]], servers)
      {
        AddTo(ps[ks[i]], servers);
      }
      live := live';
    }

    // A channel that has yet to take its share of the batch.
    ghost predicate Pending(ch: PartitionChannel, servers: seq<Server>)
      reads this, ch
    {
      ch.parser == parser && ch.Holds(live) && ch.tmp == PickKinds(parser, servers, ch.kinds)
    }

    lemma AllPending(servers: seq<Server>)
      requires Staged(servers)
      ensures forall j :: 0 <= j < |order| ==> parts[order[j]].kinds == order[j]
      ensures forall j :: 0 <= j < |order| ==> Pending(parts[order[j]], servers)
      ensures forall j :: 0 <= j < |order| ==> Members(parser, live + Elements(servers), order[j]) != {}
    {
      hide Members, PickKinds, Elements, PartitionChannel.Holds;
      forall j | 0 <= j < |order| ensures Pending(parts[order[j]], servers) {
        var k := order[j];
        assert k in parts && parts[k].kinds == k && parts[k].parser == parser;
        assert parts[k].Holds(live) && parts[k].tmp == PickKinds(parser, servers, k);
      }
    }

    method AddTo(ch: PartitionChannel, servers: seq<Server>)
      requires Pending(ch, servers)
      modifies ch
      ensures ch.Holds(live + Elements(servers))
    {
      hide Group, Members, PickKinds, Elements, Sum;
      forall i {
        GroupAfter(parser, live, servers, ch.kinds, i);
      }
      SizesAddUp(parser, live, ch.kinds, ch.subs);
      if ch.tmp != [] {
        var n := ch.AddServersInBatch(ch.tmp);
        ch.numServers := ch.numServers + n;
      } else {
        forall i {
          NoGroup(parser, ch.kinds, i);
        }
      }
      SizesAddUp(parser, live + Elements(servers), ch.kinds, ch.subs);
    }

    // A channel that runs empty is erased, once the map is no longer iterated.
    method OnRemovedServers(servers: seq<Server>)
      requires Valid()
      modifies this, parts.Values
      ensures Valid() && live == old(live) - Elements(servers) && fresh(parts.Values - old(parts.Values))
    {
      hide Group, Members, PickKinds, Elements, PartitionChannel.Holds;
      PartitionServersIntoTemps(servers);
      var erased := RemoveFromAll(servers);
      RemovalCovers(parser, live, servers);
      Erase(erased);
      live := live - Elements(servers);
    }

    // The keys of the channels that ran empty.
    method RemoveFromAll(servers: seq<Server>) returns (erased: seq<int>)
      requires Staged(servers)
      modifies parts.Values
      ensures Shape() && Covers(live + Elements(servers))
      ensures forall k <- parts :: parts[k].Holds(live - Elements(servers))
      ensures Distinct(erased)
      ensures forall k :: k in erased <==> k in parts && Members(parser, live - Elements(servers), k) == {}
    {
      hide Group, Members, PickKinds, Elements, PartitionChannel.Holds;
      ghost var live' := live - Elements(servers);
      var ps, ks := parts, order;
      erased := [];
      AllPending(servers);
      for i := 0 to |ks|
        invariant forall j :: 0 <= j < i ==> ps[ks[j]].Holds(live')
        invariant forall j :: 0 <= j < i ==> (ks[j] in erased <==> Members(parser, live', ks[j]) == {})
        invariant Distinct(erased) && forall k <- erased :: k in ks[..i]
        invariant forall j :: i <= j < |ks| ==> Pending(ps[ks[j]], servers)
      {
        assert Members(parser, live + Elements(servers), ks[i]) != {} && ps[ks[i]].kinds == ks[i];
        var gone := RemoveFrom(ps[ks[i]], servers);
        assert ks[i] !in ks[..i];
        if gone {
          erased := erased + [ks[i]];
        }
      }
    }

    method RemoveFrom(ch: PartitionChannel, servers: seq<Server>) returns (gone: bool)
      requires Pending(ch, servers)
      requires Members(parser, live + Elements(servers), ch.kinds) != {}
      modifies ch
      ensures ch.Holds(live - Elements(servers))
      ensures gone <==> Members(parser, live - Elements(servers), ch.kinds) == {}
    {
      hide Group, Members, PickKinds, Elements, Sum;
      forall i {
        GroupAfter(parser, live, servers, ch.kinds, i);
      }
      SizesAddUp(parser, live, ch.kinds, ch.subs);
      gone := false;
      if ch.tmp != [] {
        var n := ch.RemoveServersInBatch(ch.tmp);
        ch.numServers := ch.numServers - n;
        SizesAddUp(parser, live - Elements(servers), ch.kinds, ch.subs);
        if ch.numServers <= 0 {
          assert ch.numServers == 0;
          gone := true;
        }
      } else {
        forall i {
          NoGroup(parser, ch.kinds, i);
        }
        SizesAddUp(parser, live - Elements(servers), ch.kinds, ch.subs);
        NotTouched(parser, live, servers, ch.kinds);
      }
    }

    method Erase(erased: seq<int>)
      requires Shape() && Distinct(erased) && forall k <- erased :: k in parts
      modifies this`parts, this`order
      ensures Shape() && parts.Values <= old(parts.Values)
      ensures forall k :: k in parts <==> k in old(parts) && k !in erased
      ensures forall k <- parts :: parts[k] == old(parts)[k]
    {
      for i := 0 to |erased|
        invariant Shape() && parts.Values <= old(parts.Values)
        invariant forall k :: k in parts <==> k in old(parts) && k !in erased[..i]
        invariant forall k <- parts :: parts[k] == old(parts)[k]
      {
        assert erased[i] in erased && erased[i] in parts;
        WithoutIsRest(order, erased[i]);
        parts, order := parts - {erased[i]}, Without(order, erased[i]);
      }
    }
  }

  datatype Batch = Added(servers: seq<Server>) | Removed(servers: seq<Server>)

  function LiveAfter(batches: seq<Batch>): set<Server>
  {
    if batches == [] then {}
    else
      var before := LiveAfter(batches[..|batches| - 1]);
      match batches[|batches| - 1]
      case Added(servers) => before + Elements(servers)
      case Removed(servers) => before - Elements(servers)
  }

  // After any batches the partitions are the grouping of the servers that are left.
  method Watch(parser: Parser, batches: seq<Batch>) returns (p: Partitioner)
    ensures fresh(p) && p.parser == parser && p.live == LiveAfter(batches) && p.Valid()
  {
    hide Elements, Partitioner.Valid;
    p := new Partitioner(parser);
    for i := 0 to |batches|
      invariant p.Valid() && p.live == LiveAfter(batches[..i]) && fresh(p.parts.Values)
    {
      assert batches[..i + 1][..i] == batches[..i];
      match batches[i]
      case Added(servers) => p.OnAddedServers(servers);
      case Removed(servers) => p.OnRemovedServers(servers);
    }
    assert batches[..|batches|] == batches;
  }

  ghost predicate Distinct(s: seq<int>) { forall i, j :: 0 <= i < j < |s| ==> s[i] != s[j] }

  function Without(s: seq<int>, k: int): seq<int>
  {
    if s == [] then [] else if s[0] == k then Without(s[1..], k) else [s[0]] + Without(s[1..], k)
  }

  lemma {:induction false} WithoutIsRest(s: seq<int>, k: int)
    requires Distinct(s)
    ensures Distinct(Without(s, k)) && forall x :: x in Without(s, k) <==> x in s && x != k
  {
    if s != [] {
      var rest := Without(s[1..], k);
      WithoutIsRest(s[1..], k);
      assert s == [s[0]] + s[1..];
      assert s[0] !in s[1..];
      assert forall i :: 0 <= i < |rest| ==> rest[i] in rest;
    }
  }

  lemma RemovalCovers(parse: Parser, live: set<Server>, servers: seq<Server>)
    ensures forall k :: Members(parse, live - Elements(servers), k) <= Members(parse, live + Elements(servers), k)
  {
  }

  lemma NotTouched(parse: Parser, live: set<Server>, servers: seq<Server>, k: int)
    requires PickKinds(parse, servers, k) == []
    ensures Members(parse, live - Elements(servers), k) == Members(parse, live + Elements(servers), k)
  {
    PickKindsElements(parse, servers, k);
    assert forall s <- Elements(servers) :: s !in Members(parse, Elements(servers), k);
  }
}
