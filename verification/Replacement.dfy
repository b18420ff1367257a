/** The page-replacement policies of swap_clock.c and swap_fifo.c.  Both thread the
    swappable frames on one list; frame `p` is node `p`, the list head is node -1. */
module Replacement {
  import opened Lists

  const HEAD: int := -1

  function Nodes(queue: seq<int>): seq<int> {
    [HEAD] + queue
  }

  ghost predicate Frames(queue: seq<int>) {
    Distinct(queue) && forall i :: 0 <= i < |queue| ==> queue[i] >= 0
  }

  lemma QueueStep(next: map<int, int>, prev: map<int, int>, queue: seq<int>, i: nat)
    requires Ring(next, prev, Nodes(queue)) && i <= |queue|
    ensures var e := if i == 0 then HEAD else queue[i - 1];
            e in next && e in prev && next[e] == if i < |queue| then queue[i] else HEAD
    ensures HEAD in prev && prev[HEAD] == if queue == [] then HEAD else queue[|queue| - 1]
  {
    var ring := Nodes(queue);
    assert next[ring[i]] == ring[Succ(i, |ring|)];
    assert prev[ring[0]] == ring[Pred(0, |ring|)];
    assert prev[ring[i]] == ring[Pred(i, |ring|)];
  }

  lemma NodesFacts(queue: seq<int>, p: int)
    requires Frames(queue)
    ensures p >= 0 && p !in queue ==> p !in Nodes(queue) && Frames(queue + [p]) && Frames([p] + queue)
    ensures Insert(Nodes(queue), |queue|, p) == Nodes(queue + [p])
    ensures Insert(Nodes(queue), 0, p) == Nodes([p] + queue)
  {
  }

  lemma NodesRemove(queue: seq<int>, i: nat)
    requires Frames(queue) && i < |queue|
    ensures Remove(Nodes(queue), i + 1) == Nodes(Remove(queue, i)) && Nodes(queue)[i + 1] == queue[i]
    ensures Frames(Remove(queue, i)) && queue[i] !in Remove(queue, i)
  {
    var r := Remove(queue, i);
    assert forall j :: 0 <= j < |r| ==> r[j] == queue[if j < i then j else j + 1];
  }

  // ------------------------------------------------------ the clock's choice

  /** The queue read from position `h` and round to it again. */
  function Rot(queue: seq<int>, h: nat): (r: seq<int>)
    requires h <= |queue|
    ensures |r| == |queue|
  {
    queue[h..] + queue[..h]
  }

  predicate Vis(visited: map<int, bool>, p: int) {
    p in visited && visited[p]
  }

  /** How many pages from the front of `s` have their visited bit set. */
  function Skips(s: seq<int>, visited: map<int, bool>): (k: nat)
    ensures k <= |s| && (forall j :: 0 <= j < k ==> Vis(visited, s[j])) && (k < |s| ==> !Vis(visited, s[k]))
  {
    if s == [] || !Vis(visited, s[0]) then 0 else 1 + Skips(s[1..], visited)
  }

  function Cleared(visited: map<int, bool>, s: seq<int>): map<int, bool> {
    map p | p in visited :: visited[p] && p !in s
  }

  function Count(s: seq<int>, visited: map<int, bool>): nat {
    if s == [] then 0 else (if Vis(visited, s[0]) then 1 else 0) + Count(s[1..], visited)
  }

  lemma {:induction false} CountConcat(a: seq<int>, b: seq<int>, visited: map<int, bool>)
    ensures Count(a + b, visited) == Count(a, visited) + Count(b, visited)
  {
    if a == [] {
      assert a + b == b;
    } else {
      CountConcat(a[1..], b, visited);
      assert (a + b)[1..] == a[1..] + b;
    }
  }

  /** Of distinct frames it is the number of visited ones. */
  lemma {:induction false} CountIs(s: seq<int>, visited: map<int, bool>)
    requires Distinct(s)
    ensures Count(s, visited) == |set p | p in s && Vis(visited, p)|
  {
    if s == [] {
      assert (set p | p in s && Vis(visited, p)) == {};
    } else {
      CountIs(s[1..], visited);
      var rest := set p | p in s[1..] && Vis(visited, p);
      assert forall i :: 0 <= i < |s| - 1 ==> s[1..][i] == s[i + 1];
      assert s[0] !in rest;
      assert (set p | p in s && Vis(visited, p)) == if Vis(visited, s[0]) then {s[0]} + rest else rest;
    }
  }

  lemma {:induction false} SkipsAtMostCount(s: seq<int>, visited: map<int, bool>)
    ensures Skips(s, visited) <= Count(s, visited)
  {
    if s != [] {
      SkipsAtMostCount(s[1..], visited);
    }
  }

  /** Every listed frame has a visited bit. */
  ghost predicate Tracked(queue: seq<int>, visited: map<int, bool>) {
    forall p :: p in queue ==> p in visited
  }

  lemma TrackedUpdate(queue: seq<int>, visited: map<int, bool>, p: int, bit: bool)
    requires Tracked(queue, visited)
    ensures Tracked(queue, visited[p := bit])
  {
  }

  /** One eviction: from the hand, pass the visited pages and clear their bits; take the
      first unvisited page, or, if all were visited, the page at the hand. */
  ghost predicate Evicts(queue: seq<int>, visited: map<int, bool>, h: nat,
                         victim: int, queue': seq<int>, visited': map<int, bool>, inspected: nat) {
    && h < |queue|
    && var rot := Rot(queue, h);
    var k := Skips(rot, visited);
    && victim == rot[if k < |rot| then k else 0]
    && visited' == Cleared(visited, rot[..k])
    && inspected == k + 1
    && exists i :: 0 <= i < |queue| && queue[i] == victim && queue' == Remove(queue, i)
  }

  /** An eviction inspects at most one page more than were visited. */
  lemma EvictionIsShort(queue: seq<int>, visited: map<int, bool>, h: nat,
                        victim: int, queue': seq<int>, visited': map<int, bool>, inspected: nat)
    requires Evicts(queue, visited, h, victim, queue', visited', inspected)
    ensures inspected <= Count(queue, visited) + 1 <= |queue| + 1
    ensures Distinct(queue) ==> inspected <= |set p | p in queue && Vis(visited, p)| + 1
  {
    if Distinct(queue) {
      CountIs(queue, visited);
    }
    var a, b := queue[..h], queue[h..];
    assert queue == a + b;
    CountConcat(a, b, visited);
    CountConcat(b, a, visited);
    SkipsAtMostCount(b + a, visited);
    CountAtMostLength(queue, visited);
  }

  lemma CountAtMostLength(s: seq<int>, visited: map<int, bool>)
    ensures Count(s, visited) <= |s|
  {
  }

  lemma SkipsIs(s: seq<int>, visited: map<int, bool>, j: nat)
    requires j <= |s| && (forall t :: 0 <= t < j ==> Vis(visited, s[t])) && (j < |s| ==> !Vis(visited, s[j]))
    ensures Skips(s, visited) == j
  {
  }

  /** The hand after `j` visited pages have been passed. */
  ghost predicate Passing(queue: seq<int>, visited: map<int, bool>, h: nat, j: nat, hand: int,
                          visited': map<int, bool>) {
    && h < |queue| && j <= |queue|
    && var i := Round(h, j, |queue|);
    && (hand == queue[i] || (hand == HEAD && i == 0))
    && var rot := Rot(queue, h);
    && (forall t :: 0 <= t < j ==> Vis(visited, rot[t]))
    && visited' == Cleared(visited, rot[..j])
  }

  lemma StartPassing(queue: seq<int>, visited: map<int, bool>, h: nat, hand: int)
    requires h < |queue| && (hand == queue[h] || (hand == HEAD && h == 0))
    ensures Passing(queue, visited, h, 0, hand, visited)
  {
    assert Rot(queue, h)[..0] == [] && Cleared(visited, []) == visited;
  }

  /** If the hand is on the head it moves on to the first frame. */
  lemma SkipHead(queue: seq<int>, visited: map<int, bool>, h: nat, j: nat, hand: int, visited': map<int, bool>)
    requires Passing(queue, visited, h, j, hand, visited')
    ensures h < |queue| && j <= |queue|
    ensures var i := Round(h, j, |queue|);
            && (hand == queue[i] || (hand == HEAD && i == 0))
            && Passing(queue, visited, h, j, queue[i], visited')
  {
  }

  function NextHand(queue: seq<int>, i: nat): int {
    if i + 1 < |queue| then queue[i + 1] else HEAD
  }

  /** The page at the hand is unvisited once its bit has been cleared, that is after a whole round. */
  lemma HandPage(queue: seq<int>, visited: map<int, bool>, h: nat, j: nat, visited': map<int, bool>)
    requires h < |queue| && j <= |queue| && Frames(queue) && Tracked(queue, visited)
    requires visited' == Cleared(visited, Rot(queue, h)[..j])
    ensures var p, rot := queue[Round(h, j, |queue|)], Rot(queue, h);
            && p == rot[if j < |rot| then j else 0] && p in visited'
            && visited'[p] == (j < |queue| && visited[p])
  {
    var rot := Rot(queue, h);
    assert forall t :: 0 <= t < |rot| ==> rot[t] == queue[Round(h, t, |queue|)];
    if j == |queue| {
      assert rot[0] == rot[..j][0];
    }
  }

  lemma PassOne(queue: seq<int>, visited: map<int, bool>, h: nat, j: nat, visited': map<int, bool>)
    requires h < |queue| && j <= |queue| && Frames(queue)
    requires Passing(queue, visited, h, j, queue[Round(h, j, |queue|)], visited')
    requires Tracked(queue, visited)
    ensures var p := queue[Round(h, j, |queue|)];
            && p in visited'
            && (visited'[p] ==>
                  && j < |queue|
                  && Passing(queue, visited, h, j + 1, NextHand(queue, Round(h, j, |queue|)), visited'[p := false]))
            && (!visited'[p] ==> Evicts(queue, visited, h, p, Remove(queue, Round(h, j, |queue|)), visited', j + 1))
  {
    hide Frames, Tracked, Skips, Remove;
    HandPage(queue, visited, h, j, visited');
    var rot, p := Rot(queue, h), queue[Round(h, j, |queue|)];
    if visited'[p] {
      assert rot[..j + 1] == rot[..j] + [p];
    } else {
      SkipsIs(rot, visited, j);
    }
  }

  /** The links of a frame on the list. */
  lemma OwnLinks(next: map<int, int>, prev: map<int, int>, queue: seq<int>, i: nat)
    requires Ring(next, prev, Nodes(queue)) && Frames(queue) && i < |queue|
    ensures var e := queue[i];
            && e in next && next[e] == (if i + 1 < |queue| then queue[i + 1] else HEAD) && next[e] != e
            && e in prev && prev[e] == Nodes(queue)[i] && prev[e] != e
  {
    var ring := Nodes(queue);
    assert next[ring[i + 1]] == ring[Succ(i + 1, |ring|)];
    assert prev[ring[i + 1]] == ring[Pred(i + 1, |ring|)];
  }

  /** Linking a node to the head drops every frame behind it. */
  lemma Truncate(next: map<int, int>, prev: map<int, int>, queue: seq<int>, k: nat)
    requires Ring(next, prev, Nodes(queue)) && Frames(queue) && k <= |queue|
    ensures var e := Nodes(queue)[k];
            Ring(next[e := HEAD], prev[HEAD := e], Nodes(queue[..k])) && Frames(queue[..k])
  {
    var ring, short, e := Nodes(queue), Nodes(queue[..k]), Nodes(queue)[k];
    var next', prev' := next[e := HEAD], prev[HEAD := e];
    assert short == ring[..k + 1];
    forall j | 0 <= j < |short| ensures short[j] in next' && next'[short[j]] == short[Succ(j, |short|)] {
      assert next[ring[j]] == ring[Succ(j, |ring|)];
    }
    forall j | 0 <= j < |short| ensures short[j] in prev' && prev'[short[j]] == short[Pred(j, |short|)] {
      assert prev[ring[j]] == ring[Pred(j, |ring|)];
    }
  }

  /** Frame `p` is off the list and unvisited.  Its own links still name the node it was behind,
      number `k`, and the one it was before, which is the next node or the head. */
  ghost predicate Stale(next: map<int, int>, prev: map<int, int>, queue: seq<int>, visited: map<int, bool>, p: int,
                        k: nat) {
    && p >= 0 && p !in queue && p in visited && !visited[p] && p in next && p in prev
    && k <= |queue| && prev[p] == Nodes(queue)[k]
    && (next[p] == HEAD || (k < |queue| && next[p] == queue[k]))
  }

  /** The list without the frame at position `i`, whose links still name its neighbours. */
  lemma UnlinkListed(next: map<int, int>, prev: map<int, int>, queue: seq<int>, visited: map<int, bool>, i: nat)
    requires Ring(next, prev, Nodes(queue)) && Frames(queue) && Tracked(queue, visited)
    requires i < |queue| && queue[i] in visited && !visited[queue[i]]
    ensures var p := queue[i];
            && p in next && p in prev
            && var next', prev', rest := next[prev[p] := next[p]], prev[next[p] := prev[p]], Remove(queue, i);
            && Ring(next', prev', Nodes(rest)) && Frames(rest) && Tracked(rest, visited)
            && Stale(next', prev', rest, visited, p, i) && next'[p] == next[p] && (next[p] == HEAD <==> i == |rest|)
  {
    var p, rest := queue[i], Remove(queue, i);
    NodesRemove(queue, i);
    Unlink(next, prev, Nodes(queue), i + 1);
    OwnLinks(next, prev, queue, i);
    RemoveIsPart(queue, i);
    hide Ring;
    assert Nodes(rest)[i] == Nodes(queue)[i];
    assert i < |rest| ==> rest[i] == queue[i + 1];
  }

  /** Unlinking a stale frame again: nothing, or the loss of every frame behind its old place. */
  lemma UnlinkStale(next: map<int, int>, prev: map<int, int>, queue: seq<int>, visited: map<int, bool>, p: int, k: nat)
    requires Ring(next, prev, Nodes(queue)) && Frames(queue) && Tracked(queue, visited)
    requires Stale(next, prev, queue, visited, p, k)
    ensures var next', prev' := next[prev[p] := next[p]], prev[next[p] := prev[p]];
            var rest := if next[p] == HEAD then queue[..k] else queue;
            && Ring(next', prev', Nodes(rest)) && Frames(rest) && Tracked(rest, visited)
            && Stale(next', prev', rest, visited, p, k) && next'[p] == next[p]
  {
    QueueStep(next, prev, queue, k);
    assert p !in Nodes(queue) && prev[p] != p;
    if next[p] == HEAD {
      Truncate(next, prev, queue, k);
      hide Ring;
      assert Nodes(queue[..k])[k] == Nodes(queue)[k];
    } else {
      OwnLinks(next, prev, queue, k);
      hide Ring;
      assert next[prev[p] := next[p]] == next && prev[next[p] := prev[p]] == prev;
    }
  }

  /** The sweep after `j` turns, from a hand that was on the list, or else standing still. */
  ghost predicate Sweeping(listed: bool, queue: seq<int>, visited: map<int, bool>, h: nat, hand0: int, j: nat,
                           hand: int, visited': map<int, bool>) {
    if listed then Passing(queue, visited, h, j, hand, visited')
    else hand == hand0 && visited' == visited && hand >= 0 && hand in visited && !visited[hand]
  }

  /** One turn of the sweep: what the page under the hand means for the eviction. */
  lemma SweepStep(listed: bool, next: map<int, int>, prev: map<int, int>, queue: seq<int>, visited: map<int, bool>,
                  h: nat, hand0: int, j: nat, hand: int, visited': map<int, bool>) returns (i: nat)
    requires Ring(next, prev, Nodes(queue)) && Frames(queue) && Tracked(queue, visited) && Tracked(queue, visited')
    requires Sweeping(listed, queue, visited, h, hand0, j, hand, visited')
    ensures HEAD in next
    ensures var p := if hand == HEAD then next[HEAD] else hand;
            && p in visited'
            && (visited'[p] ==>
                  && listed && j < |queue| && p in next && Tracked(queue, visited'[p := false])
                  && Sweeping(listed, queue, visited, h, hand0, j + 1, next[p], visited'[p := false]))
            && (!visited'[p] && listed ==>
                  i < |queue| && queue[i] == p && Evicts(queue, visited, h, p, Remove(queue, i), visited', j + 1))
            && (!listed ==> !visited'[p] && p == hand0 && visited' == visited)
  {
    i := 0;
    QueueStep(next, prev, queue, 0);
    if listed {
      SkipHead(queue, visited, h, j, hand, visited');
      i := Round(h, j, |queue|);
      QueueStep(next, prev, queue, i + 1);
      PassOne(queue, visited, h, j, visited');
      TrackedUpdate(queue, visited', queue[i], false);
    }
  }

  class Clock {
    const links: ListStore
    var hand: int
    var visited: map<int, bool>
    ghost var queue: seq<int>
    ghost var at: nat

    ghost predicate Valid()
      reads this, links
    {
      && Ring(links.next, links.prev, Nodes(queue))
      && Frames(queue)
      && Tracked(queue, visited)
      && (HandListed() || HandStale())
    }

    /** The hand is on the head or on a listed frame, at position `at`. */
    ghost predicate HandListed()
      reads this
    {
      if hand == HEAD then at == 0 else at < |queue| && queue[at] == hand
    }

    /** What an eviction leaves: the hand on a frame that is off the list. */
    ghost predicate HandStale()
      reads this, links
    {
      Stale(links.next, links.prev, queue, visited, hand, at)
    }

    /** _clock_init_mm. */
    constructor ()
      ensures Valid() && HandListed() && queue == [] && hand == HEAD && fresh(links)
    {
      var store := new ListStore();
      links := store;
      hand, visited, queue, at := HEAD, map[], [], 0;
      new;
      links.Init(HEAD);
    }

    /** _clock_map_swappable: at the back of the list, with the visited bit set. */
    method MapSwappable(page: int)
      requires Valid() && page >= 0 && page !in queue
      modifies this, links
      ensures Valid() && queue == old(queue) + [page] && visited == old(visited)[page := true] && hand == old(hand)
      ensures old(HandListed()) || hand == page ==> HandListed()
      ensures !old(HandListed()) && hand != page ==>
                HandStale() && hand in old(links.next) && links.next[hand] == old(links.next)[hand]
      ensures at == if hand == page then |old(queue)| else old(at)
    {
      hide Ring, Frames;
      QueueStep(links.next, links.prev, queue, |queue|);
      NodesFacts(queue, page);
      assert !HandListed() ==> hand !in Nodes(queue);
      links.AddAfter(links.prev[HEAD], page, Nodes(queue), |queue|);
      visited := visited[page := true];
      at := if hand == page then |queue| else at;
      queue := queue + [page];
    }

    /** _clock_swap_out_victim.  With the hand off the list the victim is the frame there, once
        more, and unlinking it again drops what was mapped behind it if it had been the last. */
    method SwapOutVictim() returns (victim: int, ghost inspected: nat)
      requires Valid() && (HandListed() ==> queue != [])
      modifies this, links
      ensures Valid() && hand == victim && HandStale()
      ensures old(HandListed()) ==> Evicts(old(queue), old(visited), old(at), victim, queue, visited, inspected)
      ensures old(HandListed()) ==>
                && at < |old(queue)| && old(queue)[at] == victim && queue == Remove(old(queue), at)
                && (links.next[victim] == HEAD <==> at == |queue|)
      ensures !old(HandListed()) ==>
                && victim == old(hand) && visited == old(visited) && at == old(at) <= |old(queue)|
                && victim in old(links.next) && links.next[victim] == old(links.next)[victim]
                && queue == if links.next[victim] == HEAD then old(queue)[..at] else old(queue)
    {
      hide Ring, Frames, Tracked, Evicts, Remove;
      ghost var listed, i := HandListed(), 0;
      inspected, i := Sweep();
      victim := hand;
      UnlinkHand(listed, i);
    }

    /** The loop of _clock_swap_out_victim, up to the unvisited page it stops at. */
    method Sweep() returns (ghost inspected: nat, ghost i: nat)
      requires Valid() && (HandListed() ==> queue != [])
      modifies this`hand, this`visited
      ensures Ring(links.next, links.prev, Nodes(queue)) && Frames(queue) && Tracked(queue, visited)
      ensures hand in visited && !visited[hand]
      ensures old(HandListed()) ==>
                && i < |queue| && queue[i] == hand
                && Evicts(queue, old(visited), at, hand, Remove(queue, i), visited, inspected)
      ensures !old(HandListed()) ==> hand == old(hand) && visited == old(visited)
    {
      ghost var q, v0, listed, h, hand0 := queue, visited, HandListed(), at, hand;
      ghost var j: nat := 0;
      if listed { StartPassing(q, v0, h, hand); }
      assert Sweeping(listed, q, v0, h, hand0, 0, hand, v0);
      hide Stale, Ring, Frames, Tracked, Sweeping, Passing, Evicts, Remove, Nodes;
      inspected, i := 0, 0;
      while true
        invariant Tracked(q, visited) && inspected == j && (listed ==> j <= |q|)
        invariant Sweeping(listed, q, v0, h, hand0, j, hand, visited)
        decreases if listed then |q| - j else 0
      {
        var stop;
        stop, i := Turn(listed, q, v0, h, hand0, j);
        inspected := inspected + 1;
        if stop {
          break;
        }
        j := j + 1;
      }
    }

    /** One turn of that loop.  It stops at an unvisited page; a visited one loses its bit. */
    method Turn(ghost listed: bool, ghost q: seq<int>, ghost v0: map<int, bool>, ghost h: nat, ghost hand0: int,
                ghost j: nat)
      returns (stop: bool, ghost i: nat)
      requires Ring(links.next, links.prev, Nodes(q)) && Frames(q) && Tracked(q, v0) && Tracked(q, visited)
      requires Sweeping(listed, q, v0, h, hand0, j, hand, visited)
      modifies this`hand, this`visited
      ensures !listed ==> stop && hand == hand0 && visited == v0
      ensures stop ==> hand in visited && !visited[hand]
      ensures stop && listed ==>
                i < |q| && q[i] == hand && Evicts(q, v0, h, hand, Remove(q, i), visited, j + 1)
      ensures !stop ==> j < |q| && Tracked(q, visited) && Sweeping(listed, q, v0, h, hand0, j + 1, hand, visited)
    {
      hide Ring, Frames, Tracked, Sweeping, Evicts, Remove, Nodes;
      i := SweepStep(listed, links.next, links.prev, q, v0, h, hand0, j, hand, visited);
      if hand == HEAD {
        hand := links.next[hand];
      }
      stop := !visited[hand];
      if !stop {
        visited := visited[hand := false];
        hand := links.next[hand];
      }
    }

    /** list_del of the entry under the hand. */
    method UnlinkHand(ghost listed: bool, ghost i: nat)
      requires Ring(links.next, links.prev, Nodes(queue)) && Frames(queue) && Tracked(queue, visited)
      requires if listed then i < |queue| && queue[i] == hand && hand in visited && !visited[hand] else HandStale()
      modifies this`queue, this`at, links
      ensures Valid() && HandStale() && at == (if listed then i else old(at)) <= |old(queue)|
      ensures hand in old(links.next) && links.next[hand] == old(links.next)[hand]
      ensures listed ==> queue == Remove(old(queue), i) && (links.next[hand] == HEAD <==> i == |queue|)
      ensures !listed ==> queue == if links.next[hand] == HEAD then old(queue)[..at] else old(queue)
    {
      ghost var q := queue;
      if listed {
        UnlinkListed(links.next, links.prev, q, visited, i);
        queue, at := Remove(q, i), i;
      } else {
        UnlinkStale(links.next, links.prev, q, visited, hand, at);
        queue := if links.next[hand] == HEAD then q[..at] else q;
      }
      hide Ring, Frames, Tracked, Remove;
      links.Bypass(links.prev[hand], links.next[hand]);
    }

    /** Evicting twice with no frame mapped in between picks the same frame again. */
    method EvictTwice() returns (first: int, second: int)
      requires Valid() && HandListed() && queue != []
      modifies this, links
      ensures first in old(queue) && second == first && first !in queue
    {
      ghost var n;
      first, n := SwapOutVictim();
      second, n := SwapOutVictim();
    }

    lemma StaleIsUnlisted()
      ensures HandStale() ==> !HandListed()
    {
    }

    /** So does evicting again after another frame was mapped; if the victim was the last on
        the list, the second unlinking takes that other frame off the list. */
    method EvictMapEvict(page: int) returns (first: int, second: int)
      requires Valid() && HandListed() && queue != [] && page >= 0 && page !in queue
      modifies this, links
      ensures second == first && exists i: nat ::
                && i < |old(queue)| && old(queue)[i] == first
                && queue == Remove(old(queue), i) + (if i == |old(queue)| - 1 then [] else [page])
    {
      hide Ring, Frames, Tracked, Stale, Evicts, Nodes;
      ghost var n;
      first, n := SwapOutVictim();
      ghost var i := at;
      StaleIsUnlisted();
      RemoveMember(old(queue), i, page);
      MapSwappable(page);
      StaleIsUnlisted();
      second, n := SwapOutVictim();
      assert i == |old(queue)| - 1 ==> queue == Remove(old(queue), i) + [];
    }
  }

  /** Frame 0 is evicted, frame 1 is mapped, and the next eviction returns frame 0 and loses frame 1. */
  method LostFrameExample() returns (clock: Clock, first: int, second: int)
    ensures fresh(clock) && first == 0 && second == 0 && clock.queue == []
  {
    hide Ring, Frames, Tracked, Stale;
    clock := new Clock();
    clock.MapSwappable(0);
    first, second := clock.EvictMapEvict(1);
  }

  lemma RemoveMember(queue: seq<int>, i: nat, p: int)
    requires i < |queue| && p !in queue
    ensures p !in Remove(queue, i)
  {
    var r := Remove(queue, i);
    assert forall j :: 0 <= j < |r| ==> r[j] == queue[if j < i then j else j + 1];
  }

  lemma RemoveIsPart(queue: seq<int>, i: nat)
    requires i < |queue|
    ensures forall p :: p in Remove(queue, i) ==> p in queue
  {
  }

  // ------------------------------------------------------------------- FIFO

  function Rev(s: seq<int>): (r: seq<int>)
    ensures |r| == |s| && forall i :: 0 <= i < |s| ==> r[i] == s[|s| - 1 - i]
  {
    if s == [] then [] else Rev(s[1..]) + [s[0]]
  }

  class Fifo {
    const links: ListStore
    ghost var queue: seq<int>  // oldest first; the list runs from the newest

    ghost predicate Valid()
      reads this, links
    {
      Ring(links.next, links.prev, Nodes(Rev(queue))) && Frames(Rev(queue))
    }

    /** _fifo_init_mm. */
    constructor ()
      ensures Valid() && queue == [] && fresh(links)
    {
      var store := new ListStore();
      links, queue := store, [];
      new;
      links.Init(HEAD);
    }

    /** _fifo_map_swappable. */
    method MapSwappable(page: int)
      requires Valid() && page >= 0 && page !in queue
      modifies this, links
      ensures Valid() && queue == old(queue) + [page]
    {
      RevAppend(queue, page);
      NodesFacts(Rev(queue), page);
      links.AddAfter(HEAD, page, Nodes(Rev(queue)), 0);
      queue := queue + [page];
    }

    /** _fifo_swap_out_victim: the oldest frame, or none. */
    method SwapOutVictim() returns (found: bool, victim: int)
      requires Valid()
      modifies this, links
      ensures Valid() && found == (old(queue) != [])
      ensures found ==> victim == old(queue)[0] && queue == old(queue)[1..]
      ensures !found ==> queue == old(queue)
    {
      ghost var r := Rev(queue);
      QueueStep(links.next, links.prev, r, 0);
      victim := links.prev[HEAD];
      found := victim != HEAD;
      if found {
        NodesRemove(r, |r| - 1);
        assert r == Rev(queue[1..]) + [queue[0]];
        assert Remove(r, |r| - 1) == Rev(queue[1..]);
        links.Del(victim, Nodes(r), |r|);
        queue := queue[1..];
      }
    }
  }

  lemma {:induction false} RevAppend(s: seq<int>, p: int)
    ensures Rev(s + [p]) == [p] + Rev(s)
    ensures p !in s ==> p !in Rev(s)
  {
    if s != [] {
      RevAppend(s[1..], p);
      assert (s + [p])[1..] == s[1..] + [p];
    }
  }

  // -------------------------------------------------------- whole runs agree

  /** Map a frame, or evict one frame and map that same frame again. */
  datatype Event = Map(page: int) | Replace

  /** The frames listed, oldest first, as any first-in first-out policy would have them. */
  function After(e: Event, q: seq<int>): seq<int> {
    match e
    case Map(p) => q + [p]
    case Replace => if q == [] then q else q[1..] + [q[0]]
  }

  /** Only unlisted frames are mapped, and nothing is evicted from an empty list. */
  ghost predicate Legal(events: seq<Event>, q: seq<int>) {
    events != [] ==>
      && (match events[0] case Map(p) => p >= 0 && p !in q case Replace => q != [])
      && Legal(events[1..], After(events[0], q))
  }

  function Victims(events: seq<Event>, q: seq<int>): seq<int> {
    if events == [] then []
    else (if events[0].Replace? && q != [] then [q[0]] else []) + Victims(events[1..], After(events[0], q))
  }

  /** The frames in the order they were mapped, remappings included. */
  function Mapped(events: seq<Event>, q: seq<int>): seq<int> {
    if events == [] then []
    else (match events[0] case Map(p) => [p] case Replace => if q == [] then [] else [q[0]])
         + Mapped(events[1..], After(events[0], q))
  }

  /** Victims leave in exactly the order in which they were mapped. */
  lemma {:induction false} VictimsInMapOrder(events: seq<Event>, q: seq<int>)
    requires Legal(events, q)
    ensures var m, v := q + Mapped(events, q), Victims(events, q);
            |v| <= |m| && v == m[..|v|]
  {
    if events != [] {
      var q', rest := After(events[0], q), events[1..];
      VictimsInMapOrder(rest, q');
      var r, v' := Mapped(rest, q'), Victims(rest, q');
      match events[0]
      case Map(p) =>
        assert Mapped(events, q) == [p] + r && Victims(events, q) == v' by { NoneInFront(v'); }
        MoveBack(q, p, r);
      case Replace =>
        assert Mapped(events, q) == [q[0]] + r && Victims(events, q) == [q[0]] + v';
        RotateFront(q, r, v');
    }
  }

  lemma NoneInFront(v: seq<int>)
    ensures [] + v == v
  {
  }

  lemma MoveBack(q: seq<int>, p: int, r: seq<int>)
    ensures q + ([p] + r) == (q + [p]) + r
  {
  }

  lemma RotateFront(q: seq<int>, r: seq<int>, v: seq<int>)
    requires q != [] && |v| <= |q| + |r| && v == ((q[1..] + [q[0]]) + r)[..|v|]
    ensures [q[0]] + v == (q + ([q[0]] + r))[..|v| + 1]
  {
    var m := (q[1..] + [q[0]]) + r;
    assert q + ([q[0]] + r) == [q[0]] + m;
  }

  /** Only the frames from the hand on have their visited bit set. */
  ghost predicate FifoShape(queue: seq<int>, visited: map<int, bool>, h: nat) {
    forall j :: 0 <= j < |queue| ==> (Vis(visited, queue[j]) <==> j >= h)
  }

  /** In that shape the clock evicts the oldest frame and clears every bit. */
  lemma ShapeEvictsOldest(queue: seq<int>, visited: map<int, bool>, h: nat,
                          victim: int, queue': seq<int>, visited': map<int, bool>, inspected: nat)
    requires Frames(queue) && FifoShape(queue, visited, h)
    requires Evicts(queue, visited, h, victim, queue', visited', inspected)
    ensures victim == queue[0] && queue' == queue[1..] && visited'.Keys == visited.Keys
    ensures forall p :: p in queue ==> !Vis(visited', p)
  {
    hide FifoShape, Skips, Frames, Remove;
    var k := ShapeSkips(queue, visited, h);
    var i :| 0 <= i < |queue| && queue[i] == victim && queue' == Remove(queue, i);
    FirstOnly(queue, i);
    forall p | p in queue && p in visited' ensures !visited'[p] {
      ShapeCleared(queue, visited, h, k, p);
    }
  }

  lemma FirstOnly(queue: seq<int>, i: nat)
    requires Frames(queue) && i < |queue| && queue[i] == queue[0]
    ensures i == 0 && Remove(queue, 0) == queue[1..]
  {
  }

  lemma ShapeSkips(queue: seq<int>, visited: map<int, bool>, h: nat) returns (k: nat)
    requires FifoShape(queue, visited, h) && h < |queue|
    ensures k == Skips(Rot(queue, h), visited) == |queue| - h
    ensures Rot(queue, h)[if k < |queue| then k else 0] == queue[0]
  {
    var n, rot := |queue|, Rot(queue, h);
    assert forall t :: 0 <= t < n ==> rot[t] == queue[Round(h, t, n)];
    k := n - h;
    SkipsIs(rot, visited, k);
  }

  lemma ShapeCleared(queue: seq<int>, visited: map<int, bool>, h: nat, k: nat, p: int)
    requires FifoShape(queue, visited, h) && h < |queue| && k == |queue| - h && p in queue
    ensures !Vis(visited, p) || p in Rot(queue, h)[..k]
  {
    var j :| 0 <= j < |queue| && queue[j] == p;
    if j >= h {
      assert Rot(queue, h)[..k][j - h] == p;
    }
  }

  /** The hand never stands beyond the end, so a frame mapped at the back keeps the shape. */
  lemma ShapeMapped(queue: seq<int>, visited: map<int, bool>, h: nat, p: int)
    requires p !in queue && FifoShape(queue, visited, h) && h <= |queue|
    ensures FifoShape(queue + [p], visited[p := true], h)
  {
  }

  /** Mapping the victim again puts the hand on the last frame, the only one with its bit set. */
  lemma ShapeRemapped(queue: seq<int>, visited: map<int, bool>, p: int)
    requires Frames(queue) && queue != [] && p == queue[0] && forall q :: q in queue ==> !Vis(visited, q)
    ensures p !in queue[1..] && FifoShape(queue[1..] + [p], visited[p := true], |queue| - 1)
  {
    forall j | 0 <= j < |queue| - 1 ensures !Vis(visited, queue[1..][j]) && queue[1..][j] != p {
      assert queue[1..][j] == queue[j + 1] && queue[j + 1] in queue;
    }
  }

  /** Both policies, driven by the same events, evict the same frames. */
  method Replay(events: seq<Event>) returns (byClock: seq<int>, byFifo: seq<int>)
    requires Legal(events, [])
    ensures byClock == byFifo == Victims(events, [])
  {
    var clock, fifo := Start();
    byClock, byFifo := ReplayFrom(clock, fifo, events);
  }

  method ReplayFrom(clock: Clock, fifo: Fifo, events: seq<Event>) returns (byClock: seq<int>, byFifo: seq<int>)
    requires InStep(clock, fifo) && Legal(events, fifo.queue)
    modifies clock, clock.links, fifo, fifo.links
    ensures InStep(clock, fifo)
    ensures byClock == byFifo == Victims(events, old(fifo.queue))
    decreases |events|
  {
    hide InStep;
    byClock, byFifo := [], [];
    if events != [] {
      FirstIsLegal(events, fifo.queue);
      var v, w := Step(clock, fifo, events[0]);
      byClock, byFifo := ReplayFrom(clock, fifo, events[1..]);
      byClock, byFifo := v + byClock, w + byFifo;
    }
  }

  lemma FirstIsLegal(events: seq<Event>, q: seq<int>)
    requires events != [] && Legal(events, q)
    ensures Legal([events[0]], q)
  {
    assert [events[0]][1..] == [];
  }

  method Start() returns (clock: Clock, fifo: Fifo)
    ensures InStep(clock, fifo) && fifo.queue == []
    ensures fresh(clock) && fresh(clock.links) && fresh(fifo) && fresh(fifo.links)
  {
    hide Ring;
    clock := new Clock();
    fifo := new Fifo();
  }

  /** Two policies on separate lists that hold the same frames. */
  ghost predicate InStep(clock: Clock, fifo: Fifo)
    reads clock, clock.links, fifo, fifo.links
  {
    && clock.Valid() && clock.HandListed() && FifoShape(clock.queue, clock.visited, clock.at)
    && fifo.Valid() && clock.queue == fifo.queue && clock.links != fifo.links
  }

  method Step(clock: Clock, fifo: Fifo, e: Event) returns (v: seq<int>, w: seq<int>)
    requires InStep(clock, fifo) && Legal([e], fifo.queue)
    modifies clock, clock.links, fifo, fifo.links
    ensures InStep(clock, fifo) && fifo.queue == After(e, old(fifo.queue))
    ensures v == w == if e.Replace? then [old(fifo.queue)[0]] else []
  {
    hide Ring, Evicts, FifoShape, Stale, Tracked, Nodes, Vis, Rev, Remove;
    ghost var q, vis, h := fifo.queue, clock.visited, clock.at;
    match e {
      case Map(p) =>
        ShapeMapped(q, vis, h, p);
        clock.MapSwappable(p);
        fifo.MapSwappable(p);
        v, w := [], [];
      case Replace =>
        var c, found, f;
        ghost var n;
        c, n := clock.SwapOutVictim();
        ShapeEvictsOldest(q, vis, h, c, clock.queue, clock.visited, n);
        ShapeRemapped(q, clock.visited, c);
        clock.MapSwappable(c);
        found, f := fifo.SwapOutVictim();
        fifo.MapSwappable(f);
        v, w := [c], [f];
    }
  }
}
