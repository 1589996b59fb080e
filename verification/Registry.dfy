/** What the passes of src/client.c over the list of connected peers do to that list, said on values:
    which peers are reached, which are dropped, and which are passed over. */
module Registry {
  import opened Sequences
  import opened Wire
  import opened LinkedList
  import opened Wrappers
  import opened Text

  datatype Peer = Peer(port: int, name: Bytes, socketfd: int)

  ghost predicate DistinctDescriptors(peers: seq<Peer>) {
    forall i, j :: 0 <= i < j < |peers| ==> peers[i].socketfd != peers[j].socketfd
  }

  ghost predicate DistinctPorts(peers: seq<Peer>) {
    forall i, j :: 0 <= i < j < |peers| ==> peers[i].port != peers[j].port
  }

  /** What every command keeps of the list: ports and descriptors are distinct, the own port is not there,
      and the descriptors are open. */
  ghost predicate Registered(peers: seq<Peer>, ownPort: int, open: set<int>) {
    && DistinctDescriptors(peers) && DistinctPorts(peers)
    && forall i :: 0 <= i < |peers| ==> peers[i].port != ownPort && peers[i].socketfd in open
  }

  // ----- CLIENT_borraUser

  function DescriptorsOf(peers: seq<Peer>): (ds: seq<int>)
    ensures |ds| == |peers| && forall i :: 0 <= i < |peers| ==> ds[i] == peers[i].socketfd
  {
    seq(|peers|, i requires 0 <= i < |peers| => peers[i].socketfd)
  }

  /** Position of the first peer with descriptor fd, or |peers|. */
  function PositionOf(peers: seq<Peer>, fd: int): (i: nat)
    ensures i <= |peers|
    ensures i < |peers| ==> peers[i].socketfd == fd
    ensures forall j :: 0 <= j < i ==> peers[j].socketfd != fd
  {
    var ds := DescriptorsOf(peers);
    assert forall j :: 0 <= j < |peers| ==> ds[j] == peers[j].socketfd;
    IndexOf(ds, fd)
  }

  /** The first peer with descriptor fd goes, and the cursor is left on the peer after it. */
  function Erase(v: View<Peer>, fd: int): (w: View<Peer>)
    requires v.Valid()
    ensures w.Valid()
  {
    if v.items == [] then v else View(v.items, PositionOf(v.items, fd)).Remove()
  }

  lemma RemoveNothing(v: View<Peer>)
    requires v.Valid() && !v.OnElement()
    ensures v.Remove() == v
  {
  }

  lemma EraseAtCursor(v: View<Peer>, ownPort: int, open: set<int>)
    requires v.OnElement() && Registered(v.items, ownPort, open)
    ensures Erase(v, v.items[v.at].socketfd) == v.Remove()
    ensures Registered(v.Remove().items, ownPort, open)
  {
    assert PositionOf(v.items, v.items[v.at].socketfd) == v.at;
  }

  // ----- the passes of CLIENT_checkConnections and CLIENT_broadcast

  /** One round of either loop: write to the peer under the cursor, drop it if that fails, move on. */
  function Round(v: View<Peer>, dead: set<int>): (w: View<Peer>)
    requires v.OnElement()
    ensures w.Valid()
  {
    var fd := v.items[v.at].socketfd;
    if fd in dead then Erase(v, fd).Advance() else v.Advance()
  }

  /** A whole pass. Dropping a peer has already moved the cursor to the next one, so that one is passed over. */
  function Sweep(peers: seq<Peer>, dead: set<int>): seq<Peer> {
    if peers == [] then []
    else if peers[0].socketfd !in dead then [peers[0]] + Sweep(peers[1..], dead)
    else if |peers| == 1 then []
    else [peers[1]] + Sweep(peers[2..], dead)
  }

  /** The peers a pass writes to successfully, in order. */
  function Reached(peers: seq<Peer>, dead: set<int>): seq<Peer> {
    if peers == [] then []
    else if peers[0].socketfd !in dead then [peers[0]] + Reached(peers[1..], dead)
    else if |peers| == 1 then []
    else Reached(peers[2..], dead)
  }

  /** The list and the reached peers a pass ends with, seen from the middle of it. */
  function Final(v: View<Peer>, dead: set<int>): seq<Peer>
    requires 0 <= v.at <= |v.items|
  {
    v.items[..v.at] + Sweep(v.items[v.at..], dead)
  }

  function ToReach(v: View<Peer>, dead: set<int>): seq<Peer>
    requires 0 <= v.at <= |v.items|
  {
    Reached(v.items[v.at..], dead)
  }

  lemma FromTheStart(peers: seq<Peer>, dead: set<int>)
    ensures Final(View(peers, 0), dead) == Sweep(peers, dead)
    ensures ToReach(View(peers, 0), dead) == Reached(peers, dead)
  {
    assert peers[0..] == peers;
  }

  lemma AtTheEnd(v: View<Peer>, dead: set<int>)
    requires v.at == |v.items|
    ensures Final(v, dead) == v.items && ToReach(v, dead) == []
  {
  }

  /** With distinct descriptors, each round brings the pass closer to that end. */
  lemma RoundMakesProgress(v: View<Peer>, dead: set<int>, ownPort: int, open: set<int>)
    requires v.OnElement() && Registered(v.items, ownPort, open)
    ensures var w := Round(v, dead);
            && 0 <= w.at && |w.items| - w.at < |v.items| - v.at
            && Registered(w.items, ownPort, open)
            && Final(w, dead) == Final(v, dead)
            && var p := v.items[v.at];
               ToReach(v, dead) == (if p.socketfd in dead then [] else [p]) + ToReach(w, dead)
  {
    hide Registered, PositionOf;
    var w := Round(v, dead);
    var p := v.items[v.at];
    var rest := v.items[v.at..];
    EraseAtCursor(v, ownPort, open);
    if p.socketfd !in dead {
      assert v.items[..v.at + 1] == v.items[..v.at] + [p];
      assert rest[1..] == v.items[v.at + 1..];
    } else if |rest| == 1 {
      assert w.items == v.items[..v.at];
    } else {
      assert w.items == v.items[..v.at] + v.items[v.at + 1..];
      assert w.items[..w.at] == v.items[..v.at] + [rest[1]];
      assert w.items[w.at..] == rest[2..];
    }
  }

  function Alive(peers: seq<Peer>, dead: set<int>): seq<Peer> {
    if peers == [] then []
    else if peers[0].socketfd in dead then Alive(peers[1..], dead)
    else [peers[0]] + Alive(peers[1..], dead)
  }

  lemma {:induction false} AliveAppend(peers: seq<Peer>, p: Peer, dead: set<int>)
    ensures Alive(peers + [p], dead) == Alive(peers, dead) + if p.socketfd in dead then [] else [p]
  {
    if peers != [] {
      AliveAppend(peers[1..], p, dead);
      assert (peers + [p])[1..] == peers[1..] + [p];
    }
  }

  lemma {:induction false} AliveAre(peers: seq<Peer>, dead: set<int>)
    ensures forall p :: p in Alive(peers, dead) <==> p in peers && p.socketfd !in dead
  {
    if peers != [] {
      AliveAre(peers[1..], dead);
      assert peers == [peers[0]] + peers[1..];
    }
  }

  /** Number of dead peers at the front. */
  function DeadInFront(peers: seq<Peer>, dead: set<int>): nat {
    if peers == [] || peers[0].socketfd !in dead then 0 else 1 + DeadInFront(peers[1..], dead)
  }

  function Max(a: nat, b: nat): nat {
    if a < b then b else a
  }

  /** Length of the longest run of consecutive dead peers. */
  function LongestDeadRun(peers: seq<Peer>, dead: set<int>): nat {
    if peers == [] then 0 else Max(DeadInFront(peers, dead), LongestDeadRun(peers[1..], dead))
  }

  function Sweeps(peers: seq<Peer>, dead: set<int>, k: nat): seq<Peer>
    decreases k
  {
    if k == 0 then peers else Sweeps(Sweep(peers, dead), dead, k - 1)
  }

  function Power2(k: nat): (p: nat)
    ensures p > 0
  {
    if k == 0 then 1 else 2 * Power2(k - 1)
  }

  /** A pass drops no living peer and keeps their order. */
  lemma {:induction false} SweepKeepsAlive(peers: seq<Peer>, dead: set<int>)
    ensures Alive(Sweep(peers, dead), dead) == Alive(peers, dead)
  {
    if peers == [] {
    } else if peers[0].socketfd !in dead {
      SweepKeepsAlive(peers[1..], dead);
    } else if |peers| > 1 {
      SweepKeepsAlive(peers[2..], dead);
      assert peers[1..][1..] == peers[2..];
    }
  }

  /** In particular it halves the run at the front, and the longest one. */
  lemma {:induction false} SweepHalvesRuns(peers: seq<Peer>, dead: set<int>)
    ensures DeadInFront(Sweep(peers, dead), dead) == DeadInFront(peers, dead) / 2
    ensures LongestDeadRun(Sweep(peers, dead), dead) == LongestDeadRun(peers, dead) / 2
  {
    if peers == [] {
    } else if peers[0].socketfd !in dead {
      SweepHalvesRuns(peers[1..], dead);
    } else if |peers| > 1 {
      SweepHalvesRuns(peers[2..], dead);
      assert peers[1..][1..] == peers[2..];
    }
  }

  /** The lengths of all runs of dead peers: before, between and behind the living ones. */
  function Runs(peers: seq<Peer>, dead: set<int>): (rs: seq<nat>)
    ensures |rs| == |Alive(peers, dead)| + 1
  {
    if peers == [] then [0]
    else
      var rest := Runs(peers[1..], dead);
      if peers[0].socketfd in dead then [rest[0] + 1] + rest[1..] else [0] + rest
  }

  function Halves(rs: seq<nat>): seq<nat> {
    if rs == [] then [] else [rs[0] / 2] + Halves(rs[1..])
  }

  lemma HalvesOf(r: nat, rs: seq<nat>)
    ensures Halves([r] + rs) == [r / 2] + Halves(rs)
  {
    assert ([r] + rs)[1..] == rs;
  }

  lemma RunsOf(p: Peer, peers: seq<Peer>, dead: set<int>)
    ensures var rs := Runs(peers, dead);
            Runs([p] + peers, dead) == if p.socketfd in dead then [rs[0] + 1] + rs[1..] else [0] + rs
  {
    assert ([p] + peers)[1..] == peers;
  }

  /** Two positions at a time: of a dead peer and the one behind it the pass leaves the latter. */
  lemma RunsBehindTwo(p: Peer, q: Peer, peers: seq<Peer>, dead: set<int>)
    requires p.socketfd in dead && Runs(Sweep(peers, dead), dead) == Halves(Runs(peers, dead))
    ensures Runs([q] + Sweep(peers, dead), dead) == Halves(Runs([p] + ([q] + peers), dead))
  {
    hide Runs, Halves;
    var rs := Runs(peers, dead);
    RunsOf(q, Sweep(peers, dead), dead);
    RunsOf(q, peers, dead);
    RunsOf(p, [q] + peers, dead);
    assert rs == [rs[0]] + rs[1..];
    HalvesOf(rs[0], rs[1..]);
    if q.socketfd in dead {
      HalvesOf(rs[0] + 2, rs[1..]);
      assert Runs([p] + ([q] + peers), dead) == [rs[0] + 2] + rs[1..];
    } else {
      HalvesOf(1, rs);
      assert Runs([p] + ([q] + peers), dead) == [1] + rs;
    }
  }

  /** A pass halves every run of dead peers, wherever it stands, rounding down. */
  lemma {:induction false} SweepHalvesEveryRun(peers: seq<Peer>, dead: set<int>)
    ensures Runs(Sweep(peers, dead), dead) == Halves(Runs(peers, dead))
  {
    if peers == [] {
      assert Runs([], dead) == [0];
    } else if peers[0].socketfd !in dead {
      SweepHalvesEveryRun(peers[1..], dead);
      HalvesOf(0, Runs(peers[1..], dead));
      RunsOf(peers[0], Sweep(peers[1..], dead), dead);
    } else if |peers| > 1 {
      SweepHalvesEveryRun(peers[2..], dead);
      RunsBehindTwo(peers[0], peers[1], peers[2..], dead);
      assert peers == [peers[0]] + ([peers[1]] + peers[2..]);
    } else {
      assert Runs([], dead) == [0] && peers[1..] == [];
      assert Runs(peers, dead) == [1];
    }
  }

  lemma {:induction false} NoRunNoDead(peers: seq<Peer>, dead: set<int>)
    ensures |Alive(peers, dead)| <= |peers|
    ensures LongestDeadRun(peers, dead) == 0 <==> Alive(peers, dead) == peers
  {
    if peers != [] {
      NoRunNoDead(peers[1..], dead);
      assert peers == [peers[0]] + peers[1..];
    }
  }

  /** k passes leave exactly the living peers if and only if no run of dead peers was as long as 2^k. */
  lemma {:induction false} SweepsNeeded(peers: seq<Peer>, dead: set<int>, k: nat)
    ensures Sweeps(peers, dead, k) == Alive(peers, dead) <==> LongestDeadRun(peers, dead) < Power2(k)
    decreases k
  {
    if k == 0 {
      NoRunNoDead(peers, dead);
    } else {
      SweepKeepsAlive(peers, dead);
      SweepHalvesRuns(peers, dead);
      SweepsNeeded(Sweep(peers, dead), dead, k - 1);
    }
  }

  /** How many dead peers stand immediately before position i. */
  function DeadBefore(peers: seq<Peer>, dead: set<int>, i: nat): (n: nat)
    requires i <= |peers|
    ensures n <= i
  {
    if i == 0 || peers[i - 1].socketfd !in dead then 0 else 1 + DeadBefore(peers, dead, i - 1)
  }

  /** The pass looks at position i exactly when an even number of dead peers stands immediately before it;
      what it looks at it reaches or drops. */
  predicate IsVisited(peers: seq<Peer>, dead: set<int>, i: nat)
    requires i < |peers|
  {
    DeadBefore(peers, dead, i) % 2 == 0
  }

  predicate IsReached(peers: seq<Peer>, dead: set<int>, i: nat)
    requires i < |peers|
  {
    IsVisited(peers, dead, i) && peers[i].socketfd !in dead
  }

  predicate IsDropped(peers: seq<Peer>, dead: set<int>, i: nat)
    requires i < |peers|
  {
    IsVisited(peers, dead, i) && peers[i].socketfd in dead
  }

  /** The peers at the chosen positions, in order. */
  function Pick(peers: seq<Peer>, chosen: seq<bool>): seq<Peer>
    requires |peers| == |chosen|
  {
    if peers == [] then [] else (if chosen[0] then [peers[0]] else []) + Pick(peers[1..], chosen[1..])
  }

  function ReachedPositions(peers: seq<Peer>, dead: set<int>): seq<bool> {
    seq(|peers|, i requires 0 <= i < |peers| => IsReached(peers, dead, i))
  }

  function KeptPositions(peers: seq<Peer>, dead: set<int>): seq<bool> {
    seq(|peers|, i requires 0 <= i < |peers| => !IsDropped(peers, dead, i))
  }

  /** The next k positions are settled, and the pass goes on from there as if it started there. */
  predicate Settled(peers: seq<Peer>, dead: set<int>, k: nat) {
    && k <= |peers|
    && ((k == 1 && peers[0].socketfd !in dead) || (k == 2 && peers[0].socketfd in dead))
  }

  lemma {:induction false} VisitsGoOn(peers: seq<Peer>, dead: set<int>, k: nat, i: nat)
    requires Settled(peers, dead, k) && i <= |peers| - k
    ensures DeadBefore(peers, dead, i + k) % 2 == DeadBefore(peers[k..], dead, i) % 2
    decreases i
  {
    if i == 0 {
      assert DeadBefore(peers, dead, 1) == if k == 1 then 0 else 1;
    } else {
      VisitsGoOn(peers, dead, k, i - 1);
      assert peers[k..][i - 1] == peers[i + k - 1];
    }
  }

  lemma PositionsGoOn(peers: seq<Peer>, dead: set<int>, k: nat)
    requires Settled(peers, dead, k)
    ensures ReachedPositions(peers, dead)[k..] == ReachedPositions(peers[k..], dead)
    ensures KeptPositions(peers, dead)[k..] == KeptPositions(peers[k..], dead)
  {
    forall i | 0 <= i < |peers| - k
      ensures IsVisited(peers, dead, i + k) == IsVisited(peers[k..], dead, i)
    {
      VisitsGoOn(peers, dead, k, i);
    }
  }

  lemma PickTwo(peers: seq<Peer>, chosen: seq<bool>)
    requires |peers| == |chosen| >= 2
    ensures Pick(peers, chosen) == (if chosen[0] then [peers[0]] else []) + (if chosen[1] then [peers[1]] else [])
                                   + Pick(peers[2..], chosen[2..])
  {
    assert peers[1..][1..] == peers[2..] && chosen[1..][1..] == chosen[2..];
  }

  /** What a pass does with the positions it settles. */
  lemma FirstPositions(peers: seq<Peer>, dead: set<int>)
    ensures |peers| >= 1 ==>
              var alive := peers[0].socketfd !in dead;
              ReachedPositions(peers, dead)[0] == alive && KeptPositions(peers, dead)[0] == alive
    ensures |peers| >= 2 && peers[0].socketfd in dead ==>
              !ReachedPositions(peers, dead)[1] && KeptPositions(peers, dead)[1]
  {
    if |peers| >= 2 && peers[0].socketfd in dead {
      assert DeadBefore(peers, dead, 1) == 1;
    }
  }

  /** The pass, position by position: it keeps every peer it does not drop. */
  lemma {:induction false} SweepByPosition(peers: seq<Peer>, dead: set<int>)
    ensures Sweep(peers, dead) == Pick(peers, KeptPositions(peers, dead))
  {
    hide IsVisited, IsReached, IsDropped, DeadBefore, ReachedPositions;
    var chosen := KeptPositions(peers, dead);
    FirstPositions(peers, dead);
    if peers == [] {
    } else if peers[0].socketfd !in dead {
      PositionsGoOn(peers, dead, 1);
      SweepByPosition(peers[1..], dead);
    } else if |peers| > 1 {
      PositionsGoOn(peers, dead, 2);
      SweepByPosition(peers[2..], dead);
      PickTwo(peers, chosen);
    }
  }

  /** It reaches a peer exactly when it is alive and an even number of dead peers stands immediately before it. */
  lemma {:induction false} ReachedByPosition(peers: seq<Peer>, dead: set<int>)
    ensures Reached(peers, dead) == Pick(peers, ReachedPositions(peers, dead))
  {
    hide IsVisited, IsReached, IsDropped, DeadBefore, KeptPositions;
    var chosen := ReachedPositions(peers, dead);
    FirstPositions(peers, dead);
    if peers == [] {
    } else if peers[0].socketfd !in dead {
      PositionsGoOn(peers, dead, 1);
      ReachedByPosition(peers[1..], dead);
    } else if |peers| > 1 {
      PositionsGoOn(peers, dead, 2);
      ReachedByPosition(peers[2..], dead);
      PickTwo(peers, chosen);
    }
  }

  /** When no peer is dead, a pass reaches everyone once, in order. */
  lemma {:induction false} EveryoneReached(peers: seq<Peer>, dead: set<int>)
    requires forall p :: p in peers ==> p.socketfd !in dead
    ensures Reached(peers, dead) == peers && Sweep(peers, dead) == peers
  {
    if peers != [] {
      EveryoneReached(peers[1..], dead);
      assert peers == [peers[0]] + peers[1..];
    }
  }

  // ----- a broadcast is a pass that follows a check pass

  /** Where the check pass leaves the peer of position i, if it keeps it. */
  function NewPosition(peers: seq<Peer>, dead: set<int>, i: nat): nat
    requires i <= |peers|
    decreases |peers|
  {
    if i == 0 then 0
    else if peers[0].socketfd !in dead then 1 + NewPosition(peers[1..], dead, i - 1)
    else if i == 1 then 0
    else 1 + NewPosition(peers[2..], dead, i - 2)
  }

  lemma {:induction false} DeadBeforePrepend(p: Peer, peers: seq<Peer>, dead: set<int>, i: nat)
    requires i <= |peers|
    ensures DeadBefore([p] + peers, dead, i + 1) ==
            if DeadBefore(peers, dead, i) < i then DeadBefore(peers, dead, i)
            else if p.socketfd in dead then i + 1 else i
    decreases i
  {
    if i > 0 {
      DeadBeforePrepend(p, peers, dead, i - 1);
      assert ([p] + peers)[i] == peers[i - 1];
    }
  }

  /** The check pass leaves a living peer in the list, behind half as many dead ones. */
  ghost predicate HalvedBefore(peers: seq<Peer>, dead: set<int>, i: nat)
    requires i < |peers|
  {
    var swept, j := Sweep(peers, dead), NewPosition(peers, dead, i);
    && j < |swept| && swept[j] == peers[i]
    && DeadBefore(swept, dead, j) == DeadBefore(peers, dead, i) / 2
    && (DeadBefore(swept, dead, j) == j <==> DeadBefore(peers, dead, i) == i)
  }

  lemma HalvedBehindTwo(p: Peer, q: Peer, peers: seq<Peer>, dead: set<int>, i: nat)
    requires p.socketfd in dead && i < |peers| && HalvedBefore(peers, dead, i)
    ensures HalvedBefore([p] + ([q] + peers), dead, i + 2)
  {
    hide DeadBefore;
    var whole := [p] + ([q] + peers);
    var j := NewPosition(peers, dead, i);
    DeadBeforePrepend(q, peers, dead, i);
    DeadBeforePrepend(p, [q] + peers, dead, i + 1);
    DeadBeforePrepend(q, Sweep(peers, dead), dead, j);
    assert whole[2..] == peers && whole[1] == q;
    assert Sweep(whole, dead) == [q] + Sweep(peers, dead);
    assert NewPosition(whole, dead, i + 2) == j + 1;
  }

  lemma HalvedBehindOne(p: Peer, peers: seq<Peer>, dead: set<int>, i: nat)
    requires p.socketfd !in dead && i < |peers| && HalvedBefore(peers, dead, i)
    ensures HalvedBefore([p] + peers, dead, i + 1)
  {
    hide DeadBefore;
    var whole := [p] + peers;
    var j := NewPosition(peers, dead, i);
    DeadBeforePrepend(p, peers, dead, i);
    DeadBeforePrepend(p, Sweep(peers, dead), dead, j);
    assert whole[1..] == peers;
    assert Sweep(whole, dead) == [p] + Sweep(peers, dead);
    assert NewPosition(whole, dead, i + 1) == j + 1;
  }

  lemma {:induction false} CheckHalvesBefore(peers: seq<Peer>, dead: set<int>, i: nat)
    requires i < |peers| && peers[i].socketfd !in dead
    ensures HalvedBefore(peers, dead, i)
    decreases |peers|
  {
    hide HalvedBefore;
    if i == 0 {
      FirstSurvives(peers, dead);
    } else if peers[0].socketfd !in dead {
      CheckHalvesBefore(peers[1..], dead, i - 1);
      HalvedBehindOne(peers[0], peers[1..], dead, i - 1);
      assert peers == [peers[0]] + peers[1..];
    } else if i > 1 {
      CheckHalvesBefore(peers[2..], dead, i - 2);
      HalvedBehindTwo(peers[0], peers[1], peers[2..], dead, i - 2);
      assert peers == [peers[0]] + ([peers[1]] + peers[2..]);
    } else {
      SecondSurvives(peers, dead);
    }
  }

  lemma FirstSurvives(peers: seq<Peer>, dead: set<int>)
    requires peers != [] && peers[0].socketfd !in dead
    ensures HalvedBefore(peers, dead, 0)
  {
  }

  lemma SecondSurvives(peers: seq<Peer>, dead: set<int>)
    requires |peers| > 1 && peers[0].socketfd in dead && peers[1].socketfd !in dead
    ensures HalvedBefore(peers, dead, 1)
  {
    assert DeadBefore(peers, dead, 1) == 1;
  }

  lemma {:induction false} PickHasPicked(peers: seq<Peer>, chosen: seq<bool>, i: nat)
    requires |peers| == |chosen| && i < |peers| && DistinctDescriptors(peers)
    ensures peers[i] in Pick(peers, chosen) <==> chosen[i]
    ensures forall p :: p in Pick(peers, chosen) ==> p in peers
  {
    PickedArePeers(peers, chosen);
    if i == 0 {
      PickedArePeers(peers[1..], chosen[1..]);
    } else {
      PickHasPicked(peers[1..], chosen[1..], i - 1);
    }
  }

  lemma {:induction false} PickedArePeers(peers: seq<Peer>, chosen: seq<bool>)
    requires |peers| == |chosen|
    ensures forall p :: p in Pick(peers, chosen) ==> p in peers
  {
    if peers != [] {
      PickedArePeers(peers[1..], chosen[1..]);
    }
  }

  lemma {:induction false} PickKeepsDistinct(peers: seq<Peer>, chosen: seq<bool>)
    requires |peers| == |chosen| && DistinctDescriptors(peers)
    ensures DistinctDescriptors(Pick(peers, chosen))
  {
    if peers != [] {
      var rest := Pick(peers[1..], chosen[1..]);
      PickKeepsDistinct(peers[1..], chosen[1..]);
      PickedArePeers(peers[1..], chosen[1..]);
      forall i | 0 <= i < |rest| ensures rest[i].socketfd != peers[0].socketfd {
        assert rest[i] in peers[1..];
        var j :| 1 <= j < |peers| && peers[j] == rest[i];
      }
    }
  }

  lemma SweepKeepsDistinct(peers: seq<Peer>, dead: set<int>)
    requires DistinctDescriptors(peers)
    ensures DistinctDescriptors(Sweep(peers, dead))
  {
    SweepByPosition(peers, dead);
    PickKeepsDistinct(peers, KeptPositions(peers, dead));
  }

  /** A broadcast command first checks the connections, and peers may die in between: `dead` are the peers that are
      dead at the check, `later` those that are dead at the broadcast. A living peer gets the message if and only if
      the number of peers immediately before it in the checked list that are dead by then is even. */
  lemma BroadcastReaches(peers: seq<Peer>, dead: set<int>, later: set<int>, i: nat)
    requires i < |peers| && peers[i].socketfd !in dead && peers[i].socketfd !in later && DistinctDescriptors(peers)
    ensures NewPosition(peers, dead, i) < |Sweep(peers, dead)|
    ensures Sweep(peers, dead)[NewPosition(peers, dead, i)] == peers[i]
    ensures peers[i] in Reached(Sweep(peers, dead), later) <==>
            DeadBefore(Sweep(peers, dead), later, NewPosition(peers, dead, i)) % 2 == 0
  {
    var swept, j := Sweep(peers, dead), NewPosition(peers, dead, i);
    CheckHalvesBefore(peers, dead, i);
    SweepKeepsDistinct(peers, dead);
    ReachedByPosition(swept, later);
    PickHasPicked(swept, ReachedPositions(swept, later), j);
  }

  /** When nobody dies in between: if and only if half the number of dead peers immediately before it in the list
      before the command, rounded down, is even. */
  lemma SteadyBroadcastReaches(peers: seq<Peer>, dead: set<int>, i: nat)
    requires i < |peers| && peers[i].socketfd !in dead && DistinctDescriptors(peers)
    ensures peers[i] in Reached(Sweep(peers, dead), dead) <==> DeadBefore(peers, dead, i) / 2 % 2 == 0
  {
    BroadcastReaches(peers, dead, dead, i);
    CheckHalvesBefore(peers, dead, i);
  }

  // ----- the two shortcomings at concrete lists

  /** Of two dead peers side by side, a check drops one. */
  lemma CheckLeavesDeadPeer(a: Peer, b: Peer)
    ensures Sweep([a, b], {a.socketfd, b.socketfd}) == [b]
  {
    assert [a, b][2..] == [];
  }

  /** A broadcast command misses a living peer behind two dead ones, and one behind a peer that dies in between. */
  lemma BroadcastMissesPeer(a: Peer, b: Peer, c: Peer)
    requires c.socketfd !in {a.socketfd, b.socketfd} && a.socketfd != b.socketfd
    ensures var dead := {a.socketfd, b.socketfd};
            Reached(Sweep([a, b, c], dead), dead) == []
    ensures Reached(Sweep([a, c], {}), {a.socketfd}) == []
  {
    var dead := {a.socketfd, b.socketfd};
    assert [a, b, c][2..] == [c] && [c][1..] == [];
    assert Sweep([a, b, c], dead) == [b] + Sweep([c], dead);
    assert Sweep([c], dead) == [c] + Sweep([], dead);
    assert [b, c][2..] == [];
    assert [a, c][1..] == [c] && Sweep([a, c], {}) == [a] + ([c] + Sweep([], {}));
    assert [a, c][2..] == [];
  }

  // ----- the search loops of CLIENT_write, CLIENT_showAudios and CLIENT_download

  datatype Found = Found(peers: seq<Peer>, target: Option<Peer>)

  /** Walk the list; a matching peer that cannot be written to is dropped, the first one that can is the target. */
  function Search(peers: seq<Peer>, user: Bytes, dead: set<int>): Found {
    if peers == [] then Found([], None)
    else if Matches(peers[0].name, user) && peers[0].socketfd !in dead then Found(peers, Some(peers[0]))
    else
      var Found(rest, target) := Search(peers[1..], user, dead);
      Found((if Matches(peers[0].name, user) then [] else [peers[0]]) + rest, target)
  }

  /** The result of the search, seen from the middle of it. */
  function SearchFrom(v: View<Peer>, user: Bytes, dead: set<int>): Found
    requires 0 <= v.at <= |v.items|
  {
    var Found(rest, target) := Search(v.items[v.at..], user, dead);
    Found(v.items[..v.at] + rest, target)
  }

  lemma SearchFromTheStart(peers: seq<Peer>, user: Bytes, dead: set<int>)
    ensures SearchFrom(View(peers, 0), user, dead) == Search(peers, user, dead)
  {
    assert peers[0..] == peers;
  }

  lemma SearchAtTheEnd(v: View<Peer>, user: Bytes, dead: set<int>)
    requires v.at == |v.items|
    ensures SearchFrom(v, user, dead) == Found(v.items, None)
  {
  }

  /** What one round does to the cursor and the list, when it has not found the target. */
  function Rejected(v: View<Peer>, user: Bytes): View<Peer>
    requires v.OnElement()
  {
    if Matches(v.items[v.at].name, user) then v.Remove() else v.Advance()
  }

  lemma DroppingGoesOn(v: View<Peer>, user: Bytes, dead: set<int>)
    requires v.OnElement() && !Answers(v.items[v.at], user, dead) && Matches(v.items[v.at].name, user)
    ensures SearchFrom(v.Remove(), user, dead) == SearchFrom(v, user, dead)
  {
    hide Matches;
    var w := v.Remove();
    assert v.items[v.at..][1..] == v.items[v.at + 1..];
    assert w.items[..w.at] == v.items[..v.at] && w.items[w.at..] == v.items[v.at + 1..];
  }

  lemma PassingGoesOn(v: View<Peer>, user: Bytes, dead: set<int>)
    requires v.OnElement() && !Matches(v.items[v.at].name, user)
    ensures SearchFrom(v.Advance(), user, dead) == SearchFrom(v, user, dead)
  {
    hide Matches;
    assert v.items[v.at..][1..] == v.items[v.at + 1..];
    assert v.items[..v.at + 1] == v.items[..v.at] + [v.items[v.at]];
  }

  /** A round either finds the target the whole search ends with, or leads on to the same result. */
  lemma SearchRound(v: View<Peer>, user: Bytes, dead: set<int>)
    requires v.OnElement()
    ensures var p, w := v.items[v.at], Rejected(v, user);
            if Answers(p, user, dead) then SearchFrom(v, user, dead) == Found(v.items, Some(p))
            else
              && SearchFrom(w, user, dead) == SearchFrom(v, user, dead)
              && 0 <= w.at <= |w.items| && |w.items| - w.at < |v.items| - v.at
  {
    if Answers(v.items[v.at], user, dead) {
      assert v.items[..v.at] + v.items[v.at..] == v.items;
    } else if Matches(v.items[v.at].name, user) {
      DroppingGoesOn(v, user, dead);
    } else {
      PassingGoesOn(v, user, dead);
    }
  }

  predicate Answers(p: Peer, user: Bytes, dead: set<int>) {
    Matches(p.name, user) && p.socketfd !in dead
  }

  function Others(peers: seq<Peer>, user: Bytes): seq<Peer> {
    if peers == [] then [] else (if Matches(peers[0].name, user) then [] else [peers[0]]) + Others(peers[1..], user)
  }

  /** The target is the first peer of that name that can be written to; the peers before it lose exactly the
      others of that name, and nothing changes behind it. */
  lemma {:induction false} SearchFindsFirst(peers: seq<Peer>, user: Bytes, dead: set<int>, i: nat)
    requires i <= |peers|
    requires forall j :: 0 <= j < i ==> !Answers(peers[j], user, dead)
    requires i < |peers| ==> Answers(peers[i], user, dead)
    ensures Search(peers, user, dead) ==
            Found(Others(peers[..i], user) + peers[i..], if i < |peers| then Some(peers[i]) else None)
  {
    hide Search, Others, Matches;
    if i == 0 {
      FirstAnswers(peers, user, dead);
      assert peers[..0] == [] && [] + peers[0..] == peers;
    } else {
      var kept := if Matches(peers[0].name, user) then [] else [peers[0]];
      assert !Answers(peers[0], user, dead);
      SearchFindsFirst(peers[1..], user, dead, i - 1);
      FirstIsRejected(peers, user, dead, i);
      assert peers[i..] == peers[1..][i - 1..];
      var others := Others(peers[1..][..i - 1], user);
      assert kept + (others + peers[i..]) == kept + others + peers[i..];
    }
  }

  lemma FirstAnswers(peers: seq<Peer>, user: Bytes, dead: set<int>)
    requires peers != [] ==> Answers(peers[0], user, dead)
    ensures Search(peers, user, dead) == Found(peers, if peers == [] then None else Some(peers[0]))
    ensures Others([], user) == []
  {
  }

  lemma FirstIsRejected(peers: seq<Peer>, user: Bytes, dead: set<int>, i: nat)
    requires 0 < i <= |peers| && !Answers(peers[0], user, dead)
    ensures var kept, rest := if Matches(peers[0].name, user) then [] else [peers[0]], Search(peers[1..], user, dead);
            && Search(peers, user, dead) == Found(kept + rest.peers, rest.target)
            && Others(peers[..i], user) == kept + Others(peers[1..][..i - 1], user)
  {
    hide Matches;
    assert peers[..i][1..] == peers[1..][..i - 1];
  }

  /** The peers that a search drops are of that name, and no others. */
  lemma {:induction false} OthersAre(peers: seq<Peer>, user: Bytes)
    ensures forall p :: p in Others(peers, user) <==> p in peers && !Matches(p.name, user)
  {
    hide Matches;
    if peers != [] {
      OthersAre(peers[1..], user);
      assert peers == [peers[0]] + peers[1..];
    }
  }

  /** A peer named `mia` is not found by a user who types `MIA`; one named `MIA` is found as `mia`. */
  lemma LowerCasePeerIsMissed(p: Peer)
    ensures Search([p.(name := Ascii("mia"))], Ascii("MIA"), {}).target == None
    ensures Search([p.(name := Ascii("MIA"))], Ascii("mia"), {}).target == Some(p.(name := Ascii("MIA")))
  {
    hide Matches, Ascii;
    LowerCaseNameIsMissed();
  }

  // ----- CLIENT_connectPort

  predicate HasPort(peers: seq<Peer>, port: int) {
    exists i :: 0 <= i < |peers| && peers[i].port == port
  }

  /** Where a new peer belongs: right behind the first one. */
  function Inserted(peers: seq<Peer>, p: Peer): seq<Peer> {
    if peers == [] then [p] else [peers[0], p] + peers[1..]
  }

  /** Where it is put: behind the first; in an empty list it goes behind the cursor, wherever that is. */
  function Enter(v: View<Peer>, p: Peer): View<Peer>
    requires v.Valid()
  {
    if v.items == [] then v.InsertAfter(p) else View(v.items, 0).InsertAfter(p)
  }

  lemma InsertedAt(peers: seq<Peer>, p: Peer, i: nat)
    requires i <= |peers|
    ensures |Inserted(peers, p)| == |peers| + 1
    ensures Inserted(peers, p)[i] ==
            if peers == [] || i == 1 then p else if i == 0 then peers[0] else peers[i - 1]
  {
  }

  lemma InsertedKeepsRegistered(peers: seq<Peer>, p: Peer, ownPort: int, open: set<int>)
    requires Registered(peers, ownPort, open)
    requires !HasPort(peers, p.port) && p.port != ownPort && p.socketfd !in open
    ensures Registered(Inserted(peers, p), ownPort, open + {p.socketfd})
  {
    hide Inserted;
    var after := Inserted(peers, p);
    InsertedAt(peers, p, 0);
    forall i | 0 <= i < |after|
      ensures after[i].port != ownPort && after[i].socketfd in open + {p.socketfd}
    {
      InsertedAt(peers, p, i);
    }
    forall i, j | 0 <= i < j < |after|
      ensures after[i].socketfd != after[j].socketfd && after[i].port != after[j].port
    {
      InsertedAt(peers, p, i);
      InsertedAt(peers, p, j);
    }
  }

  lemma EnterKeepsRegistered(v: View<Peer>, p: Peer, ownPort: int, open: set<int>)
    requires v.Valid() && Registered(v.items, ownPort, open)
    requires !HasPort(v.items, p.port) && p.port != ownPort && p.socketfd !in open
    ensures Registered(Enter(v, p).items, ownPort, open + {p.socketfd})
  {
    hide Enter, Inserted, Registered, HasPort;
    InsertedKeepsRegistered(v.items, p, ownPort, open);
    EnterSucceedsIff(v, p);
    if v.items == [] && v.at == 0 {
      NobodyIsRegistered(ownPort, open + {p.socketfd});
    }
  }

  lemma NobodyIsRegistered(ownPort: int, open: set<int>)
    ensures Registered([], ownPort, open)
  {
  }

  lemma EnterIs(v: View<Peer>, w: View<Peer>, p: Peer)
    requires v.Valid() && w == if v.items == [] then v else View(v.items, 0)
    ensures Enter(v, p) == w.InsertAfter(p)
  {
  }

  /** Where the cursor stands matters only in an empty list. */
  lemma FromFirst(v: View<Peer>, w: View<Peer>)
    requires v.Valid() && w.Valid() && v.items == w.items && (v.items == [] ==> v == w)
    ensures forall p :: Enter(v, p).items == Enter(w, p).items
  {
  }

  /** A peer that is to enter an empty list with its cursor on the right sentinel is lost. */
  lemma NewPeerIsLost(p: Peer)
    ensures Enter(View([], 0), p).items == []
  {
  }

  lemma EnterBehindFirst(v: View<Peer>, p: Peer)
    requires v.Valid() && v.items != []
    ensures Enter(v, p).items == Inserted(v.items, p) != v.items
  {
    assert v.items[..1] == [v.items[0]];
    assert Enter(v, p).items == v.items[..1] + [p] + v.items[1..];
    assert |Enter(v, p).items| == |v.items| + 1;
  }

  /** The new peer always gets in, right behind the first, if and only if an empty list has its cursor on the
      left sentinel. With the cursor on the right one the insertion is refused and the peer is lost. */
  lemma EnterSucceedsIff(v: View<Peer>, p: Peer)
    requires v.Valid()
    ensures v.items == [] && v.at == 0 <==> Enter(v, p).items == v.items
    ensures !(v.items == [] && v.at == 0) <==> Enter(v, p).items == Inserted(v.items, p)
  {
    if v.items != [] {
      EnterBehindFirst(v, p);
    } else {
      assert |Inserted(v.items, p)| == 1;
    }
  }
}
