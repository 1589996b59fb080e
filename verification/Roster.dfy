/** The list of connected sessions over a whole run, said on descriptors: what the insertions and removals of
    src/dedicatedServer.c make of it, and when that is the list of the sessions that are connected. */
module Roster {
  import opened Sequences

  /** A session handled a connect request, or it ended. */
  datatype Happened = In(fd: int) | Out(fd: int)

  function RemoveFirst(s: seq<int>, fd: int): seq<int> {
    var k := IndexOf(s, fd);
    if k < |s| then s[..k] + s[k + 1..] else s
  }

  /** Each connect request appends; each end removes the first entry of that session, if there is one. */
  function Listed(h: seq<Happened>): seq<int>
    decreases |h|
  {
    if h == [] then []
    else
      var before, last := Listed(h[..|h| - 1]), h[|h| - 1];
      match last
      case In(fd) => before + [fd]
      case Out(fd) => RemoveFirst(before, fd)
  }

  /** The sessions that have connected and not ended, by their first connection, in order; `whole` is the full run. */
  function Connected(h: seq<Happened>, whole: seq<Happened>): seq<int>
    decreases |h|
  {
    if h == [] then []
    else
      var rest, last := h[..|h| - 1], h[|h| - 1];
      Connected(rest, whole)
      + if last.In? && last !in rest && Out(last.fd) !in whole then [last.fd] else []
  }

  /** A session that has ended does nothing more. */
  ghost predicate Orderly(h: seq<Happened>) {
    forall i, j :: 0 <= i < j < |h| && h[i].Out? ==> h[j].fd != h[i].fd
  }

  ghost predicate ConnectsOnce(h: seq<Happened>) {
    forall i, j :: 0 <= i < j < |h| && h[i].In? && h[j].In? ==> h[i].fd != h[j].fd
  }

  lemma RemoveFirstCount(s: seq<int>, fd: int)
    ensures multiset(RemoveFirst(s, fd)) == multiset(s) - multiset{fd}
  {
    hide IndexOf;
    var k := IndexOf(s, fd);
    if k < |s| {
      assert s == s[..k] + [fd] + s[k + 1..];
    }
  }

  lemma OneMoreListed(h: seq<Happened>, last: Happened)
    ensures Listed(h + [last]) == if last.In? then Listed(h) + [last.fd] else RemoveFirst(Listed(h), last.fd)
  {
    assert (h + [last])[..|h|] == h;
  }

  lemma OrderlyBefore(h: seq<Happened>, last: Happened)
    requires Orderly(h + [last])
    ensures Orderly(h) && Out(last.fd) !in h
  {
    var all := h + [last];
    assert all[|h|] == last && forall i :: 0 <= i < |h| ==> all[i] == h[i];
  }

  /** Conservation: a session is listed once per connect request, one less if it has ended. */
  lemma {:induction false} EntriesOf(h: seq<Happened>, fd: int)
    requires Orderly(h)
    ensures var n := multiset(h)[In(fd)];
            multiset(Listed(h))[fd] == if Out(fd) in h && n > 0 then n - 1 else n
    decreases |h|
  {
    if h != [] {
      hide RemoveFirst, Listed, Orderly;
      var rest, last := h[..|h| - 1], h[|h| - 1];
      assert h == rest + [last];
      OrderlyBefore(rest, last);
      EntriesOf(rest, fd);
      OneMoreHappened(rest, last, fd);
      OneMoreListed(rest, last);
      if last.Out? {
        RemoveFirstCount(Listed(rest), last.fd);
        OneFewer(multiset(Listed(rest)), last.fd, fd);
      } else {
        OneMoreEntry(Listed(rest), last.fd, fd);
      }
    }
  }

  lemma OneMoreEntry(s: seq<int>, x: int, fd: int)
    ensures multiset(s + [x])[fd] == multiset(s)[fd] + if x == fd then 1 else 0
  {
  }

  lemma OneFewer(m: multiset<int>, x: int, fd: int)
    ensures (m - multiset{x})[fd] == if x == fd && m[fd] > 0 then m[fd] - 1 else m[fd]
  {
  }

  lemma OneMoreHappened(h: seq<Happened>, last: Happened, fd: int)
    ensures multiset(h + [last])[In(fd)] == multiset(h)[In(fd)] + if last == In(fd) then 1 else 0
    ensures Out(fd) in h + [last] <==> Out(fd) in h || last == Out(fd)
  {
  }

  lemma {:induction false} ConnectedIsSimple(h: seq<Happened>, whole: seq<Happened>)
    ensures forall fd :: fd in Connected(h, whole) ==> In(fd) in h && Out(fd) !in whole
    ensures forall i, j :: 0 <= i < j < |Connected(h, whole)| ==> Connected(h, whole)[i] != Connected(h, whole)[j]
    decreases |h|
  {
    if h != [] {
      var rest, last := h[..|h| - 1], h[|h| - 1];
      assert h == rest + [last];
      ConnectedIsSimple(rest, whole);
    }
  }

  lemma {:induction false} AtMostOnce(s: seq<int>, fd: int)
    requires forall i, j :: 0 <= i < j < |s| ==> s[i] != s[j]
    ensures multiset(s)[fd] <= 1
  {
    if s != [] {
      AtMostOnce(s[1..], fd);
      assert s == [s[0]] + s[1..];
      if s[0] == fd {
        assert fd !in s[1..];
      }
    }
  }

  lemma {:induction false} OneMoreIn(h: seq<Happened>, whole: seq<Happened>, fd: int)
    ensures Connected(h, whole + [In(fd)]) == Connected(h, whole)
    decreases |h|
  {
    if h != [] {
      OneMoreIn(h[..|h| - 1], whole, fd);
    }
  }

  lemma IndexInAppended(s: seq<int>, x: int, fd: int)
    requires x !in s
    ensures IndexOf(s + [x], fd) == if fd == x then |s| else if fd in s then IndexOf(s, fd) else |s| + 1
    ensures fd !in s <==> IndexOf(s, fd) == |s|
  {
    hide IndexOf;
    var t := s + [x];
    assert t[|s|] == x && forall i :: 0 <= i < |s| ==> t[i] == s[i];
    var k, m := IndexOf(t, fd), IndexOf(s, fd);
    if m < |s| {
      assert t[m] == fd;
    }
  }

  lemma RemoveFromAppended(s: seq<int>, x: int, fd: int)
    requires x !in s
    ensures RemoveFirst(s + [x], fd) == if fd == x then s else RemoveFirst(s, fd) + [x]
    ensures RemoveFirst(s, x) == s
  {
    hide IndexOf;
    var t := s + [x];
    IndexInAppended(s, x, fd);
    IndexInAppended(s, x, x);
    var k := IndexOf(t, fd);
    if fd == x {
      assert t[..k] + t[k + 1..] == s;
    } else if fd in s {
      assert t[..k] + t[k + 1..] == s[..k] + s[k + 1..] + [x];
    }
  }

  lemma {:induction false} OneMoreOut(h: seq<Happened>, whole: seq<Happened>, fd: int)
    ensures Connected(h, whole + [Out(fd)]) == RemoveFirst(Connected(h, whole), fd)
    decreases |h|
  {
    hide RemoveFirst;
    if h == [] {
      assert RemoveFirst([], fd) == [] by { RemoveFromAppended([], fd, fd); }
    } else {
      var rest, last := h[..|h| - 1], h[|h| - 1];
      OneMoreOut(rest, whole, fd);
      ConnectedIsSimple(rest, whole);
      if last.In? && last !in rest && Out(last.fd) !in whole {
        RemoveFromAppended(Connected(rest, whole), last.fd, fd);
      } else {
        assert Connected(h, whole) == Connected(rest, whole);
      }
    }
  }

  lemma {:induction false} ConnectsOnceSuffices(h: seq<Happened>)
    requires Orderly(h) && ConnectsOnce(h)
    ensures Listed(h) == Connected(h, h)
    decreases |h|
  {
    if h != [] {
      var rest, last := h[..|h| - 1], h[|h| - 1];
      assert h == rest + [last];
      ConnectsOnceSuffices(rest);
      if last.In? {
        OneMoreIn(rest, rest, last.fd);
        assert last !in rest && Out(last.fd) !in h;
      } else {
        OneMoreOut(rest, rest, last.fd);
      }
    }
  }

  lemma {:induction false} InTwice(h: seq<Happened>, i: nat, j: nat)
    requires i < j < |h| && h[i] == h[j]
    ensures multiset(h)[h[i]] >= 2
  {
    assert h == h[..j] + [h[j]] + h[j + 1..];
    assert h[..j][i] == h[i];
    assert h[i] in multiset(h[..j]);
  }

  /** The list holds exactly the sessions that have connected and not ended, in the order in which they
      connected, if and only if every session has connected at most once. */
  lemma ListedIsConnectedIff(h: seq<Happened>)
    requires Orderly(h)
    ensures Listed(h) == Connected(h, h) <==> ConnectsOnce(h)
  {
    if ConnectsOnce(h) {
      ConnectsOnceSuffices(h);
    } else {
      var i, j :| 0 <= i < j < |h| && h[i].In? && h[j].In? && h[i].fd == h[j].fd;
      var fd := h[i].fd;
      InTwice(h, i, j);
      EntriesOf(h, fd);
      ConnectedIsSimple(h, h);
      AtMostOnce(Connected(h, h), fd);
      if Out(fd) in h {
        assert fd !in Connected(h, h);
      }
    }
  }

  /** A session that connects twice and ends stays in the list. */
  lemma EndedSessionStays()
    ensures var h := [In(3), In(3), Out(3)];
            Orderly(h) && Listed(h) == [3] && Connected(h, h) == []
  {
    hide Listed, Connected, RemoveFirst;
    var h := [In(3), In(3), Out(3)];
    assert Listed([]) == [] by { NothingListed(); }
    OneMoreListed([], In(3));
    assert [] + [In(3)] == [In(3)] && Listed([In(3)]) == [3];
    OneMoreListed([In(3)], In(3));
    assert [In(3)] + [In(3)] == [In(3), In(3)] && [3] + [3] == [3, 3] && Listed([In(3), In(3)]) == [3, 3];
    OneMoreListed([In(3), In(3)], Out(3));
    assert [In(3), In(3)] + [Out(3)] == h;
    RemoveOfTwo(3);
    assert h[2] == Out(3);
    NobodyConnected(h, h);
  }

  lemma {:induction false} NobodyConnected(h: seq<Happened>, whole: seq<Happened>)
    requires forall happened :: happened in h && happened.In? ==> Out(happened.fd) in whole
    ensures Connected(h, whole) == []
    decreases |h|
  {
    if h != [] {
      NobodyConnected(h[..|h| - 1], whole);
    }
  }

  lemma NothingListed()
    ensures Listed([]) == []
  {
  }

  lemma RemoveOfTwo(fd: int)
    ensures RemoveFirst([fd, fd], fd) == [fd]
  {
    assert IndexOf([fd, fd], fd) == 0;
  }

  /** What is meant by the connected sessions: those that have connected and not ended, in the order in which each
      connected first. */
  lemma ConnectedIs(h: seq<Happened>, fd: int)
    ensures fd in Connected(h, h) <==> In(fd) in h && Out(fd) !in h
  {
    ConnectedIsSimple(h, h);
    ConnectedHasAll(h, h, fd);
  }

  lemma {:induction false} ConnectedHasAll(h: seq<Happened>, whole: seq<Happened>, fd: int)
    ensures In(fd) in h && Out(fd) !in whole ==> fd in Connected(h, whole)
    decreases |h|
  {
    if h != [] {
      var rest, last := h[..|h| - 1], h[|h| - 1];
      assert h == rest + [last];
      ConnectedHasAll(rest, whole, fd);
    }
  }

  lemma {:induction false} ConnectedInOrder(h: seq<Happened>, whole: seq<Happened>, i: nat, j: nat)
    requires i < j < |Connected(h, whole)|
    ensures IndexOf(h, In(Connected(h, whole)[i])) < IndexOf(h, In(Connected(h, whole)[j])) < |h|
    decreases |h|
  {
    hide IndexOf;
    var rest, last := h[..|h| - 1], h[|h| - 1];
    var before := Connected(rest, whole);
    assert h == rest + [last];
    if i < |before| {
      IndexBehind(rest, last, In(before[i]));
      ConnectedIsSimple(rest, whole);
    }
    if j < |before| {
      IndexBehind(rest, last, In(before[j]));
      ConnectedInOrder(rest, whole, i, j);
    } else {
      IndexBehind(rest, last, last);
    }
  }

  /** Where the first x is does not change when something is added. */
  lemma IndexBehind(h: seq<Happened>, last: Happened, x: Happened)
    ensures x in h ==> IndexOf(h + [last], x) == IndexOf(h, x) < |h|
    ensures x !in h && x == last ==> IndexOf(h + [last], x) == |h|
  {
    hide IndexOf;
    var all := h + [last];
    assert all[|h|] == last && forall i :: 0 <= i < |h| ==> all[i] == h[i];
    var k := IndexOf(all, x);
    if x in h {
      var m := IndexOf(h, x);
      assert all[m] == x;
    }
  }
}
