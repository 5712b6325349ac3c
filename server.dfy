/**
  The server's protocol logic: the two shared lists `clients` and
  `activeUsers`, the broadcasts over them, and one connection's session
  (handshake, read loop, cleanup). Sockets become numbered writers whose
  output is logged line by line; a write fails exactly when its writer is in
  the `failing` set the caller supplies. Sessions run one step at a time.
*/
module ChatServer {
  import opened Wrappers
  import opened JavaString
  import opened Username
  import opened Codec
  import opened Protocol

  /** Identity of one `BufferedWriter`, numbered in the order sessions open them. */
  type WriterId = nat

  predicate Distinct<T(==)>(s: seq<T>) {
    forall i, j :: 0 <= i < j < |s| ==> s[i] != s[j]
  }

  /** `List.remove(Object)`: drops the first element equal to `x`, if any. */
  function RemoveFirst<T(==,!new)>(s: seq<T>, x: T): (r: seq<T>)
    ensures x !in s ==> r == s
    ensures x in s ==> |r| == |s| - 1
  {
    if s == [] then []
    else if s[0] == x then s[1..]
    else [s[0]] + RemoveFirst(s[1..], x)
  }

  /** `RemoveFirst` removes the first occurrence and keeps the order of the rest. */
  lemma {:induction false} RemoveFirstSplice<T(!new)>(a: seq<T>, x: T, b: seq<T>)
    requires x !in a
    ensures RemoveFirst(a + [x] + b, x) == a + b
  {
    var s := a + [x] + b;
    if a == [] {
      assert s[0] == x && s[1..] == b;
    } else {
      var t := a[1..] + [x] + b;
      ConsAppend(a, [x] + b);
      assert s == [a[0]] + t;
      assert s[1..] == t;
      RemoveFirstSplice(a[1..], x, b);
      ConsAppend(a, b);
    }
  }

  /** A non-empty list is its head followed by its tail, whatever follows. */
  lemma ConsAppend<T>(a: seq<T>, b: seq<T>)
    requires a != []
    ensures [a[0]] + (a[1..] + b) == a + b
  {
    var r := [a[0]] + (a[1..] + b);
    forall k | 0 <= k < |a + b| ensures (a + b)[k] == r[k] {
      if k > 0 {
        assert r[k] == (a[1..] + b)[k - 1];
      }
    }
  }

  /** Removal keeps every other element, and on a list without repeats it
      leaves no copy of `x` behind and creates no repeat. */
  lemma {:induction false} RemoveFirstMembers<T(!new)>(s: seq<T>, x: T)
    ensures forall y :: y != x ==> (y in RemoveFirst(s, x) <==> y in s)
    ensures Distinct(s) ==> Distinct(RemoveFirst(s, x)) && x !in RemoveFirst(s, x)
  {
    if s != [] {
      assert s == [s[0]] + s[1..];
      RemoveFirstMembers(s[1..], x);
      if Distinct(s) {
        assert Distinct(s[1..]) && s[0] !in s[1..];
        if s[0] != x {
          var r := RemoveFirst(s, x);
          assert r == [s[0]] + RemoveFirst(s[1..], x);
          forall i, j | 0 <= i < j < |r| ensures r[i] != r[j] {
            if i == 0 {
              assert r[j] in RemoveFirst(s[1..], x);
            }
          }
        }
      }
    }
  }

  /** Removal from a list whose first part already holds `x` leaves the rest alone. */
  lemma {:induction false} RemoveFirstAppend<T(!new)>(a: seq<T>, b: seq<T>, x: T)
    requires x in a
    ensures RemoveFirst(a + b, x) == RemoveFirst(a, x) + b
  {
    var s := a + b;
    assert s[0] == a[0] && s[1..] == a[1..] + b;
    if a[0] != x {
      RemoveFirstAppend(a[1..], b, x);
      var r := [a[0]] + (RemoveFirst(a[1..], x) + b);
      assert RemoveFirst(s, x) == r;
      forall k | 0 <= k < |r| ensures r[k] == (RemoveFirst(a, x) + b)[k] {
        if k > 0 {
          assert r[k] == (RemoveFirst(a[1..], x) + b)[k - 1];
        }
      }
    }
  }

  /** Removal takes exactly one copy of `x` out of the multiset of elements. */
  lemma {:induction false} RemoveFirstMultiset<T(!new)>(s: seq<T>, x: T)
    requires x in s
    ensures multiset(RemoveFirst(s, x)) == multiset(s) - multiset{x}
  {
    assert s == [s[0]] + s[1..];
    if s[0] != x {
      RemoveFirstMultiset(s[1..], x);
      assert RemoveFirst(s, x) == [s[0]] + RemoveFirst(s[1..], x);
    }
  }

  /** The roster after a session that joined as `name` and left again: the
      same names as before, and the same list when the name was new; a name
      already listed loses its earlier entry instead, so it moves to the end. */
  lemma RosterAfterSession(activeUsers: seq<string>, name: string)
    ensures multiset(RemoveFirst(activeUsers + [name], name)) == multiset(activeUsers)
    ensures name !in activeUsers ==> RemoveFirst(activeUsers + [name], name) == activeUsers
    ensures name in activeUsers ==>
      RemoveFirst(activeUsers + [name], name) == RemoveFirst(activeUsers, name) + [name]
  {
    RemoveFirstMultiset(activeUsers + [name], name);
    if name in activeUsers {
      RemoveFirstAppend(activeUsers, [name], name);
    } else {
      RemoveFirstSplice(activeUsers, name, []);
      assert activeUsers + [name] + [] == activeUsers + [name];
      assert activeUsers + [] == activeUsers;
    }
  }

  /** The writers of `s` whose writes succeed, in their order in `s`. */
  function Surviving(s: seq<WriterId>, failing: set<WriterId>): seq<WriterId>
  {
    if s == [] then []
    else
      var init, last := s[..|s| - 1], s[|s| - 1];
      assert s == init + [last];
      Surviving(init, failing) + (if last in failing then [] else [last])
  }

  /** A writer survives exactly when it was in the list and its write does not fail. */
  lemma {:induction false} SurvivingMembers(s: seq<WriterId>, failing: set<WriterId>)
    ensures forall w :: w in Surviving(s, failing) <==> w in s && w !in failing
  {
    if s != [] {
      var init, last := s[..|s| - 1], s[|s| - 1];
      assert s == init + [last];
      SurvivingMembers(init, failing);
    }
  }

  /** Pruning a list without repeats leaves a list without repeats. */
  lemma {:induction false} SurvivingDistinct(s: seq<WriterId>, failing: set<WriterId>)
    requires Distinct(s)
    ensures Distinct(Surviving(s, failing))
  {
    if s != [] {
      var init, last := s[..|s| - 1], s[|s| - 1];
      assert s == init + [last];
      assert Distinct(init) && last !in init;
      SurvivingDistinct(init, failing);
      SurvivingMembers(init, failing);
      var r := Surviving(s, failing);
      if last !in failing {
        assert r == Surviving(init, failing) + [last];
        forall i, j | 0 <= i < j < |r| ensures r[i] != r[j] {
          if j == |r| - 1 {
            assert r[i] in Surviving(init, failing);
          }
        }
      }
    }
  }

  /** Filtering commutes with concatenation: survivors keep their relative order. */
  lemma {:induction false} SurvivingAppend(a: seq<WriterId>, b: seq<WriterId>, failing: set<WriterId>)
    ensures Surviving(a + b, failing) == Surviving(a, failing) + Surviving(b, failing)
  {
    if b == [] {
      assert a + b == a;
    } else {
      var init, last := b[..|b| - 1], b[|b| - 1];
      var tail := if last in failing then [] else [last];
      var c := a + b;
      assert c[..|c| - 1] == a + init && c[|c| - 1] == last;
      assert Surviving(c, failing) == Surviving(a + init, failing) + tail;
      SurvivingAppend(a, init, failing);
      var sa, si := Surviving(a, failing), Surviving(init, failing);
      assert Surviving(b, failing) == si + tail;
      assert (sa + si) + tail == sa + (si + tail);
    }
  }

  /** A list none of whose writers fail is left as it is. */
  lemma {:induction false} SurvivingNoneFail(s: seq<WriterId>, failing: set<WriterId>)
    requires forall w :: w in s ==> w !in failing
    ensures Surviving(s, failing) == s
  {
    if s != [] {
      assert s == s[..|s| - 1] + [s[|s| - 1]];
      SurvivingNoneFail(s[..|s| - 1], failing);
    }
  }

  /** Pruning twice prunes nothing more. */
  lemma SurvivingIdempotent(s: seq<WriterId>, failing: set<WriterId>)
    ensures Surviving(Surviving(s, failing), failing) == Surviving(s, failing)
  {
    SurvivingMembers(s, failing);
    SurvivingNoneFail(Surviving(s, failing), failing);
  }

  /** One turn of the broadcast loop over `snapshot`, the list as it was on
      entry: with the first `i` writers handled, the live list is the survivors
      among them followed by the rest; handling writer `i` removes it when its
      write fails and keeps it otherwise. */
  lemma PruneStep(snapshot: seq<WriterId>, i: nat, failing: set<WriterId>)
    requires Distinct(snapshot) && i < |snapshot|
    ensures snapshot[i] !in snapshot[..i]
    ensures snapshot[..i + 1] == snapshot[..i] + [snapshot[i]]
    ensures var kept := Surviving(snapshot[..i], failing);
      && (snapshot[i] in failing ==>
            RemoveFirst(kept + snapshot[i..], snapshot[i]) == Surviving(snapshot[..i + 1], failing) + snapshot[i + 1..])
      && (snapshot[i] !in failing ==>
            kept + snapshot[i..] == Surviving(snapshot[..i + 1], failing) + snapshot[i + 1..])
  {
    var w, done, rest := snapshot[i], snapshot[..i], snapshot[i + 1..];
    var kept := Surviving(done, failing);
    assert snapshot[..i + 1] == done + [w] && snapshot[..i + 1][..i] == done;
    assert snapshot[i..] == [w] + rest;
    SurvivingMembers(done, failing);
    if w in failing {
      RemoveFirstSplice(kept, w, rest);
      assert kept + ([w] + rest) == kept + [w] + rest;
      assert kept + [] == kept;
    } else {
      assert kept + ([w] + rest) == (kept + [w]) + rest;
    }
  }

  /** `after` is `before` with `lines` appended to the log of exactly the
      writers of `writers` that do not fail; every other log is unchanged. */
  ghost predicate Delivered(before: seq<seq<string>>, writers: seq<WriterId>, failing: set<WriterId>,
                            lines: seq<string>, after: seq<seq<string>>)
  {
    |after| == |before| &&
    forall w :: 0 <= w < |before| ==>
      after[w] == before[w] + (if w in writers && w !in failing then lines else [])
  }

  /** Writing `line` to one more writer `w` of the snapshot extends the fan-out by it. */
  lemma FanOutStep(before: seq<seq<string>>, done: seq<WriterId>, w: WriterId, failing: set<WriterId>,
                   line: string, mid: seq<seq<string>>, after: seq<seq<string>>)
    requires Delivered(before, done, failing, [line], mid)
    requires w !in done && w < |mid|
    requires after == if w in failing then mid else mid[w := mid[w] + [line]]
    ensures Delivered(before, done + [w], failing, [line], after)
  {
    forall v | 0 <= v < |before|
      ensures after[v] == before[v] + (if v in done + [w] && v !in failing then [line] else [])
    {
      assert v in done + [w] <==> v in done || v == w;
    }
  }

  /** Two deliveries to the same surviving writers amount to one delivery of
      both batches, in order. */
  lemma DeliveredThen(before: seq<seq<string>>, a: seq<WriterId>, b: seq<WriterId>, failing: set<WriterId>,
                      xs: seq<string>, ys: seq<string>, mid: seq<seq<string>>, after: seq<seq<string>>)
    requires Delivered(before, a, failing, xs, mid)
    requires Delivered(mid, b, failing, ys, after)
    requires forall v :: v in b && v !in failing <==> v in a && v !in failing
    ensures Delivered(before, a, failing, xs + ys, after)
  {
    forall v | 0 <= v < |before|
      ensures after[v] == before[v] + (if v in a && v !in failing then xs + ys else [])
    {
      if v in a && v !in failing {
        assert after[v] == (before[v] + xs) + ys;
      } else {
        assert after[v] == before[v] + [] + [];
      }
    }
  }

  /** A delivery of no lines changes no log. */
  lemma DeliveredNothing(log: seq<seq<string>>, writers: seq<WriterId>, failing: set<WriterId>)
    ensures Delivered(log, writers, failing, [], log)
  {
    forall v | 0 <= v < |log| ensures log[v] == log[v] + [] {
    }
  }

  /** The frames of the first `i + 1` lines extend those of the first `i`. */
  lemma ChatFramesNext(times: seq<string>, username: string, lines: seq<string>, i: nat)
    requires i < |lines| == |times|
    ensures ChatFrames(times[..i + 1], username, lines[..i + 1])
         == ChatFrames(times[..i], username, lines[..i]) + [ChatLine(times[i], username, Decrypt(lines[i])) + CRLF]
  {
    assert times[..i + 1][..i] == times[..i] && lines[..i + 1][..i] == lines[..i];
  }

  /** The state of the read loop after the first `i` lines: the live list has
      been pruned once if anything was broadcast, and every surviving writer of
      `listed`, the list on entry, has been sent the frames of those lines. */
  ghost predicate Relaying(listed: seq<WriterId>, failing: set<WriterId>, username: string,
                           times: seq<string>, lines: seq<string>, i: nat,
                           before: seq<seq<string>>, clients: seq<WriterId>, received: seq<seq<string>>)
  {
    i <= |lines| == |times| &&
    clients == (if i == 0 then listed else Surviving(listed, failing)) &&
    Delivered(before, listed, failing, ChatFrames(times[..i], username, lines[..i]), received)
  }

  /** Broadcasting line `i` moves the read loop on by one line. */
  lemma RelayStep(listed: seq<WriterId>, failing: set<WriterId>, username: string,
                  times: seq<string>, lines: seq<string>, i: nat,
                  before: seq<seq<string>>, clients: seq<WriterId>, received: seq<seq<string>>,
                  after: seq<seq<string>>)
    requires i < |lines|
    requires Relaying(listed, failing, username, times, lines, i, before, clients, received)
    requires Delivered(received, clients, failing, [ChatLine(times[i], username, Decrypt(lines[i])) + CRLF], after)
    ensures Relaying(listed, failing, username, times, lines, i + 1, before, Surviving(clients, failing), after)
  {
    var frame := ChatLine(times[i], username, Decrypt(lines[i])) + CRLF;
    if i > 0 {
      SurvivingMembers(listed, failing);
      SurvivingIdempotent(listed, failing);
    }
    DeliveredThen(before, listed, clients, failing, ChatFrames(times[..i], username, lines[..i]), [frame], received, after);
    ChatFramesNext(times, username, lines, i);
  }

  /** Once every line is read, the loop has delivered the frames of all of
      them, and pruned the list once if there was any. */
  lemma RelayDone(listed: seq<WriterId>, failing: set<WriterId>, username: string,
                  times: seq<string>, lines: seq<string>,
                  before: seq<seq<string>>, clients: seq<WriterId>, received: seq<seq<string>>)
    requires Relaying(listed, failing, username, times, lines, |lines|, before, clients, received)
    ensures clients == if lines == [] then listed else Surviving(listed, failing)
    ensures Delivered(before, listed, failing, ChatFrames(times, username, lines), received)
  {
    assert times[..|lines|] == times && lines[..|lines|] == lines;
  }

  /** A writer appended to the list, pruned with it and then removed again
      leaves exactly the survivors of the list it joined. */
  lemma JoinThenLeave(clients: seq<WriterId>, w: WriterId, failing: set<WriterId>)
    requires Distinct(clients) && w !in clients
    ensures Distinct(Surviving(clients + [w], failing))
    ensures RemoveFirst(Surviving(clients + [w], failing), w) == Surviving(clients, failing)
    ensures forall v :: v in Surviving(clients + [w], failing) <==> v in clients + [w] && v !in failing
  {
    var kept := Surviving(clients, failing);
    assert Distinct(clients + [w]);
    SurvivingDistinct(clients + [w], failing);
    SurvivingMembers(clients + [w], failing);
    SurvivingMembers(clients, failing);
    SurvivingAppend(clients, [w], failing);
    assert Surviving([w], failing) == (if w in failing then [] else [w]) by {
      assert [w][..0] == [];
    }
    if w !in failing {
      RemoveFirstSplice(kept, w, []);
      assert kept + [w] + [] == kept + [w];
      assert kept + [] == kept;
    } else {
      assert kept + [] == kept;
    }
  }

  /** A delivery to `a` followed by one to `b`, where `b` is `a` without `w`
      as far as surviving writers go: every writer but `w` gets both batches
      or nothing, and `w` only the first. */
  lemma {:induction false} DeliveredThenWithout(before: seq<seq<string>>, a: seq<WriterId>, b: seq<WriterId>, w: WriterId,
                                                failing: set<WriterId>, xs: seq<string>, ys: seq<string>,
                                                mid: seq<seq<string>>, after: seq<seq<string>>)
    requires Delivered(before, a, failing, xs, mid)
    requires Delivered(mid, b, failing, ys, after)
    requires w !in b
    requires forall v :: v != w ==> (v in b && v !in failing <==> v in a && v !in failing)
    ensures |after| == |before|
    ensures forall v :: 0 <= v < |before| && v != w ==>
      after[v] == before[v] + (if v in a && v !in failing then xs + ys else [])
    ensures w < |before| ==> after[w] == before[w] + (if w in a && w !in failing then xs else [])
  {
    forall v | 0 <= v < |before| && v != w
      ensures after[v] == before[v] + (if v in a && v !in failing then xs + ys else [])
    {
      if v in a && v !in failing {
        assert after[v] == (before[v] + xs) + ys;
      } else {
        assert after[v] == before[v] + [] + [];
      }
    }
    if w < |before| {
      assert after[w] == mid[w] + [];
    }
  }

  /** The state of the broadcast loop after the first `i` writers of
      `snapshot`: the live list holds the survivors among them followed by the
      writers still to go, and each survivor among them has been sent `line`. */
  ghost predicate Broadcasting(snapshot: seq<WriterId>, i: nat, failing: set<WriterId>, line: string,
                               before: seq<seq<string>>, clients: seq<WriterId>, received: seq<seq<string>>)
  {
    i <= |snapshot| &&
    clients == Surviving(snapshot[..i], failing) + snapshot[i..] &&
    Delivered(before, snapshot[..i], failing, [line], received)
  }

  /** Handling writer `i` of the snapshot: deliver to it, or drop it from the
      live list when its write fails. */
  lemma BroadcastStep(snapshot: seq<WriterId>, i: nat, failing: set<WriterId>, line: string,
                      before: seq<seq<string>>, clients: seq<WriterId>, received: seq<seq<string>>,
                      after: seq<seq<string>>)
    requires Distinct(snapshot) && i < |snapshot| && snapshot[i] < |received|
    requires Broadcasting(snapshot, i, failing, line, before, clients, received)
    requires after == if snapshot[i] in failing then received else received[snapshot[i] := received[snapshot[i]] + [line]]
    ensures Broadcasting(snapshot, i + 1, failing, line, before,
                         if snapshot[i] in failing then RemoveFirst(clients, snapshot[i]) else clients, after)
  {
    PruneStep(snapshot, i, failing);
    FanOutStep(before, snapshot[..i], snapshot[i], failing, line, received, after);
  }

  /** Once every writer of the snapshot is handled, the live list is the
      survivors of the snapshot and each of them has been sent `line`. */
  lemma BroadcastDone(snapshot: seq<WriterId>, failing: set<WriterId>, line: string,
                      before: seq<seq<string>>, clients: seq<WriterId>, received: seq<seq<string>>)
    requires Distinct(snapshot)
    requires Broadcasting(snapshot, |snapshot|, failing, line, before, clients, received)
    ensures clients == Surviving(snapshot, failing) && Distinct(clients)
    ensures forall w :: w in clients ==> w in snapshot
    ensures Delivered(before, snapshot, failing, [line], received)
  {
    assert snapshot[..|snapshot|] == snapshot;
    assert clients == Surviving(snapshot, failing) + [];
    SurvivingDistinct(snapshot, failing);
    SurvivingMembers(snapshot, failing);
  }

  /** The frames a session's read loop broadcasts for the lines it read, in order. */
  function ChatFrames(times: seq<string>, username: string, lines: seq<string>): (r: seq<string>)
    requires |times| == |lines|
    ensures |r| == |lines|
    ensures forall i :: 0 <= i < |lines| ==> r[i] == ChatLine(times[i], username, Decrypt(lines[i])) + CRLF
  {
    if lines == [] then []
    else ChatFrames(times[..|times| - 1], username, lines[..|lines| - 1])
         + [ChatLine(times[|times| - 1], username, Decrypt(lines[|lines| - 1])) + CRLF]
  }

  /** The static state every session shares: `clients` and `activeUsers`, and,
      for each writer ever opened, the lines it has been sent. */
  class Hub {
    var clients: seq<WriterId>
    var activeUsers: seq<string>
    var received: seq<seq<string>>

    ghost predicate Valid()
      reads this
    {
      Distinct(clients) &&
      (forall w :: w in clients ==> w < |received|) &&
      (forall name :: name in activeUsers ==> IsName(name))
    }

    constructor ()
      ensures Valid()
      ensures clients == [] && activeUsers == [] && received == []
    {
      clients, activeUsers, received := [], [], [];
    }

    /** A fresh `BufferedWriter` over a new connection's output stream. */
    method OpenWriter() returns (w: WriterId)
      requires Valid()
      modifies this
      ensures Valid()
      ensures w == old(|received|) && received == old(received) + [[]]
      ensures clients == old(clients) && activeUsers == old(activeUsers)
    {
      w := |received|;
      received := received + [[]];
    }

    /** `writer.write(line); writer.flush()` outside a broadcast: the line is
        delivered unless the writer fails, and nothing else changes. */
    method Send(w: WriterId, line: string, failing: set<WriterId>)
      requires w < |received|
      modifies this`received
      ensures received == if w in failing then old(received) else old(received)[w := old(received)[w] + [line]]
    {
      if w !in failing {
        received := received[w := received[w] + [line]];
      }
    }

    /** The body of the broadcast loop for one writer `w`: `bw.write(line);
        bw.flush()` delivers the line, and a write that fails instead removes
        the first occurrence of `w` from the live list. */
    method Deliver(w: WriterId, line: string, failing: set<WriterId>)
      requires w < |received|
      modifies this`clients, this`received
      ensures clients == if w in failing then RemoveFirst(old(clients), w) else old(clients)
      ensures received == if w in failing then old(received) else old(received)[w := old(received)[w] + [line]]
    {
      if w in failing {
        clients := RemoveFirst<WriterId>(clients, w);
      } else {
        received := received[w := received[w] + [line]];
      }
    }

    /** The loop shared by `broadcastMessage` and `broadcastUser_List`: walk the
        list as it was on entry and deliver `line` to each writer in turn. */
    method WriteToAll(line: string, failing: set<WriterId>)
      requires Valid()
      modifies this`clients, this`received
      ensures Valid()
      ensures clients == Surviving(old(clients), failing)
      ensures Delivered(old(received), old(clients), failing, [line], received)
    {
      var snapshot := clients;
      assert forall w :: w in snapshot ==> w < |old(received)|;
      assert snapshot[..0] == [] && snapshot[0..] == snapshot;
      DeliveredNothing(received, [], failing);
      for i := 0 to |snapshot|
        invariant Broadcasting(snapshot, i, failing, line, old(received), clients, received)
      {
        assert snapshot[i] in snapshot;
        ghost var live, logs := clients, received;
        Deliver(snapshot[i], line, failing);
        BroadcastStep(snapshot, i, failing, line, old(received), live, logs, received);
      }
      BroadcastDone(snapshot, failing, line, old(received), clients, received);
    }

    /** `broadcastMessage(message)`. */
    method BroadcastMessage(message: string, failing: set<WriterId>)
      requires Valid()
      modifies this`clients, this`received
      ensures Valid()
      ensures clients == Surviving(old(clients), failing)
      ensures Delivered(old(received), old(clients), failing, [message + CRLF], received)
    {
      WriteToAll(message + CRLF, failing);
    }

    /** `broadcastUser_List()`: the roster line, built once from `activeUsers`. */
    method BroadcastUserList(failing: set<WriterId>)
      requires Valid()
      modifies this`clients, this`received
      ensures Valid()
      ensures clients == Surviving(old(clients), failing)
      ensures Delivered(old(received), old(clients), failing, [RosterLine(activeUsers) + CRLF], received)
    {
      WriteToAll(RosterLine(activeUsers) + CRLF, failing);
    }
  }

  /** The lists and logs across a session that joins: the roster goes to the
      list with the new writer appended, the chat frames to the list as the
      roster broadcast left it (pruned once more if anything was sent), and
      the closing roster to that list without the writer. Every writer listed
      before hears all three batches, the session's own writer the first two,
      and the live list ends as the survivors of the list before. */
  lemma {:induction false} JoinedSession(listed: seq<WriterId>, w: WriterId, failing: set<WriterId>, live: seq<WriterId>,
                                         joined: seq<string>, chat: seq<string>, left: seq<string>,
                                         r0: seq<seq<string>>, r1: seq<seq<string>>, r2: seq<seq<string>>, r3: seq<seq<string>>)
    requires Distinct(listed) && w !in listed
    requires live == Surviving(listed + [w], failing) || live == Surviving(Surviving(listed + [w], failing), failing)
    requires Delivered(r0, listed + [w], failing, joined, r1)
    requires Delivered(r1, Surviving(listed + [w], failing), failing, chat, r2)
    requires Delivered(r2, RemoveFirst(live, w), failing, left, r3)
    ensures Surviving(RemoveFirst(live, w), failing) == Surviving(listed, failing)
    ensures |r3| == |r0|
    ensures forall v :: 0 <= v < |r0| && v != w ==>
      r3[v] == r0[v] + (if v in listed && v !in failing then joined + chat + left else [])
    ensures w < |r0| ==> r3[w] == r0[w] + (if w !in failing then joined + chat else [])
  {
    var kept := Surviving(listed + [w], failing);
    SurvivingIdempotent(listed + [w], failing);
    assert live == kept;
    JoinThenLeave(listed, w, failing);
    SurvivingIdempotent(listed, failing);
    DeliveredThen(r0, listed + [w], kept, failing, joined, chat, r1, r2);
    RemoveFirstMembers(kept, w);
    DeliveredThenWithout(r0, listed + [w], RemoveFirst(kept, w), w, failing, joined + chat, left, r2, r3);
    forall v | 0 <= v < |r0| && v != w
      ensures r3[v] == r0[v] + (if v in listed && v !in failing then joined + chat + left else [])
    {
      assert v in listed + [w] <==> v in listed;
    }
  }

  /** The logs across a session that does not join: the rejection goes to
      the session's own writer alone, if to anyone, and the closing roster to
      the list as it was. */
  lemma {:induction false} RejectedSession(listed: seq<WriterId>, w: WriterId, failing: set<WriterId>, own: seq<WriterId>,
                                           rejection: seq<string>, roster: seq<string>,
                                           r0: seq<seq<string>>, r1: seq<seq<string>>, r2: seq<seq<string>>)
    requires w !in listed && (own == [] || own == [w])
    requires Delivered(r0, own, failing, rejection, r1)
    requires Delivered(r1, listed, failing, roster, r2)
    ensures |r2| == |r0|
    ensures forall v :: 0 <= v < |r0| && v != w ==>
      r2[v] == r0[v] + (if v in listed && v !in failing then roster else [])
    ensures w < |r0| ==> r2[w] == r0[w] + (if w in own && w !in failing then rejection else [])
  {
    forall v | 0 <= v < |r0| && v != w
      ensures r2[v] == r0[v] + (if v in listed && v !in failing then roster else [])
    {
      assert r1[v] == r0[v] + [];
    }
    if w < |r0| {
      assert r2[w] == r1[w] + [];
    }
  }

  /** What the first `readLine` of a session yields. */
  datatype FirstRead = Line(text: string) | EndOfStream | ReadError

  /** Whether a session whose first read gave `first` joins the chat. */
  predicate Joins(first: FirstRead) {
    first.Line? && ServerIsValidUsername(Some(first.text))
  }

  /** Everything a writer already in `clients` is sent during one session that
      starts with `activeUsers` as the roster: on a join, the roster with the
      newcomer, its chat lines and the roster after it leaves; otherwise the
      unchanged roster that `cleanup` announces. */
  function PeerTranscript(activeUsers: seq<string>, first: FirstRead, times: seq<string>, lines: seq<string>): seq<string>
    requires |times| == |lines|
  {
    if Joins(first) then
      var joined := activeUsers + [first.text];
      [RosterLine(joined) + CRLF] + ChatFrames(times, first.text, lines) + [RosterLine(RemoveFirst(joined, first.text)) + CRLF]
    else [RosterLine(activeUsers) + CRLF]
  }

  /** Everything the session's own writer is sent: on a join, the roster with
      its name and every chat line including its own; otherwise the rejection
      line, unless the first read failed. */
  function OwnTranscript(activeUsers: seq<string>, first: FirstRead, times: seq<string>, lines: seq<string>): seq<string>
    requires |times| == |lines|
  {
    if Joins(first) then [RosterLine(activeUsers + [first.text]) + CRLF] + ChatFrames(times, first.text, lines)
    else if first.ReadError? then []
    else [Rejection + CRLF]
  }

  /** The whole effect of a session that joins, from the states its three
      phases leave behind: handshake (`c1`, `a1`, `r1`), read loop (`live`,
      `r2`) and cleanup (`c3`, `a3`, `r3`). */
  lemma {:induction false} JoinedOutcome(c0: seq<WriterId>, a0: seq<string>, r0: seq<seq<string>>, w: WriterId,
                                         first: FirstRead, times: seq<string>, lines: seq<string>, failing: set<WriterId>,
                                         c1: seq<WriterId>, a1: seq<string>, r1: seq<seq<string>>,
                                         live: seq<WriterId>, r2: seq<seq<string>>,
                                         c3: seq<WriterId>, a3: seq<string>, r3: seq<seq<string>>)
    requires Distinct(c0) && w !in c0 && w < |r0| && Joins(first) && |times| == |lines|
    requires a1 == a0 + [first.text] && c1 == Surviving(c0 + [w], failing)
    requires Delivered(r0, c0 + [w], failing, [RosterLine(a1) + CRLF], r1)
    requires live == (if lines == [] then c1 else Surviving(c1, failing))
    requires Delivered(r1, c1, failing, ChatFrames(times, first.text, lines), r2)
    requires c3 == Surviving(RemoveFirst(live, w), failing) && a3 == RemoveFirst(a1, first.text)
    requires Delivered(r2, RemoveFirst(live, w), failing, [RosterLine(a3) + CRLF], r3)
    ensures c3 == Surviving(c0, failing)
    ensures a3 == RemoveFirst(a0 + [first.text], first.text)
    ensures |r3| == |r0|
    ensures forall v :: 0 <= v < |r3| && v != w ==>
      r3[v] == r0[v] + (if v in c0 && v !in failing then PeerTranscript(a0, first, times, lines) else [])
    ensures r3[w] == r0[w] + (if w !in failing then OwnTranscript(a0, first, times, lines) else [])
  {
    var joined, chat, left := [RosterLine(a1) + CRLF], ChatFrames(times, first.text, lines), [RosterLine(a3) + CRLF];
    JoinedSession(c0, w, failing, live, joined, chat, left, r0, r1, r2, r3);
    assert PeerTranscript(a0, first, times, lines) == joined + chat + left;
    assert OwnTranscript(a0, first, times, lines) == joined + chat;
  }

  /** The whole effect of a session that does not join: the handshake leaves
      the lists alone and may send the rejection (`r1`); cleanup then leaves
      `c3`, `a3` and `r3`. */
  lemma {:induction false} RejectedOutcome(c0: seq<WriterId>, a0: seq<string>, r0: seq<seq<string>>, w: WriterId,
                                           first: FirstRead, times: seq<string>, lines: seq<string>, failing: set<WriterId>,
                                           r1: seq<seq<string>>, c3: seq<WriterId>, a3: seq<string>, r3: seq<seq<string>>)
    requires w !in c0 && w < |r0| && !Joins(first) && |times| == |lines|
    requires forall name :: name in a0 ==> IsName(name)
    requires Delivered(r0, if first.ReadError? then [] else [w], failing, [Rejection + CRLF], r1)
    requires c3 == Surviving(RemoveFirst(c0, w), failing)
    requires a3 == if first.Line? then RemoveFirst(a0, first.text) else a0
    requires Delivered(r1, RemoveFirst(c0, w), failing, [RosterLine(a3) + CRLF], r3)
    ensures c3 == Surviving(c0, failing)
    ensures a3 == a0
    ensures |r3| == |r0|
    ensures forall v :: 0 <= v < |r3| && v != w ==>
      r3[v] == r0[v] + (if v in c0 && v !in failing then PeerTranscript(a0, first, times, lines) else [])
    ensures r3[w] == r0[w] + (if w !in failing then OwnTranscript(a0, first, times, lines) else [])
  {
    if first.Line? {
      assert !IsName(first.text);
      assert first.text !in a0;
    }
    RejectedSession(c0, w, failing, if first.ReadError? then [] else [w], [Rejection + CRLF],
                    [RosterLine(a0) + CRLF], r0, r1, r3);
  }

  /** One `Server` runnable: the connection's writer and username. */
  class Session {
    const hub: Hub
    var writer: Option<WriterId>
    var username: Option<string>

    constructor (hub: Hub)
      ensures this.hub == hub && writer == None && username == None
    {
      this.hub := hub;
      writer, username := None, None;
    }

    /** Lines 49-62 of `run`, after the writer is open: read the username; on
        an invalid one write the rejection line to this writer alone; on a
        valid one append the writer and the name and announce the roster.
        Returns whether the session goes on to its read loop. */
    method Handshake(first: FirstRead, failing: set<WriterId>) returns (active: bool)
      requires hub.Valid() && writer.Some? && writer.value < |hub.received|
      requires writer.value !in hub.clients && username == None
      modifies this`username, hub`clients, hub`activeUsers, hub`received
      ensures hub.Valid() && writer == old(writer)
      ensures username == if first.Line? then Some(first.text) else None
      ensures active == Joins(first)
      ensures !active ==> hub.clients == old(hub.clients) && hub.activeUsers == old(hub.activeUsers)
      ensures !active ==> Delivered(old(hub.received), if first.ReadError? then [] else [writer.value], failing,
                                    [Rejection + CRLF], hub.received)
      ensures active ==> hub.activeUsers == old(hub.activeUsers) + [first.text]
      ensures active ==> hub.clients == Surviving(old(hub.clients) + [writer.value], failing)
      ensures active ==> Delivered(old(hub.received), old(hub.clients) + [writer.value], failing,
                                   [RosterLine(hub.activeUsers) + CRLF], hub.received)
    {
      active := false;
      var w := writer.value;
      DeliveredNothing(hub.received, [], failing);
      match first {
        case ReadError =>
          DeliveredNothing(hub.received, [], failing);
        case EndOfStream =>
          ghost var before := hub.received;
          hub.Send(w, Rejection + CRLF, failing);
          FanOutStep(before, [], w, failing, Rejection + CRLF, before, hub.received);
        case Line(text) =>
          username := Some(text);
          if !ServerIsValidUsername(username) {
            ghost var before := hub.received;
            hub.Send(w, Rejection + CRLF, failing);
            FanOutStep(before, [], w, failing, Rejection + CRLF, before, hub.received);
          } else {
            assert Distinct(hub.clients + [w]);
            hub.clients := hub.clients + [w];
            hub.activeUsers := hub.activeUsers + [text];
            hub.BroadcastUserList(failing);
            active := true;
          }
      }
    }

    /** One turn of the read loop (lines 65-69): decrypt the line and broadcast
        it, stamped with the time and the sender's name. */
    method Relay(line: string, time: string, failing: set<WriterId>)
      requires hub.Valid() && username.Some?
      modifies hub`clients, hub`received
      ensures hub.Valid()
      ensures hub.clients == Surviving(old(hub.clients), failing)
      ensures Delivered(old(hub.received), old(hub.clients), failing,
                        [ChatLine(time, username.value, Decrypt(line)) + CRLF], hub.received)
    {
      hub.BroadcastMessage(ChatLine(time, username.value, Decrypt(line)), failing);
    }

    /** The read loop: one broadcast per line read, in the order read, until
        end of stream or a read error. `times[i]` is the clock reading taken
        for `lines[i]`. */
    method ReadLoop(lines: seq<string>, times: seq<string>, failing: set<WriterId>)
      requires hub.Valid() && username.Some? && |times| == |lines|
      modifies hub`clients, hub`received
      ensures hub.Valid()
      ensures hub.clients == if lines == [] then old(hub.clients) else Surviving(old(hub.clients), failing)
      ensures Delivered(old(hub.received), old(hub.clients), failing, ChatFrames(times, username.value, lines), hub.received)
    {
      DeliveredNothing(hub.received, hub.clients, failing);
      assert times[..0] == [] && lines[..0] == [];
      for i := 0 to |lines|
        invariant hub.Valid()
        invariant Relaying(old(hub.clients), failing, username.value, times, lines, i, old(hub.received), hub.clients, hub.received)
      {
        ghost var live, logs := hub.clients, hub.received;
        Relay(lines[i], times[i], failing);
        RelayStep(old(hub.clients), failing, username.value, times, lines, i, old(hub.received), live, logs, hub.received);
      }
      RelayDone(old(hub.clients), failing, username.value, times, lines, old(hub.received), hub.clients, hub.received);
    }

    /** `cleanup()`: with an open writer, remove it and the first entry equal to
        the username, then announce the roster; with none, change nothing. */
    method Cleanup(failing: set<WriterId>)
      requires hub.Valid()
      modifies hub`clients, hub`activeUsers, hub`received
      ensures hub.Valid()
      ensures writer.None? ==>
        hub.clients == old(hub.clients) && hub.activeUsers == old(hub.activeUsers) && hub.received == old(hub.received)
      ensures writer.Some? ==>
        hub.clients == Surviving(RemoveFirst(old(hub.clients), writer.value), failing)
      ensures writer.Some? ==>
        hub.activeUsers == if username.Some? then RemoveFirst(old(hub.activeUsers), username.value) else old(hub.activeUsers)
      ensures writer.Some? ==>
        Delivered(old(hub.received), RemoveFirst(old(hub.clients), writer.value), failing,
                  [RosterLine(hub.activeUsers) + CRLF], hub.received)
    {
      if writer.Some? {
        RemoveFirstMembers(hub.clients, writer.value);
        hub.clients := RemoveFirst<WriterId>(hub.clients, writer.value);
        if username.Some? {
          RemoveFirstMembers(hub.activeUsers, username.value);
          hub.activeUsers := RemoveFirst<string>(hub.activeUsers, username.value);
        }
        hub.BroadcastUserList(failing);
      }
    }

    /** Lines 49-76 of `run` once the writer is open: handshake, read loop
        while the session is active, and `cleanup` whatever happened. Every
        writer already listed hears `PeerTranscript`, the session's own writer
        `OwnTranscript`, a failing writer nothing, and at the end the lists
        hold the surviving writers and the roster without this session. */
    method Serve(first: FirstRead, lines: seq<string>, times: seq<string>, failing: set<WriterId>)
      requires hub.Valid() && writer.Some? && writer.value < |hub.received|
      requires writer.value !in hub.clients && username == None && |times| == |lines|
      modifies this`username, hub`clients, hub`activeUsers, hub`received
      ensures hub.Valid() && writer == old(writer)
      ensures hub.clients == Surviving(old(hub.clients), failing)
      ensures hub.activeUsers == if Joins(first) then RemoveFirst(old(hub.activeUsers) + [first.text], first.text)
                                 else old(hub.activeUsers)
      ensures |hub.received| == old(|hub.received|)
      ensures forall v :: 0 <= v < |hub.received| && v != writer.value ==>
        hub.received[v] == old(hub.received[v])
          + (if v in old(hub.clients) && v !in failing then PeerTranscript(old(hub.activeUsers), first, times, lines) else [])
      ensures hub.received[writer.value] == old(hub.received[writer.value])
          + (if writer.value !in failing then OwnTranscript(old(hub.activeUsers), first, times, lines) else [])
    {
      var w := writer.value;
      ghost var c0, a0, r0 := hub.clients, hub.activeUsers, hub.received;
      var active := Handshake(first, failing);
      if active {
        ServeJoined(first, lines, times, failing, c0, a0, r0);
      } else {
        ServeRejected(first, lines, times, failing, c0, a0, r0);
      }
    }

    /** The rest of a session that joined (lines 64-69 and 75): the read loop,
        then `cleanup`. `c0`, `a0` and `r0` are the lists and logs from before
        the handshake. */
    method ServeJoined(first: FirstRead, lines: seq<string>, times: seq<string>, failing: set<WriterId>,
                       ghost c0: seq<WriterId>, ghost a0: seq<string>, ghost r0: seq<seq<string>>)
      requires hub.Valid() && writer.Some? && Joins(first) && username == Some(first.text) && |times| == |lines|
      requires Distinct(c0) && writer.value !in c0 && writer.value < |r0|
      requires hub.activeUsers == a0 + [first.text] && hub.clients == Surviving(c0 + [writer.value], failing)
      requires Delivered(r0, c0 + [writer.value], failing, [RosterLine(hub.activeUsers) + CRLF], hub.received)
      modifies hub`clients, hub`activeUsers, hub`received
      ensures hub.Valid()
      ensures hub.clients == Surviving(c0, failing)
      ensures hub.activeUsers == RemoveFirst(a0 + [first.text], first.text)
      ensures |hub.received| == |r0|
      ensures forall v :: 0 <= v < |hub.received| && v != writer.value ==>
        hub.received[v] == r0[v] + (if v in c0 && v !in failing then PeerTranscript(a0, first, times, lines) else [])
      ensures hub.received[writer.value] == r0[writer.value]
          + (if writer.value !in failing then OwnTranscript(a0, first, times, lines) else [])
    {
      ghost var c1, a1, r1 := hub.clients, hub.activeUsers, hub.received;
      ReadLoop(lines, times, failing);
      ghost var r2, live := hub.received, hub.clients;
      Cleanup(failing);
      JoinedOutcome(c0, a0, r0, writer.value, first, times, lines, failing, c1, a1, r1, live, r2,
                    hub.clients, hub.activeUsers, hub.received);
    }

    /** The rest of a session that did not join (line 75): `cleanup` alone.
        `c0`, `a0` and `r0` are the lists and logs from before the handshake. */
    method ServeRejected(first: FirstRead, lines: seq<string>, times: seq<string>, failing: set<WriterId>,
                         ghost c0: seq<WriterId>, ghost a0: seq<string>, ghost r0: seq<seq<string>>)
      requires hub.Valid() && writer.Some? && !Joins(first) && |times| == |lines|
      requires username == if first.Line? then Some(first.text) else None
      requires writer.value !in c0 && writer.value < |r0|
      requires hub.clients == c0 && hub.activeUsers == a0
      requires Delivered(r0, if first.ReadError? then [] else [writer.value], failing, [Rejection + CRLF], hub.received)
      modifies hub`clients, hub`activeUsers, hub`received
      ensures hub.Valid()
      ensures hub.clients == Surviving(c0, failing)
      ensures hub.activeUsers == a0
      ensures |hub.received| == |r0|
      ensures forall v :: 0 <= v < |hub.received| && v != writer.value ==>
        hub.received[v] == r0[v] + (if v in c0 && v !in failing then PeerTranscript(a0, first, times, lines) else [])
      ensures hub.received[writer.value] == r0[writer.value]
          + (if writer.value !in failing then OwnTranscript(a0, first, times, lines) else [])
    {
      ghost var r1 := hub.received;
      Cleanup(failing);
      RejectedOutcome(c0, a0, r0, writer.value, first, times, lines, failing, r1, hub.clients, hub.activeUsers, hub.received);
    }

    /** `run()`: when the connection's streams open, open its writer and serve
        it; when they do not, `cleanup` finds no writer and changes nothing. */
    method Run(open: bool, first: FirstRead, lines: seq<string>, times: seq<string>, failing: set<WriterId>)
      requires hub.Valid() && writer == None && username == None && |times| == |lines|
      modifies this`writer, this`username, hub
      ensures hub.Valid()
      ensures !open ==>
        writer == None && hub.clients == old(hub.clients) && hub.activeUsers == old(hub.activeUsers) && hub.received == old(hub.received)
      ensures open ==> writer == Some(old(|hub.received|)) && |hub.received| == old(|hub.received|) + 1
      ensures open ==> hub.clients == Surviving(old(hub.clients), failing)
      ensures open ==> hub.activeUsers == if Joins(first) then RemoveFirst(old(hub.activeUsers) + [first.text], first.text)
                                         else old(hub.activeUsers)
      ensures open ==> forall v :: 0 <= v < old(|hub.received|) ==>
        hub.received[v] == old(hub.received[v])
          + (if v in old(hub.clients) && v !in failing then PeerTranscript(old(hub.activeUsers), first, times, lines) else [])
      ensures open ==>
        hub.received[writer.value] == if writer.value in failing then [] else OwnTranscript(old(hub.activeUsers), first, times, lines)
    {
      if !open {
        Cleanup(failing);
        return;
      }
      var w := hub.OpenWriter();
      writer := Some(w);
      Serve(first, lines, times, failing);
    }
  }
}
