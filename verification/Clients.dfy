/** The daemon's client table, daemon/x52d_client.c: who owns the descriptors over rounds of poll and
    handle. Descriptors are open from a successful accept until close. */
module Clients {
  import opened Prelude

  const MAX_CLIENTS := 63
  const MAX_CONN := MAX_CLIENTS + 1
  const INVALID_CLIENT := -1

  /** The table holds exactly the open client descriptors, each once. */
  ghost predicate Owns(table: seq<int>, open: set<int>) {
    && |table| == MAX_CLIENTS
    && (forall i :: 0 <= i < |table| ==> table[i] == INVALID_CLIENT || table[i] in open)
    && (forall i, j :: 0 <= i < j < |table| && table[i] != INVALID_CLIENT ==> table[i] != table[j])
    && (forall fd :: fd in open ==> fd >= 0 && fd in table)
  }

  function Replaced(table: seq<int>, was: int, now: int): seq<int> {
    var i := IndexOf(table, was);
    if i < |table| then table[i := now] else table
  }

  lemma OwnsAdded(table: seq<int>, open: set<int>, fd: int)
    requires Owns(table, open) && fd >= 0 && fd !in open && INVALID_CLIENT in table
    ensures Owns(Replaced(table, INVALID_CLIENT, fd), open + {fd})
  {
    var i := IndexOf(table, INVALID_CLIENT);
    var t := table[i := fd];
    assert t[i] == fd;
    forall g | g in open
      ensures g in t
    {
      var k :| 0 <= k < |table| && table[k] == g;
      assert t[k] == g;
    }
  }

  lemma OwnsRemoved(table: seq<int>, open: set<int>, fd: int)
    requires Owns(table, open) && fd >= 0
    ensures Owns(Replaced(table, fd, INVALID_CLIENT), open - {fd})
    ensures fd in table <==> fd in open
  {
    var i := IndexOf(table, fd);
    var t := Replaced(table, fd, INVALID_CLIENT);
    forall g | g in open - {fd}
      ensures g in t
    {
      var k :| 0 <= k < |table| && table[k] == g;
      assert t[k] == g;
    }
  }

  /** The table is full exactly when 63 clients are connected, and there are never more. */
  lemma FullMeansMax(table: seq<int>, open: set<int>)
    requires Owns(table, open)
    ensures |open| <= MAX_CLIENTS
    ensures INVALID_CLIENT !in table <==> |open| == MAX_CLIENTS
  {
    OpenCount(table, open, |table|);
    assert table[..|table|] == table;
    forall fd | fd in open
      ensures fd in OpenBelow(table, |table|)
    {
      var k :| 0 <= k < |table| && table[k] == fd;
    }
    assert open == OpenBelow(table, |table|);
  }

  ghost function OpenBelow(table: seq<int>, n: nat): set<int>
    requires n <= |table|
  {
    set i | 0 <= i < n && table[i] != INVALID_CLIENT :: table[i]
  }

  lemma OpenStep(table: seq<int>, open: set<int>, n: nat)
    requires Owns(table, open) && n < |table|
    ensures |OpenBelow(table, n + 1)| == |OpenBelow(table, n)| + if table[n] == INVALID_CLIENT then 0 else 1
  {
    if table[n] == INVALID_CLIENT {
      assert OpenBelow(table, n + 1) == OpenBelow(table, n);
    } else {
      assert table[n] !in OpenBelow(table, n);
      assert OpenBelow(table, n + 1) == OpenBelow(table, n) + {table[n]};
    }
  }

  lemma {:induction false} OpenCount(table: seq<int>, open: set<int>, n: nat)
    requires Owns(table, open) && n <= |table|
    ensures |OpenBelow(table, n)| <= n
    ensures |OpenBelow(table, n)| == n <==> forall k :: 0 <= k < n ==> table[k] != INVALID_CLIENT
  {
    if n == 0 {
      assert OpenBelow(table, 0) == {};
    } else {
      hide OpenBelow, Owns;
      OpenCount(table, open, n - 1);
      OpenStep(table, open, n - 1);
    }
  }

  // ----- the programs ------------------------------------------------------------------------

  method Init(clientFd: array<int>)
    requires clientFd.Length == MAX_CLIENTS
    modifies clientFd
    ensures Owns(clientFd[..], {})
  {
    for i := 0 to MAX_CLIENTS
      invariant forall k :: 0 <= k < i ==> clientFd[k] == INVALID_CLIENT
    {
      clientFd[i] := INVALID_CLIENT;
    }
  }

  /** What accept returned, and whether the new descriptor could be made nonblocking. */
  datatype Incoming = Incoming(fd: int, nonblocking: bool) {
    predicate Usable() {
      fd >= 0 && nonblocking
    }
  }

  /** Accepts one connection; without a free slot, or when the new descriptor cannot be made nonblocking, it
      is closed again. */
  method Register(clientFd: array<int>, accepted: Incoming, ghost open: set<int>)
    returns (ok: bool, ghost open': set<int>)
    requires Owns(clientFd[..], open) && accepted.fd !in open
    modifies clientFd
    ensures Owns(clientFd[..], open')
    ensures ok <==> accepted.Usable() && |open| < MAX_CLIENTS
    ensures open' == if ok then open + {accepted.fd} else open
    ensures clientFd[..] == if ok then Replaced(old(clientFd[..]), INVALID_CLIENT, accepted.fd) else old(clientFd[..])
  {
    open' := open;
    if accepted.fd < 0 {
      return false, open;
    }
    if !accepted.nonblocking {
      return false, open;
    }
    ghost var was := clientFd[..];
    FullMeansMax(was, open);
    open' := open + {accepted.fd};
    var i := 0;
    while i < MAX_CLIENTS
      invariant 0 <= i <= MAX_CLIENTS && clientFd[..] == was && INVALID_CLIENT !in was[..i]
    {
      if clientFd[i] == INVALID_CLIENT {
        clientFd[i] := accepted.fd;
        assert i == IndexOf(was, INVALID_CLIENT);
        OwnsAdded(was, open, accepted.fd);
        return true, open';
      }
      i := i + 1;
    }
    assert was[..i] == was;
    open' := open' - {accepted.fd};
    ok := false;
  }

  /** Closes a client's descriptor and frees its slot. */
  method Deregister(clientFd: array<int>, fd: int, ghost open: set<int>) returns (ok: bool, ghost open': set<int>)
    requires Owns(clientFd[..], open) && fd >= 0
    modifies clientFd
    ensures Owns(clientFd[..], open')
    ensures ok <==> fd in open
    ensures open' == open - {fd}
    ensures clientFd[..] == Replaced(old(clientFd[..]), fd, INVALID_CLIENT)
  {
    ok, open' := false, open;
    ghost var was := clientFd[..];
    OwnsRemoved(was, open, fd);
    var i := 0;
    while i < MAX_CLIENTS
      invariant 0 <= i <= MAX_CLIENTS && clientFd[..] == was && fd !in was[..i] && !ok && open' == open
    {
      if clientFd[i] == fd {
        assert i == IndexOf(was, fd);
        clientFd[i] := INVALID_CLIENT;
        ok := true;
        open' := open - {fd};
        break;
      }
      i := i + 1;
    }
    assert !ok ==> was[..i] == was;
  }

  /** struct pollfd with the events the daemon looks at. */
  datatype PollFd = PollFd(fd: int, hup: bool, err: bool, readable: bool)

  /** The connected clients in table order. */
  function Connected(table: seq<int>): seq<int> {
    if table == [] then [] else
      Connected(table[..|table| - 1]) + if table[|table| - 1] == INVALID_CLIENT then [] else [table[|table| - 1]]
  }

  lemma {:induction false} ConnectedSize(table: seq<int>, n: nat)
    requires n <= |table|
    ensures |Connected(table[..n])| <= n
    ensures forall fd :: fd in Connected(table[..n]) <==> fd in table[..n] && fd != INVALID_CLIENT
  {
    if n > 0 {
      ConnectedSize(table, n - 1);
      assert table[..n][..n - 1] == table[..n - 1];
      assert table[..n] == table[..n - 1] + [table[n - 1]];
    }
  }

  lemma {:induction false} ConnectedDistinct(table: seq<int>, open: set<int>, n: nat)
    requires Owns(table, open) && n <= |table|
    ensures forall i, j :: 0 <= i < j < |Connected(table[..n])| ==> Connected(table[..n])[i] != Connected(table[..n])[j]
  {
    if n > 0 {
      ConnectedDistinct(table, open, n - 1);
      ConnectedSize(table, n - 1);
      assert table[..n][..n - 1] == table[..n - 1];
      var before := Connected(table[..n - 1]);
      if table[n - 1] != INVALID_CLIENT {
        forall i | 0 <= i < |before|
          ensures before[i] != table[n - 1]
        {
          assert before[i] in before;
          var k :| 0 <= k < n - 1 && table[..n - 1][k] == before[i];
          assert table[k] == before[i];
        }
      }
    }
  }

  /** Fills the poll set: the listener, then the connected clients in table order, then zeros. */
  method PollSet(clientFd: array<int>, pfd: array<PollFd>, listenFd: int) returns (count: nat)
    requires clientFd.Length == MAX_CLIENTS && pfd.Length == MAX_CONN
    modifies pfd
    ensures count == 1 + |Connected(clientFd[..])| <= MAX_CONN
    ensures forall i :: 0 <= i < count ==>
              pfd[i] == PollFd(([listenFd] + Connected(clientFd[..]))[i], false, false, false)
    ensures forall i :: count <= i < MAX_CONN ==> pfd[i] == PollFd(0, false, false, false)
  {
    for i := 0 to MAX_CONN
      invariant forall k :: 0 <= k < i ==> pfd[k] == PollFd(0, false, false, false)
    {
      pfd[i] := PollFd(0, false, false, false);
    }
    ghost var table := clientFd[..];
    count := 1;
    pfd[0] := PollFd(listenFd, false, false, false);
    for i := 0 to MAX_CLIENTS
      invariant count == 1 + |Connected(table[..i])| <= 1 + i
      invariant forall k :: 0 <= k < count ==>
                  pfd[k] == PollFd(([listenFd] + Connected(table[..i]))[k], false, false, false)
      invariant forall k :: count <= k < MAX_CONN ==> pfd[k] == PollFd(0, false, false, false)
    {
      assert table[..i + 1][..i] == table[..i];
      if clientFd[i] != INVALID_CLIENT {
        pfd[count] := PollFd(clientFd[i], false, false, false);
        count := count + 1;
      }
    }
    assert table[..MAX_CLIENTS] == table;
  }

  // ----- one round of events -----------------------------------------------------------------

  /** The table, the open clients, and the clients passed to the handler so far. */
  datatype Round = Round(table: seq<int>, open: set<int>, handled: seq<int>)

  /** What one poll entry causes. */
  ghost function Event(r: Round, p: PollFd, listenFd: int, accepted: Incoming): Round {
    if p.hup || p.err then r.(table := Replaced(r.table, p.fd, INVALID_CLIENT), open := r.open - {p.fd})
    else if !p.readable then r
    else if p.fd == listenFd then
      if accepted.Usable() && |r.open| < MAX_CLIENTS
      then r.(table := Replaced(r.table, INVALID_CLIENT, accepted.fd), open := r.open + {accepted.fd}) else r
    else r.(handled := r.handled + [p.fd])
  }

  ghost function Events(r: Round, pfd: seq<PollFd>, listenFd: int, accepted: Incoming): Round {
    if pfd == [] then r else
      Event(Events(r, pfd[..|pfd| - 1], listenFd, accepted), pfd[|pfd| - 1], listenFd, accepted)
  }

  /** What poll may report: the poll set of the table, with any events on its entries, and none after them. */
  ghost predicate Polled(table: seq<int>, pfd: seq<PollFd>, listenFd: int)
    requires |pfd| == MAX_CONN
  {
    var fds := [listenFd] + Connected(table);
    && |fds| <= |pfd|
    && (forall i :: 0 <= i < |fds| ==> pfd[i].fd == fds[i])
    && (forall i :: |fds| <= i < |pfd| ==> pfd[i] == PollFd(0, false, false, false))
  }

  /** accept yields a descriptor that is not open, or fails. */
  ghost predicate Fresh(accepted: Incoming, listenFd: int, open: set<int>) {
    listenFd >= 0 && listenFd !in open && accepted.fd !in open && accepted.fd != listenFd
  }

  predicate Closes(p: PollFd) {
    p.hup || p.err
  }

  predicate Serves(p: PollFd) {
    p.readable && !p.hup && !p.err
  }

  /** The clients open after accepting, if the listener was ready. */
  ghost function Admitted(open: set<int>, p: PollFd, accepted: Incoming): set<int> {
    if Serves(p) && accepted.Usable() && |open| < MAX_CLIENTS then open + {accepted.fd} else open
  }

  ghost function ClosedIn(pfd: seq<PollFd>, n: nat): set<int>
    requires n <= |pfd|
  {
    set i | 1 <= i < n && Closes(pfd[i]) :: pfd[i].fd
  }

  function ServedIn(pfd: seq<PollFd>, n: nat): seq<int>
    requires n <= |pfd|
  {
    if n <= 1 then [] else ServedIn(pfd, n - 1) + if Serves(pfd[n - 1]) then [pfd[n - 1].fd] else []
  }

  lemma PolledClient(table: seq<int>, open: set<int>, pfd: seq<PollFd>, listenFd: int, i: nat)
    requires |pfd| == MAX_CONN && Owns(table, open) && Polled(table, pfd, listenFd) && 1 <= i < MAX_CONN
    requires pfd[i] != PollFd(0, false, false, false) || i <= |Connected(table)|
    ensures pfd[i].fd in open
    ensures forall j :: 1 <= j < i ==> pfd[j].fd != pfd[i].fd
  {
    assert table[..|table|] == table;
    ConnectedSize(table, |table|);
    ConnectedDistinct(table, open, |table|);
    var c := Connected(table);
    assert pfd[i].fd == ([listenFd] + c)[i] == c[i - 1];
    assert c[i - 1] in c;
    var k :| 0 <= k < |table| && table[k] == c[i - 1];
    forall j | 1 <= j < i
      ensures pfd[j].fd != pfd[i].fd
    {
      assert pfd[j].fd == ([listenFd] + c)[j] == c[j - 1];
    }
  }

  lemma NotInTable(table: seq<int>, open: set<int>, fd: int)
    requires Owns(table, open) && fd >= 0 && fd !in open
    ensures Replaced(table, fd, INVALID_CLIENT) == table
  {
  }

  lemma FirstEvent(table: seq<int>, open: set<int>, p: PollFd, listenFd: int, accepted: Incoming)
    requires Owns(table, open) && Fresh(accepted, listenFd, open) && p.fd == listenFd
    ensures var r := Event(Round(table, open, []), p, listenFd, accepted);
            Owns(r.table, r.open) && r.open == Admitted(open, p, accepted) && r.handled == []
  {
    hide Owns, Replaced;
    NotInTable(table, open, listenFd);
    OwnsRemoved(table, open, listenFd);
    assert open - {listenFd} == open;
    FullMeansMax(table, open);
    if Serves(p) && accepted.Usable() && |open| < MAX_CLIENTS {
      OwnsAdded(table, open, accepted.fd);
    }
  }

  lemma LaterEvent(r: Round, p: PollFd, listenFd: int, accepted: Incoming)
    requires Owns(r.table, r.open) && p.fd >= 0 && (p.readable ==> p.fd != listenFd)
    ensures var q := Event(r, p, listenFd, accepted);
            && Owns(q.table, q.open)
            && q.open == (if Closes(p) then r.open - {p.fd} else r.open)
            && q.handled == r.handled + if Serves(p) then [p.fd] else []
  {
    if Closes(p) {
      OwnsRemoved(r.table, r.open, p.fd);
    }
  }

  /** The effect of the first n entries of a round. */
  lemma {:induction false} EventsEffect(table: seq<int>, open: set<int>, pfd: seq<PollFd>, listenFd: int,
                                        accepted: Incoming, n: nat)
    requires |pfd| == MAX_CONN && Owns(table, open) && Polled(table, pfd, listenFd) && Fresh(accepted, listenFd, open)
    requires 1 <= n <= MAX_CONN
    ensures var r := Events(Round(table, open, []), pfd[..n], listenFd, accepted);
            && Owns(r.table, r.open)
            && r.open == Admitted(open, pfd[0], accepted) - ClosedIn(pfd, n)
            && r.handled == ServedIn(pfd, n)
  {
    hide Owns, Event, Connected, Polled, Fresh, Admitted, Closes, Serves;
    var start := Round(table, open, []);
    assert pfd[..n][..n - 1] == pfd[..n - 1];
    var p := pfd[n - 1];
    EntryFacts(table, open, pfd, listenFd, accepted, n - 1);
    if n == 1 {
      assert Events(start, pfd[..0], listenFd, accepted) == start;
      assert ClosedIn(pfd, 1) == {};
      FirstEvent(table, open, p, listenFd, accepted);
    } else {
      EventsEffect(table, open, pfd, listenFd, accepted, n - 1);
      LaterEvent(Events(start, pfd[..n - 1], listenFd, accepted), p, listenFd, accepted);
      assert ClosedIn(pfd, n) == ClosedIn(pfd, n - 1) + if Closes(p) then {p.fd} else {};
    }
  }

  /** A round keeps ownership, closes exactly the clients that hung up or failed, admits at most the one
      new client, and serves exactly the readable others. */
  lemma RoundEffect(table: seq<int>, open: set<int>, pfd: seq<PollFd>, listenFd: int, accepted: Incoming)
    requires |pfd| == MAX_CONN && Owns(table, open) && Polled(table, pfd, listenFd) && Fresh(accepted, listenFd, open)
    ensures var r := Events(Round(table, open, []), pfd, listenFd, accepted);
            && Owns(r.table, r.open)
            && r.open == Admitted(open, pfd[0], accepted) - ClosedIn(pfd, MAX_CONN)
            && r.handled == ServedIn(pfd, MAX_CONN)
            && |r.open| <= MAX_CLIENTS
  {
    assert pfd[..MAX_CONN] == pfd;
    EventsEffect(table, open, pfd, listenFd, accepted, MAX_CONN);
    var r := Events(Round(table, open, []), pfd, listenFd, accepted);
    FullMeansMax(r.table, r.open);
  }

  lemma {:induction false} ServedMembers(pfd: seq<PollFd>, n: nat, fd: int)
    requires n <= |pfd|
    ensures fd in ServedIn(pfd, n) <==> exists i :: 1 <= i < n && Serves(pfd[i]) && pfd[i].fd == fd
  {
    if n > 1 {
      ServedMembers(pfd, n - 1, fd);
    }
  }

  lemma OneEntryEach(table: seq<int>, open: set<int>, pfd: seq<PollFd>, listenFd: int, i: nat, j: nat)
    requires |pfd| == MAX_CONN && Owns(table, open) && Polled(table, pfd, listenFd)
    requires 1 <= i < MAX_CONN && 1 <= j < MAX_CONN && Serves(pfd[i]) && Closes(pfd[j])
    ensures pfd[i].fd != pfd[j].fd
  {
    hide Owns, Polled, Connected;
    PolledClient(table, open, pfd, listenFd, i);
    PolledClient(table, open, pfd, listenFd, j);
  }

  /** No client is served in the round that closes it, and only open clients are served. */
  lemma ServedStaysOpen(table: seq<int>, open: set<int>, pfd: seq<PollFd>, listenFd: int, accepted: Incoming, fd: int)
    requires |pfd| == MAX_CONN && Owns(table, open) && Polled(table, pfd, listenFd) && Fresh(accepted, listenFd, open)
    requires fd in Events(Round(table, open, []), pfd, listenFd, accepted).handled
    ensures fd in open && fd in Events(Round(table, open, []), pfd, listenFd, accepted).open
  {
    hide Owns, Polled, Connected, Events, Fresh;
    RoundEffect(table, open, pfd, listenFd, accepted);
    ServedMembers(pfd, MAX_CONN, fd);
    var i :| 1 <= i < MAX_CONN && Serves(pfd[i]) && pfd[i].fd == fd;
    PolledClient(table, open, pfd, listenFd, i);
    forall j | 1 <= j < MAX_CONN && Closes(pfd[j])
      ensures pfd[j].fd != fd
    {
      OneEntryEach(table, open, pfd, listenFd, i, j);
    }
  }

  /** The event dispatch over all 64 entries. */
  method Handle(clientFd: array<int>, pfd: array<PollFd>, listenFd: int, accepted: Incoming, ghost open: set<int>)
    returns (handled: seq<int>, ghost open': set<int>)
    requires clientFd.Length == MAX_CLIENTS && pfd.Length == MAX_CONN
    requires Owns(clientFd[..], open) && Polled(clientFd[..], pfd[..], listenFd) && Fresh(accepted, listenFd, open)
    modifies clientFd
    ensures Round(clientFd[..], open', handled)
         == Events(Round(old(clientFd[..]), open, []), pfd[..], listenFd, accepted)
    ensures Owns(clientFd[..], open') && |open'| <= MAX_CLIENTS
  {
    ghost var table, polled := clientFd[..], pfd[..];
    handled, open' := [], open;
    hide Polled, Connected, Admitted, ClosedIn, ServedIn;
    for i := 0 to MAX_CONN
      invariant pfd[..] == polled && Owns(clientFd[..], open')
      invariant Round(clientFd[..], open', handled) == Events(Round(table, open, []), polled[..i], listenFd, accepted)
    {
      ghost var r := Round(clientFd[..], open', handled);
      assert polled[..i + 1][..i] == polled[..i];
      EventsEffect(table, open, polled, listenFd, accepted, i + 1);
      EntryFacts(table, open, polled, listenFd, accepted, i);
      if pfd[i].hup {
        var _, o := Deregister(clientFd, pfd[i].fd, open');
        open' := o;
      } else if pfd[i].err {
        var _, o := Deregister(clientFd, pfd[i].fd, open');
        open' := o;
      } else if pfd[i].readable {
        if pfd[i].fd == listenFd {
          var _, o := Register(clientFd, accepted, open');
          open' := o;
        } else {
          handled := handled + [pfd[i].fd];
        }
      }
      assert Round(clientFd[..], open', handled) == Event(r, polled[i], listenFd, accepted);
    }
    assert polled[..MAX_CONN] == polled;
    FullMeansMax(clientFd[..], open');
  }

  lemma EntryFacts(table: seq<int>, open: set<int>, pfd: seq<PollFd>, listenFd: int, accepted: Incoming, i: nat)
    requires |pfd| == MAX_CONN && Owns(table, open) && Polled(table, pfd, listenFd) && Fresh(accepted, listenFd, open)
    requires i < MAX_CONN
    ensures pfd[i].fd >= 0 && (pfd[i].fd == listenFd && pfd[i].readable ==> i == 0)
    ensures i == 0 ==> pfd[i].fd == listenFd
  {
    if i == 0 {
      assert pfd[0].fd == ([listenFd] + Connected(table))[0];
    } else if pfd[i] != PollFd(0, false, false, false) {
      PolledClient(table, open, pfd, listenFd, i);
    }
  }

  // ----- runs --------------------------------------------------------------------------------

  /** A round's input: what poll reported and what accept returned. */
  datatype Input = Input(pfd: seq<PollFd>, accepted: Incoming)

  /** Every round polls the table as it then is, and accept is fresh. */
  ghost predicate Plays(table: seq<int>, open: set<int>, listenFd: int, inputs: seq<Input>)
    decreases |inputs|
  {
    inputs != [] ==>
      && |inputs[0].pfd| == MAX_CONN && Polled(table, inputs[0].pfd, listenFd)
      && Fresh(inputs[0].accepted, listenFd, open)
      && var r := Events(Round(table, open, []), inputs[0].pfd, listenFd, inputs[0].accepted);
         Plays(r.table, r.open, listenFd, inputs[1..])
  }

  ghost function Play(table: seq<int>, open: set<int>, listenFd: int, inputs: seq<Input>): Round
    decreases |inputs|
  {
    if inputs == [] then Round(table, open, []) else
      var r := Events(Round(table, open, []), inputs[0].pfd, listenFd, inputs[0].accepted);
      Play(r.table, r.open, listenFd, inputs[1..])
  }

  /** Over every run of rounds the table owns exactly the open clients, at most 63 of them. */
  lemma {:induction false} OwnershipOverRuns(table: seq<int>, open: set<int>, listenFd: int, inputs: seq<Input>)
    requires Owns(table, open) && Plays(table, open, listenFd, inputs)
    ensures var r := Play(table, open, listenFd, inputs); Owns(r.table, r.open) && |r.open| <= MAX_CLIENTS
    decreases |inputs|
  {
    if inputs == [] {
      FullMeansMax(table, open);
    } else {
      RoundEffect(table, open, inputs[0].pfd, listenFd, inputs[0].accepted);
      var r := Events(Round(table, open, []), inputs[0].pfd, listenFd, inputs[0].accepted);
      OwnershipOverRuns(r.table, r.open, listenFd, inputs[1..]);
    }
  }
}
