/** Packets over websockets: the registry of connections, one reader loop for each, and the hand-over
    to whoever calls ReadFrom, in every interleaving. */
module WebSocket {
  import opened Bytes
  import opened Io

  type Addr = nat
  type Conn = nat

  // ---------------------------------------------------------------- threads

  /** Where a connection's reader loop is. */
  datatype Loop =
    | Reading
    | Offering(message: bytes)  // in the select: hand over, or see the context cancelled
    | Leaving                   // reading failed, before the entry is deleted
    | Closing                   // before the connection is closed
    | Done

  datatype Read = Binary(message: bytes) | NotBinary | Failed

  /** What became of a binary message. */
  datatype Fate = Returned | TooLong | Dropped

  datatype Event = Event(conn: Conn, message: bytes, fate: Fate)

  /** `addr` tells for which address each connection came; `read` holds the binary messages read on it;
      `log` records what became of them, in order. */
  datatype State = State(registry: map<Addr, Conn>, addr: map<Conn, Addr>, loops: map<Conn, Loop>,
                         cancelled: bool, read: map<Conn, seq<bytes>>, log: seq<Event>)

  const START := State(map[], map[], map[], false, map[], [])

  datatype Act =
    | Handle(conn: Conn, remote: Addr)
    | ReadMessage(conn: Conn, outcome: Read)
    | HandOver(conn: Conn, room: nat)
    | GiveUp(conn: Conn)
    | Delete(conn: Conn)
    | Close(conn: Conn)
    | Cancel

  predicate At(s: State, conn: Conn, loop: Loop) {
    conn in s.loops && s.loops[conn] == loop && conn in s.addr && conn in s.read
  }

  predicate Offers(s: State, conn: Conn) {
    conn in s.loops && s.loops[conn].Offering? && At(s, conn, s.loops[conn])
  }

  predicate Enabled(s: State, a: Act) {
    match a
    case Handle(conn, _) => conn !in s.addr
    case ReadMessage(conn, _) => At(s, conn, Reading)
    case HandOver(conn, _) => Offers(s, conn)
    case GiveUp(conn) => Offers(s, conn) && s.cancelled
    case Delete(conn) => At(s, conn, Leaving)
    case Close(conn) => At(s, conn, Closing)
    case Cancel => true
  }

  /** A ReadFrom into a buffer of `room` bytes returns the message, or an error and not the message. */
  function FateOf(room: nat, message: bytes): Fate {
    if room < |message| then TooLong else Returned
  }

  /** Leaving the select with `break` leaves only the select, so the loop reads on. */
  function Settle(s: State, conn: Conn, fate: Fate): State
    requires Offers(s, conn)
  {
    s.(loops := s.loops[conn := Reading], log := s.log + [Event(conn, s.loops[conn].message, fate)])
  }

  function Next(s: State, a: Act): State
    requires Enabled(s, a)
  {
    match a
    case Handle(conn, remote) =>
      var known := s.(addr := s.addr[conn := remote], read := s.read[conn := []]);
      if remote in s.registry then known.(loops := s.loops[conn := Done])
      else known.(registry := s.registry[remote := conn], loops := s.loops[conn := Reading])
    case ReadMessage(conn, Binary(message)) =>
      s.(loops := s.loops[conn := Offering(message)], read := s.read[conn := s.read[conn] + [message]])
    case ReadMessage(conn, NotBinary) => s
    case ReadMessage(conn, Failed) => s.(loops := s.loops[conn := Leaving])
    case HandOver(conn, room) =>
      Settle(s, conn, FateOf(room, s.loops[conn].message))
    case GiveUp(conn) => Settle(s, conn, Dropped)
    case Delete(conn) => s.(loops := s.loops[conn := Closing], registry := s.registry - {s.addr[conn]})
    case Close(conn) => s.(loops := s.loops[conn := Done])
    case Cancel => s.(cancelled := true)
  }

  /** Which branch of its select ReadFrom takes: its context is done, or it is handed a packet. */
  datatype Received = Expired | Packet(remote: Addr, message: bytes)

  method ReadFrom(p: array<byte>, got: Received) returns (n: nat, remote: Option<Addr>, err: Option<IOErr>)
    modifies p
    ensures match got
            case Expired => n == 0 && remote == None && err == Some(EOF) && p[..] == old(p[..])
            case Packet(from, message) =>
              && remote == Some(from)
              && match FateOf(p.Length, message)
                 case Returned => err == None && n == |message| && p[..] == message + old(p[|message|..])
                 case _ => err == Some(ShortBuffer) && n == 0 && p[..] == old(p[..])
  {
    if got.Expired? {
      return 0, None, Some(EOF);
    }
    var message := got.message;
    if p.Length < |message| {
      return 0, Some(got.remote), Some(ShortBuffer);
    }
    ghost var tail := p[|message|..];
    forall i | 0 <= i < |message| { p[i] := message[i]; }
    assert p[|message|..] == tail && p[..|message|] == message;
    return |message|, Some(got.remote), None;
  }

  // ---------------------------------------------------------------- what comes out

  /** What ReadFrom returned for a connection. */
  function ReturnedFor(log: seq<Event>, conn: Conn): seq<bytes> {
    if log == [] then []
    else
      var e := log[|log| - 1];
      ReturnedFor(log[..|log| - 1], conn) + if e.conn == conn && e.fate == Returned then [e.message] else []
  }

  /** All messages of a connection that left its loop, whatever became of them. */
  function SettledFor(log: seq<Event>, conn: Conn): seq<bytes> {
    if log == [] then []
    else
      var e := log[|log| - 1];
      SettledFor(log[..|log| - 1], conn) + if e.conn == conn then [e.message] else []
  }

  function Pending(s: State, conn: Conn): seq<bytes> {
    if Offers(s, conn) then [s.loops[conn].message] else []
  }

  /** a is b with some of its elements left out. */
  predicate Subsequence(a: seq<bytes>, b: seq<bytes>) {
    a == [] || (b != [] && (Subsequence(a, b[..|b| - 1])
                            || (a[|a| - 1] == b[|b| - 1] && Subsequence(a[..|a| - 1], b[..|b| - 1]))))
  }

  lemma SubsequenceOfNothing()
    ensures Subsequence([], [])
  {
  }

  lemma SubsequenceGrows(a: seq<bytes>, b: seq<bytes>, m: bytes)
    requires Subsequence(a, b)
    ensures Subsequence(a, b + [m]) && Subsequence(a + [m], b + [m])
  {
    assert (b + [m])[..|b + [m]| - 1] == b && (a + [m])[..|a + [m]| - 1] == a;
  }

  lemma {:induction false} ReturnedIsSubsequence(log: seq<Event>, conn: Conn)
    ensures Subsequence(ReturnedFor(log, conn), SettledFor(log, conn))
    ensures |ReturnedFor(log, conn)| == |SettledFor(log, conn)|
            <==> forall i | 0 <= i < |log| && log[i].conn == conn :: log[i].fate == Returned
    ensures |ReturnedFor(log, conn)| == |SettledFor(log, conn)| ==> ReturnedFor(log, conn) == SettledFor(log, conn)
    ensures |ReturnedFor(log, conn)| <= |SettledFor(log, conn)|
  {
    hide Subsequence;
    if log == [] {
      SubsequenceOfNothing();
    } else {
      var e, before := log[|log| - 1], log[..|log| - 1];
      ReturnedIsSubsequence(before, conn);
      assert log == before + [e];
      var a, b := ReturnedFor(before, conn), SettledFor(before, conn);
      SubsequenceGrows(a, b, e.message);
      assert a + [] == a && b + [] == b;
    }
  }

  // ---------------------------------------------------------------- invariant

  predicate Active(s: State, conn: Conn) {
    conn in s.loops && !s.loops[conn].Closing? && !s.loops[conn].Done?
  }

  predicate Registered(s: State, conn: Conn) {
    conn in s.addr && s.addr[conn] in s.registry && s.registry[s.addr[conn]] == conn
  }

  /** The entry of an address is that of the one connection for it whose loop has not deleted it. */
  ghost predicate RegistryOk(s: State) {
    && (forall conn :: Active(s, conn) <==> Registered(s, conn))
    && (forall remote :: remote in s.registry ==>
          s.registry[remote] in s.addr && s.addr[s.registry[remote]] == remote)
  }

  ghost predicate KnownOk(s: State) {
    && (forall conn :: (conn in s.addr <==> conn in s.loops) && (conn in s.addr <==> conn in s.read))
    && (forall i | 0 <= i < |s.log| :: s.log[i].conn in s.addr)
  }

  predicate ConnOk(s: State, conn: Conn) {
    conn in s.read ==> s.read[conn] == SettledFor(s.log, conn) + Pending(s, conn)
  }

  /** Messages are dropped only after Close. */
  predicate DropsOk(s: State) {
    forall i | 0 <= i < |s.log| :: s.log[i].fate == Dropped ==> s.cancelled
  }

  ghost predicate Inv(s: State) {
    RegistryOk(s) && KnownOk(s) && DropsOk(s) && forall conn :: ConnOk(s, conn)
  }

  /** Only Handle and Delete touch the registry, and only they make a loop active or end it. */
  lemma OthersKeepActive(s: State, a: Act, conn: Conn)
    requires Enabled(s, a) && !a.Handle? && !a.Delete?
    ensures Next(s, a).registry == s.registry && Next(s, a).addr == s.addr
    ensures Active(Next(s, a), conn) <==> Active(s, conn)
  {
  }

  lemma RegistryKept(s: State, a: Act)
    requires RegistryOk(s) && KnownOk(s) && Enabled(s, a)
    ensures RegistryOk(Next(s, a))
  {
    if a.Handle? {
      HandleKeepsRegistry(s, a.conn, a.remote);
    } else if a.Delete? {
      DeleteKeepsRegistry(s, a.conn);
    } else {
      hide Next, Enabled, Active;
      forall conn
        ensures Active(Next(s, a), conn) <==> Registered(Next(s, a), conn)
      {
        OthersKeepActive(s, a, conn);
      }
      OthersKeepActive(s, a, 0);
    }
  }

  lemma HandleKeepsRegistry(s: State, arriving: Conn, remote: Addr)
    requires RegistryOk(s) && KnownOk(s) && Enabled(s, Handle(arriving, remote))
    ensures RegistryOk(Next(s, Handle(arriving, remote)))
  {
    var s' := Next(s, Handle(arriving, remote));
    forall conn
      ensures Active(s', conn) <==> Registered(s', conn)
    {
      assert Active(s, conn) <==> Registered(s, conn);
    }
  }

  lemma DeleteKeepsRegistry(s: State, gone: Conn)
    requires RegistryOk(s) && KnownOk(s) && Enabled(s, Delete(gone))
    ensures RegistryOk(Next(s, Delete(gone)))
  {
    var s' := Next(s, Delete(gone));
    assert Active(s, gone) && Registered(s, gone);
    forall conn
      ensures Active(s', conn) <==> Registered(s', conn)
    {
      assert Active(s, conn) <==> Registered(s, conn);
    }
  }

  lemma KnownKept(s: State, a: Act)
    requires KnownOk(s) && Enabled(s, a)
    ensures KnownOk(Next(s, a))
  {
  }

  lemma DropsKept(s: State, a: Act)
    requires DropsOk(s) && Enabled(s, a)
    ensures DropsOk(Next(s, a))
  {
  }

  lemma SettledUnknown(log: seq<Event>, conn: Conn)
    requires forall i | 0 <= i < |log| :: log[i].conn != conn
    ensures SettledFor(log, conn) == []
  {
  }

  lemma SettledOneMore(log: seq<Event>, e: Event, conn: Conn)
    ensures SettledFor(log + [e], conn) == SettledFor(log, conn) + if e.conn == conn then [e.message] else []
  {
    assert (log + [e])[..|log|] == log;
  }

  /** A step that is not of this connection changes nothing of it. */
  lemma OtherConnKept(s: State, a: Act, conn: Conn)
    requires Enabled(s, a) && ConnOk(s, conn) && !a.Cancel? && a.conn != conn
    ensures ConnOk(Next(s, a), conn)
  {
    hide SettledFor;
    if a.HandOver? || a.GiveUp? {
      SettledOneMore(s.log, Next(s, a).log[|s.log|], conn);
    }
  }

  lemma HandledConnKept(s: State, conn: Conn, remote: Addr)
    requires KnownOk(s) && Enabled(s, Handle(conn, remote))
    ensures ConnOk(Next(s, Handle(conn, remote)), conn)
  {
    hide SettledFor;
    SettledUnknown(s.log, conn);
  }

  lemma SettledConnKept(s: State, conn: Conn, fate: Fate)
    requires Offers(s, conn) && ConnOk(s, conn)
    ensures ConnOk(Settle(s, conn, fate), conn)
  {
    hide SettledFor;
    SettledOneMore(s.log, Event(conn, s.loops[conn].message, fate), conn);
    assert s.read[conn] == SettledFor(Settle(s, conn, fate).log, conn) + [];
  }

  lemma ReadConnKept(s: State, conn: Conn, outcome: Read)
    requires Enabled(s, ReadMessage(conn, outcome)) && ConnOk(s, conn)
    ensures ConnOk(Next(s, ReadMessage(conn, outcome)), conn)
  {
    hide SettledFor;
  }

  lemma ConnKept(s: State, a: Act, conn: Conn)
    requires KnownOk(s) && Enabled(s, a) && ConnOk(s, conn)
    ensures ConnOk(Next(s, a), conn)
  {
    hide SettledFor, KnownOk, ConnOk, Settle;
    if a.Cancel? {
      CancelConnKept(s, conn);
    } else if a.conn != conn {
      OtherConnKept(s, a, conn);
    } else if a.Handle? {
      HandledConnKept(s, conn, a.remote);
    } else if a.ReadMessage? {
      ReadConnKept(s, conn, a.outcome);
    } else if a.HandOver? {
      SettledConnKept(s, conn, FateOf(a.room, s.loops[conn].message));
    } else if a.GiveUp? {
      SettledConnKept(s, conn, Dropped);
    } else {
      LeftConnKept(s, a);
    }
  }

  lemma CancelConnKept(s: State, conn: Conn)
    requires ConnOk(s, conn)
    ensures ConnOk(Next(s, Cancel), conn)
  {
    hide SettledFor;
  }

  lemma LeftConnKept(s: State, a: Act)
    requires (a.Delete? || a.Close?) && Enabled(s, a) && ConnOk(s, a.conn)
    ensures ConnOk(Next(s, a), a.conn)
  {
    hide SettledFor;
  }

  lemma NextKeeps(s: State, a: Act)
    requires Inv(s) && Enabled(s, a)
    ensures Inv(Next(s, a))
  {
    hide RegistryOk, KnownOk, DropsOk, ConnOk, Next, Enabled;
    RegistryKept(s, a);
    KnownKept(s, a);
    DropsKept(s, a);
    forall conn
      ensures ConnOk(Next(s, a), conn)
    {
      ConnKept(s, a, conn);
    }
  }

  // ---------------------------------------------------------------- every run

  /** The acts are possible one after the other, from the start. */
  predicate Possible(acts: seq<Act>)
    decreases |acts|, 0
  {
    acts == [] || (Possible(acts[..|acts| - 1]) && Enabled(After(acts[..|acts| - 1]), acts[|acts| - 1]))
  }

  function After(acts: seq<Act>): State
    requires Possible(acts)
    decreases |acts|, 1
  {
    if acts == [] then START else Next(After(acts[..|acts| - 1]), acts[|acts| - 1])
  }

  lemma {:induction false} Reached(acts: seq<Act>)
    requires Possible(acts)
    ensures Inv(After(acts))
  {
    hide Inv, Next, Enabled;
    if acts == [] {
      StartInv();
    } else {
      Reached(acts[..|acts| - 1]);
      NextKeeps(After(acts[..|acts| - 1]), acts[|acts| - 1]);
    }
  }

  lemma StartInv()
    ensures Inv(START)
  {
  }

  lemma NoActs()
    ensures Possible([]) && After([]) == START
  {
  }

  /** One more act after a run that led to s. */
  lemma Extend(acts: seq<Act>, s: State, a: Act) returns (acts': seq<Act>, s': State)
    requires Possible(acts) && After(acts) == s && Enabled(s, a)
    ensures acts' == acts + [a] && s' == Next(s, a) && Possible(acts') && After(acts') == s'
  {
    hide Next, Enabled;
    acts', s' := acts + [a], Next(s, a);
    assert acts'[..|acts'| - 1] == acts;
  }

  /** In every reachable state an address has at most one loop that can still read, and its entry is
      that loop's connection; an entry lasts until that loop deletes it, and no other step takes one away. */
  lemma OneLoopPerAddress(acts: seq<Act>, a: Act)
    requires Possible(acts) && Enabled(After(acts), a)
    ensures var s := After(acts);
            var s' := Next(s, a);
            && (forall c, d | Active(s, c) && Active(s, d) && c in s.addr && d in s.addr && s.addr[c] == s.addr[d] ::
                  c == d)
            && (forall remote | remote in s.registry
                                && (remote !in s'.registry || s'.registry[remote] != s.registry[remote]) ::
                  a == Delete(s.registry[remote]))
  {
    hide After, Possible, KnownOk, ConnOk;
    Reached(acts);
    var s := After(acts);
    forall c, d | Active(s, c) && Active(s, d) && c in s.addr && d in s.addr && s.addr[c] == s.addr[d]
      ensures c == d
    {
      assert Registered(s, c) && Registered(s, d);
    }
    if a.Delete? {
      assert Active(s, a.conn);
      assert Registered(s, a.conn);
    }
  }

  /** What ReadFrom returned for a connection is its binary messages in order, each at most once; one is
      missing only if it is on offer, was too long for the buffer, or was on offer after Close. */
  lemma ReturnedInOrder(acts: seq<Act>, conn: Conn)
    requires Possible(acts) && conn in After(acts).read
    ensures var s := After(acts);
            && Subsequence(ReturnedFor(s.log, conn), s.read[conn])
            && ((forall i | 0 <= i < |s.log| && s.log[i].conn == conn :: s.log[i].fate == Returned)
                <==> ReturnedFor(s.log, conn) + Pending(s, conn) == s.read[conn])
  {
    hide After, Possible, RegistryOk, KnownOk, SettledFor, ReturnedFor, Pending, Subsequence;
    Reached(acts);
    var s := After(acts);
    assert ConnOk(s, conn);
    ReturnedIsSubsequence(s.log, conn);
    SubsequenceOfLonger(ReturnedFor(s.log, conn), SettledFor(s.log, conn), Pending(s, conn));
  }

  lemma {:induction false} SubsequenceOfLonger(a: seq<bytes>, b: seq<bytes>, more: seq<bytes>)
    requires Subsequence(a, b)
    ensures Subsequence(a, b + more)
    decreases |more|
  {
    if more == [] {
      assert b + more == b;
    } else {
      SubsequenceOfLonger(a, b, more[..|more| - 1]);
      assert (b + more)[..|b + more| - 1] == b + more[..|more| - 1];
    }
  }

  // ---------------------------------------------------------------- what every step does

  /** A connection is registered, and its loop starts, exactly if its address has no entry. */
  lemma HandleRegisters(acts: seq<Act>, conn: Conn, remote: Addr)
    requires Possible(acts) && conn !in After(acts).addr
    ensures var s := After(acts);
            var s' := Next(s, Handle(conn, remote));
            && Enabled(s, Handle(conn, remote))
            && (remote !in s.registry <==> Registered(s', conn))
            && (remote !in s.registry <==> Enabled(s', ReadMessage(conn, Failed)))
            && s'.registry == if remote in s.registry then s.registry else s.registry[remote := conn]
  {
    hide After, Possible, ConnOk;
    Reached(acts);
    var s := After(acts);
    assert !Registered(s, conn);
  }

  /** A binary message that is read while the loop is at reading can be handed to any ReadFrom, which
      returns it, in order, if its buffer is long enough and else drops it; then the loop reads on. */
  lemma MessageHandedOver(acts: seq<Act>, conn: Conn, message: bytes, room: nat)
    requires Possible(acts) && At(After(acts), conn, Reading)
    ensures var s, acts' := After(acts), acts + [ReadMessage(conn, Binary(message))] + [HandOver(conn, room)];
            && Possible(acts')
            && var s' := After(acts');
            && ReturnedFor(s'.log, conn) == ReturnedFor(s.log, conn) + (if |message| <= room then [message] else [])
            && At(s', conn, Reading) && s'.registry == s.registry
            && s'.read == s.read[conn := s.read[conn] + [message]]
  {
    hide After, Possible, ReturnedFor;
    var s := After(acts);
    var acts1, s1 := Extend(acts, s, ReadMessage(conn, Binary(message)));
    var acts2, s2 := Extend(acts1, s1, HandOver(conn, room));
    ReturnedOneMore(s.log, s2.log[|s.log|], conn);
  }

  lemma ReturnedOneMore(log: seq<Event>, e: Event, conn: Conn)
    ensures ReturnedFor(log + [e], conn)
         == ReturnedFor(log, conn) + if e.conn == conn && e.fate == Returned then [e.message] else []
  {
    assert (log + [e])[..|log|] == log;
  }

  /** A message that is not binary changes nothing. */
  lemma TextIgnored(acts: seq<Act>, conn: Conn)
    requires Possible(acts) && At(After(acts), conn, Reading)
    ensures Enabled(After(acts), ReadMessage(conn, NotBinary))
    ensures Next(After(acts), ReadMessage(conn, NotBinary)) == After(acts)
  {
  }

  /** A loop whose read fails takes its own entry with it and closes. */
  lemma LoopEnds(acts: seq<Act>, conn: Conn)
    requires Possible(acts) && At(After(acts), conn, Reading)
    ensures var s, acts' := After(acts), acts + [ReadMessage(conn, Failed)] + [Delete(conn)] + [Close(conn)];
            && Possible(acts') && Registered(s, conn)
            && After(acts') == s.(registry := s.registry - {s.addr[conn]}, loops := s.loops[conn := Done])
  {
    hide After, Possible, KnownOk, ConnOk;
    Reached(acts);
    var s := After(acts);
    assert Active(s, conn);
    var acts1, s1 := Extend(acts, s, ReadMessage(conn, Failed));
    var acts2, s2 := Extend(acts1, s1, Delete(conn));
    var acts3, s3 := Extend(acts2, s2, Close(conn));
  }

  // ---------------------------------------------------------------- after Close

  /** In every reachable state a message was dropped only if the context is cancelled, and a loop that
      drops one is back at reading: nothing but a failed read ends it. */
  lemma DropsReadOn(acts: seq<Act>, a: Act)
    requires Possible(acts) && Enabled(After(acts), a)
    ensures var s := After(acts);
            var s' := Next(s, a);
            && (forall i | 0 <= i < |s.log| && s.log[i].fate == Dropped :: s.cancelled)
            && (a.GiveUp? ==> s.cancelled && forall outcome :: Enabled(s', ReadMessage(a.conn, outcome)))
            && (forall conn | Active(s, conn) && At(s', conn, Leaving) && s'.loops[conn] != s.loops[conn] ::
                  a == ReadMessage(conn, Failed))
  {
    hide After, Possible, RegistryOk, KnownOk, ConnOk;
    Reached(acts);
  }

  /** So a loop can read and drop message after message once the context is cancelled. */
  lemma CancelledReadsOn(first: bytes, second: bytes)
    ensures exists acts :: Possible(acts) &&
              var s := After(acts);
              && s.cancelled && s.log == [Event(0, first, Dropped)]
              && At(s, 0, Offering(second)) && s.read[0] == [first, second]
  {
    hide After, Possible;
    NoActs();
    var acts, s := [], START;
    acts, s := Extend(acts, s, Handle(0, 7));
    acts, s := Extend(acts, s, Cancel);
    acts, s := Extend(acts, s, ReadMessage(0, Binary(first)));
    acts, s := Extend(acts, s, GiveUp(0));
    acts, s := Extend(acts, s, ReadMessage(0, Binary(second)));
    assert [] + [first] == [first] && [first] + [second] == [first, second];
  }

  // ---------------------------------------------------------------- no loss

  /** The connection is not closed, and no message is longer than the buffers ReadFrom is called with. */
  predicate Careful(a: Act, limit: nat) {
    match a
    case Cancel => false
    case ReadMessage(_, Binary(message)) => |message| <= limit
    case HandOver(_, room) => limit <= room
    case _ => true
  }

  ghost predicate NoLoss(s: State, limit: nat) {
    && !s.cancelled
    && (forall conn :: conn in s.loops && s.loops[conn].Offering? ==> |s.loops[conn].message| <= limit)
    && (forall i | 0 <= i < |s.log| :: s.log[i].fate == Returned)
  }

  lemma NoLossKept(s: State, a: Act, limit: nat)
    requires NoLoss(s, limit) && Enabled(s, a) && Careful(a, limit)
    ensures NoLoss(Next(s, a), limit)
  {
  }

  lemma {:induction false} NoLossRun(acts: seq<Act>, limit: nat)
    requires Possible(acts) && forall a | a in acts :: Careful(a, limit)
    ensures NoLoss(After(acts), limit)
  {
    hide Next, Enabled, Careful;
    if acts != [] {
      hide NoLoss;
      NoLossRun(acts[..|acts| - 1], limit);
      NoLossKept(After(acts[..|acts| - 1]), acts[|acts| - 1], limit);
    }
  }

  /** Until Close, callers with buffers no shorter than any message lose none: what was returned for a
      connection, and the message on offer, are all that was read on it. */
  lemma AllReturned(acts: seq<Act>, limit: nat, conn: Conn)
    requires Possible(acts) && (forall a | a in acts :: Careful(a, limit))
    requires conn in After(acts).read
    ensures var s := After(acts);
            ReturnedFor(s.log, conn) + Pending(s, conn) == s.read[conn]
  {
    hide After, Possible, Careful, ReturnedFor, Pending, Subsequence;
    NoLossRun(acts, limit);
    ReturnedInOrder(acts, conn);
  }
}
