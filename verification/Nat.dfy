/** The UDP NAT table: one listener, any number of copiers, every interleaving of their steps. */
module Nat {
  import opened Bytes

  type Peer = nat
  type Sock = nat

  // ---------------------------------------------------------------- the table

  function Lookup(m: map<Peer, Sock>, k: Peer): Option<Sock> {
    if k in m then Some(m[k]) else None
  }

  /** natmap; each method runs under the lock. */
  class NatMap {
    var m: map<Peer, Sock>

    constructor ()
      ensures m == map[]
    {
      m := map[];
    }

    method Get(key: Peer) returns (pc: Option<Sock>)
      ensures pc == Lookup(m, key)
    {
      pc := if key in m then Some(m[key]) else None;
    }

    method Set(key: Peer, pc: Sock)
      modifies this
      ensures m == old(m)[key := pc]
    {
      m := m[key := pc];
    }

    method Del(key: Peer) returns (pc: Option<Sock>)
      modifies this
      ensures pc == Lookup(old(m), key) && m == old(m) - {key}
    {
      pc := None;
      if key in m {
        pc := Some(m[key]);
        m := m - {key};
      }
    }
  }

  // ---------------------------------------------------------------- threads

  /** Where the listener is in its loop. */
  datatype Listener =
    | Listening
    | Holding(peer: Peer)             // before Get
    | Missing(peer: Peer)              // Get returned nil
    | Opened(peer: Peer, sock: Sock)   // a socket was opened, before Set
    | Stored(peer: Peer, sock: Sock)   // after Set, before the goroutine starts
    | Sending(peer: Peer, sock: Sock)  // before WriteTo on the socket

  /** The goroutine that Add starts for a socket: the peer it was given, and where it is. */
  datatype Copier = Copier(peer: Peer, at: Place)

  datatype Place =
    | Reading
    | Replying(reply: bytes)        // has read a reply, before writing it to its peer
    | Stopped                       // timedCopy has returned, before Del
    | Deleted(got: Option<Sock>)    // after Del, before Close
    | Finished

  datatype Reply = Reply(sock: Sock, peer: Peer, reply: bytes)

  /** `owner` tells for which peer each socket was opened; `closes`, `forwards` and `replies` record
      the calls of Close, of the listener's WriteTo and of the copiers' WriteTo, in order. */
  datatype State = State(table: map<Peer, Sock>, owner: map<Sock, Peer>, next: Sock,
                         listener: Listener, copiers: map<Sock, Copier>,
                         closes: seq<Sock>, forwards: seq<(Peer, Sock)>, replies: seq<Reply>)

  const START := State(map[], map[], 0, Listening, map[], [], [], [])

  datatype Act =
    | Receive(peer: Peer)
    | Get
    | Open(ok: bool)
    | Set
    | Spawn
    | Forward
    | Read(sock: Sock, reply: bytes)
    | TimeOut(sock: Sock)
    | Answer(sock: Sock, ok: bool)
    | Del(sock: Sock)
    | Close(sock: Sock)

  predicate Enabled(s: State, a: Act) {
    match a
    case Receive(_) => s.listener.Listening?
    case Get => s.listener.Holding?
    case Open(_) => s.listener.Missing?
    case Set => s.listener.Opened?
    case Spawn => s.listener.Stored?
    case Forward => s.listener.Sending?
    case Read(sock, _) => sock in s.copiers && s.copiers[sock].at.Reading?
    case TimeOut(sock) => sock in s.copiers && s.copiers[sock].at.Reading?
    case Answer(sock, _) => sock in s.copiers && s.copiers[sock].at.Replying?
    case Del(sock) => sock in s.copiers && s.copiers[sock].at.Stopped?
    case Close(sock) => sock in s.copiers && s.copiers[sock].at.Deleted?
  }

  /** The copier of a socket moves on. */
  function Moved(s: State, sock: Sock, at: Place): State
    requires sock in s.copiers
  {
    s.(copiers := s.copiers[sock := s.copiers[sock].(at := at)])
  }

  function Next(s: State, a: Act): State
    requires Enabled(s, a)
  {
    match a
    case Receive(peer) => s.(listener := Holding(peer))
    case Get =>
      (match Lookup(s.table, s.listener.peer)
       case None => s.(listener := Missing(s.listener.peer))
       case Some(sock) => s.(listener := Sending(s.listener.peer, sock)))
    case Open(ok) =>
      if ok then s.(listener := Opened(s.listener.peer, s.next), owner := s.owner[s.next := s.listener.peer],
                    next := s.next + 1)
      else s.(listener := Listening)
    case Set =>
      s.(listener := Stored(s.listener.peer, s.listener.sock), table := s.table[s.listener.peer := s.listener.sock])
    case Spawn =>
      s.(listener := Sending(s.listener.peer, s.listener.sock),
         copiers := s.copiers[s.listener.sock := Copier(s.listener.peer, Reading)])
    case Forward =>
      s.(listener := Listening, forwards := s.forwards + [(s.listener.peer, s.listener.sock)])
    case Read(sock, reply) => Moved(s, sock, Replying(reply))
    case TimeOut(sock) => Moved(s, sock, Stopped)
    case Answer(sock, ok) =>
      Moved(s, sock, if ok then Reading else Stopped).(
        replies := s.replies + [Reply(sock, s.copiers[sock].peer, s.copiers[sock].at.reply)])
    case Del(sock) =>
      Moved(s, sock, Deleted(Lookup(s.table, s.copiers[sock].peer))).(table := s.table - {s.copiers[sock].peer})
    case Close(sock) =>
      Moved(s, sock, Finished).(closes := s.closes + Closed(s.copiers[sock].at.got))
  }

  function Closed(got: Option<Sock>): seq<Sock> {
    match got
    case None => []
    case Some(sock) => [sock]
  }

  /** A step on the shared table itself. */
  method Perform(nm: NatMap, s: State, a: Act) returns (s': State)
    requires Enabled(s, a) && nm.m == s.table
    modifies nm
    ensures s' == Next(s, a) && nm.m == s'.table
  {
    match a {
      case Get =>
        var pc := nm.Get(s.listener.peer);
        if pc.None? {
          s' := s.(listener := Missing(s.listener.peer));
        } else {
          s' := s.(listener := Sending(s.listener.peer, pc.value));
        }
      case Set =>
        nm.Set(s.listener.peer, s.listener.sock);
        s' := s.(listener := Stored(s.listener.peer, s.listener.sock), table := nm.m);
      case Del(sock) =>
        var pc := nm.Del(s.copiers[sock].peer);
        s' := Moved(s, sock, Deleted(pc)).(table := nm.m);
      case _ =>
        s' := Next(s, a);
    }
  }

  // ---------------------------------------------------------------- invariant

  /** A copier that has not run Del yet. */
  predicate Live(s: State, sock: Sock) {
    sock in s.copiers
    && var at := s.copiers[sock].at;
       at.Reading? || at.Replying? || at.Stopped?
  }

  predicate EntryOwned(s: State, peer: Peer, sock: Sock) {
    sock in s.owner && s.owner[sock] == peer && (Live(s, sock) || s.listener == Stored(peer, sock))
  }

  /** Every entry belongs to the one copier of its socket, not yet past Del, or about to be started. */
  ghost predicate TableOk(s: State) {
    forall k :: k in s.table ==> EntryOwned(s, k, s.table[k])
  }

  /** A copier was given the peer its socket was opened for. */
  predicate CopierOk(s: State, sock: Sock) {
    sock in s.copiers ==>
      var c := s.copiers[sock];
      && sock in s.owner && c.peer == s.owner[sock]
      && (Live(s, sock) ==> Lookup(s.table, c.peer) == Some(sock))
      && (c.at.Deleted? ==> c.at.got == Some(sock))
      && (c.at.Finished? <==> sock in s.closes)
  }

  predicate ListenerOk(s: State) {
    match s.listener
    case Listening => true
    case Holding(_) => true
    case Missing(peer) => peer !in s.table
    case Opened(peer, sock) => peer !in s.table && sock in s.owner && s.owner[sock] == peer && sock !in s.copiers
    case Stored(peer, sock) =>
      Lookup(s.table, peer) == Some(sock) && sock in s.owner && s.owner[sock] == peer && sock !in s.copiers
    case Sending(peer, sock) => sock in s.owner && s.owner[sock] == peer && sock in s.copiers
  }

  predicate LogOk(s: State) {
    && (forall i | 0 <= i < |s.replies| ::
          s.replies[i].sock in s.owner && s.replies[i].peer == s.owner[s.replies[i].sock])
    && (forall i | 0 <= i < |s.forwards| ::
          s.forwards[i].1 in s.owner && s.forwards[i].0 == s.owner[s.forwards[i].1])
    && (forall i, j | 0 <= i < j < |s.closes| :: s.closes[i] != s.closes[j])
    && (forall i | 0 <= i < |s.closes| :: s.closes[i] in s.copiers)
  }

  /** Every socket ever opened is still the listener's or has its copier. */
  ghost predicate NoneLost(s: State) {
    && (forall sock: Sock :: sock in s.owner <==> sock < s.next)
    && (forall sock: Sock :: sock in s.owner ==>
          sock in s.copiers || ((s.listener.Opened? || s.listener.Stored?) && s.listener.sock == sock))
  }

  ghost predicate Inv(s: State) {
    TableOk(s) && (forall sock :: CopierOk(s, sock)) && ListenerOk(s) && LogOk(s) && NoneLost(s)
  }

  lemma TableKept(s: State, a: Act)
    requires Inv(s) && Enabled(s, a)
    ensures TableOk(Next(s, a))
  {
    hide LogOk;
    var s' := Next(s, a);
    forall k | k in s'.table
      ensures EntryOwned(s', k, s'.table[k])
    {
      if k in s.table {
        assert EntryOwned(s, k, s.table[k]);
      }
      if a.Del? || a.Close? {
        assert CopierOk(s, a.sock);
      }
    }
  }

  lemma ListenerKept(s: State, a: Act)
    requires Inv(s) && Enabled(s, a)
    ensures ListenerOk(Next(s, a))
  {
    hide LogOk;
    if a.Get? && s.listener.peer in s.table {
      assert EntryOwned(s, s.listener.peer, s.table[s.listener.peer]);
    }
    if a.Open? {
      assert CopierOk(s, s.next);
    }
    if a.Del? {
      assert CopierOk(s, a.sock);
    }
  }

  lemma CopiersKept(s: State, a: Act)
    requires Inv(s) && Enabled(s, a)
    ensures forall sock :: CopierOk(Next(s, a), sock)
  {
    hide TableOk;
    var s' := Next(s, a);
    forall sock
      ensures CopierOk(s', sock)
    {
      assert CopierOk(s, sock);
      if a.Del? || a.Close? {
        assert CopierOk(s, a.sock);
      }
    }
  }

  lemma LogsKept(s: State, a: Act)
    requires Inv(s) && Enabled(s, a)
    ensures LogOk(Next(s, a))
  {
    hide TableOk;
    if a.Close? || a.Answer? {
      assert CopierOk(s, a.sock);
    }
  }

  lemma SocketsKept(s: State, a: Act)
    requires Inv(s) && Enabled(s, a)
    ensures NoneLost(Next(s, a))
  {
    hide TableOk, LogOk;
    if a.Close? || a.Answer? {
      assert CopierOk(s, a.sock);
    }
  }

  lemma NextKeeps(s: State, a: Act)
    requires Inv(s) && Enabled(s, a)
    ensures Inv(Next(s, a))
  {
    hide TableOk, CopierOk, ListenerOk, LogOk, NoneLost;
    TableKept(s, a);
    ListenerKept(s, a);
    CopiersKept(s, a);
    LogsKept(s, a);
    SocketsKept(s, a);
  }

  // ---------------------------------------------------------------- every run

  /** The acts are possible one after the other, from the start. */
  predicate Possible(acts: seq<Act>)
    decreases |acts|, 0
  {
    acts == [] || (Possible(acts[..|acts| - 1]) && Enabled(After(acts[..|acts| - 1]), acts[|acts| - 1]))
  }

  function After(acts: seq<Act>): State
    requires Possible(acts)
    decreases |acts|, 1
  {
    if acts == [] then START else Next(After(acts[..|acts| - 1]), acts[|acts| - 1])
  }

  lemma {:induction false} Reached(acts: seq<Act>)
    requires Possible(acts)
    ensures Inv(After(acts))
  {
    hide Inv, Next, Enabled;
    if acts == [] {
      StartInv();
    } else {
      Reached(acts[..|acts| - 1]);
      NextKeeps(After(acts[..|acts| - 1]), acts[|acts| - 1]);
    }
  }

  lemma StartInv()
    ensures Inv(START)
  {
  }

  lemma NoActs()
    ensures Possible([]) && After([]) == START
  {
  }

  lemma {:induction false} PrefixPossible(acts: seq<Act>, i: nat)
    requires Possible(acts) && i <= |acts|
    ensures Possible(acts[..i])
  {
    hide Enabled;
    if i == |acts| {
      assert acts[..i] == acts;
    } else {
      PrefixPossible(acts[..|acts| - 1], i);
      assert acts[..|acts| - 1][..i] == acts[..i];
    }
  }

  /** One more act after a run that led to s. */
  lemma Extend(acts: seq<Act>, s: State, a: Act) returns (acts': seq<Act>, s': State)
    requires Possible(acts) && After(acts) == s && Enabled(s, a)
    ensures acts' == acts + [a] && s' == Next(s, a) && Possible(acts') && After(acts') == s'
  {
    hide Next, Enabled;
    acts', s' := acts + [a], Next(s, a);
    assert acts'[..|acts'| - 1] == acts;
  }

  /** In every reachable state, whatever the interleaving: each entry belongs to one copier that has not
      run Del, or to the one about to be started; the peer a copier was given is the one its socket was
      opened for; a Del that has run returned its own socket; no socket is closed twice, and only by its
      own copier; what the listener sends for a peer goes through that peer's socket, and what a copier
      sends goes to the peer its socket was opened for. */
  lemma Safety(acts: seq<Act>)
    requires Possible(acts)
    ensures var s := After(acts);
            && TableOk(s)
            && (forall sock | sock in s.copiers :: sock in s.owner && s.copiers[sock].peer == s.owner[sock])
            && (forall sock | sock in s.copiers && s.copiers[sock].at.Deleted? :: s.copiers[sock].at.got == Some(sock))
            && (forall sock | sock in s.copiers :: s.copiers[sock].at.Finished? <==> sock in s.closes)
            && LogOk(s)
  {
    hide After, Possible, TableOk, LogOk;
    Reached(acts);
    var s := After(acts);
    forall sock | sock in s.copiers
      ensures sock in s.owner && s.copiers[sock].peer == s.owner[sock]
      ensures s.copiers[sock].at.Deleted? ==> s.copiers[sock].at.got == Some(sock)
      ensures s.copiers[sock].at.Finished? <==> sock in s.closes
    {
      assert CopierOk(s, sock);
    }
  }

  /** The next step of a copier that is about to run Del takes its own entry and no other's. */
  lemma DelTakesOwn(acts: seq<Act>, sock: Sock)
    requires Possible(acts)
    requires Enabled(After(acts), Del(sock))
    ensures var s := After(acts);
            var s' := Next(s, Del(sock));
            && s'.copiers[sock].at == Deleted(Some(sock))
            && s.table == s'.table[s.copiers[sock].peer := sock]
  {
    hide After, Possible, TableOk, LogOk, ListenerOk, NoneLost;
    Reached(acts);
    assert CopierOk(After(acts), sock);
  }

  lemma NoEntries(s: State)
    requires TableOk(s) && !s.listener.Stored?
    requires forall sock | sock in s.copiers :: s.copiers[sock].at.Finished?
    ensures s.table == map[]
  {
    if k :| k in s.table {
      assert false;
    }
  }

  /** No socket is forgotten: when the listener waits and all copiers are done, every socket ever
      opened is closed and the table is empty. */
  lemma NothingLeaks(acts: seq<Act>)
    requires Possible(acts)
    requires var s := After(acts);
             s.listener.Listening? && forall sock | sock in s.copiers :: s.copiers[sock].at.Finished?
    ensures var s := After(acts);
            s.table == map[] && forall sock: Sock | sock < s.next :: sock in s.closes
  {
    hide After, Possible, TableOk, LogOk;
    Reached(acts);
    var s := After(acts);
    NoEntries(s);
    forall sock: Sock | sock < s.next
      ensures sock in s.closes
    {
      assert CopierOk(s, sock);
    }
  }

  /** What Get finds for a peer is a socket exactly if its copier was started for that peer and has not
      run Del, or is about to be started: never a socket of another peer, and never one that is closed. */
  lemma GetExact(acts: seq<Act>, peer: Peer, sock: Sock)
    requires Possible(acts)
    ensures var s := After(acts);
            && (Lookup(s.table, peer) == Some(sock)
                <==> (Live(s, sock) && s.copiers[sock].peer == peer) || s.listener == Stored(peer, sock))
            && (Lookup(s.table, peer) == Some(sock) ==> sock !in s.closes)
  {
    hide After, Possible;
    Reached(acts);
    var s := After(acts);
    assert CopierOk(s, sock);
    if peer in s.table {
      assert EntryOwned(s, peer, s.table[peer]);
    }
  }

  /** Set, which does not look, replaces no entry, and no copier of the peer is left to run Del. */
  lemma SetReplacesNothing(acts: seq<Act>)
    requires Possible(acts) && Enabled(After(acts), Set)
    ensures var s := After(acts);
            var peer, sock := s.listener.peer, s.listener.sock;
            && peer !in s.table && sock !in s.copiers
            && Next(s, Set).table - {peer} == s.table
            && forall other | Live(s, other) :: s.copiers[other].peer != peer
  {
    hide After, Possible, TableOk;
    Reached(acts);
    var s := After(acts);
    forall other | Live(s, other)
      ensures s.copiers[other].peer != s.listener.peer
    {
      assert CopierOk(s, other);
    }
  }

  /** Between Get or Set and the WriteTo after it: the socket has its copier, for this peer; it is still
      in the table exactly if that copier has not run Del, and closed exactly if that copier is done. */
  lemma SendingExact(acts: seq<Act>)
    requires Possible(acts) && After(acts).listener.Sending?
    ensures var s := After(acts);
            var peer, sock := s.listener.peer, s.listener.sock;
            && sock in s.copiers && s.copiers[sock].peer == peer
            && (Lookup(s.table, peer) == Some(sock) <==> Live(s, sock))
            && (sock in s.closes <==> s.copiers[sock].at.Finished?)
  {
    hide After, Possible;
    Reached(acts);
    var s := After(acts);
    var peer, sock := s.listener.peer, s.listener.sock;
    assert CopierOk(s, sock);
    if peer in s.table {
      assert EntryOwned(s, peer, s.table[peer]);
    }
  }

  // ---------------------------------------------------------------- every datagram, every reply

  /** A datagram of a peer that has an entry goes out through its socket, once, and nothing else changes. */
  lemma KnownPeerForwarded(acts: seq<Act>, peer: Peer)
    requires Possible(acts) && After(acts).listener.Listening? && peer in After(acts).table
    ensures var s, acts' := After(acts), acts + [Receive(peer)] + [Get] + [Forward];
            Possible(acts') && After(acts') == s.(forwards := s.forwards + [(peer, s.table[peer])])
  {
    hide After, Possible;
    var s := After(acts);
    var acts1, s1 := Extend(acts, s, Receive(peer));
    var acts2, s2 := Extend(acts1, s1, Get);
    var acts3, s3 := Extend(acts2, s2, Forward);
  }

  /** One of a peer that has none goes out through a new socket, whose copier starts to read. */
  lemma NewPeerForwarded(acts: seq<Act>, peer: Peer)
    requires Possible(acts) && After(acts).listener.Listening? && peer !in After(acts).table
    ensures var s, acts' := After(acts), acts + [Receive(peer)] + [Get] + [Open(true)] + [Set] + [Spawn] + [Forward];
            && Possible(acts')
            && After(acts') == s.(table := s.table[peer := s.next], owner := s.owner[s.next := peer],
                                  next := s.next + 1, copiers := s.copiers[s.next := Copier(peer, Reading)],
                                  forwards := s.forwards + [(peer, s.next)])
  {
    hide After, Possible;
    var s := After(acts);
    var acts1, s1 := Extend(acts, s, Receive(peer));
    var acts2, s2 := Extend(acts1, s1, Get);
    var acts3, s3 := Extend(acts2, s2, Open(true));
    var acts4, s4 := Extend(acts3, s3, Set);
    var acts5, s5 := Extend(acts4, s4, Spawn);
    var acts6, s6 := Extend(acts5, s5, Forward);
  }

  /** Or it is dropped without a trace if no socket can be had. */
  lemma NoSocketDropped(acts: seq<Act>, peer: Peer)
    requires Possible(acts) && After(acts).listener.Listening? && peer !in After(acts).table
    ensures var acts' := acts + [Receive(peer)] + [Get] + [Open(false)];
            Possible(acts') && After(acts') == After(acts)
  {
    hide After, Possible;
    var s := After(acts);
    var acts1, s1 := Extend(acts, s, Receive(peer));
    var acts2, s2 := Extend(acts1, s1, Get);
    var acts3, s3 := Extend(acts2, s2, Open(false));
  }

  /** A reply that a copier reads goes to its peer, once; after a refusal the copier stops, else it reads on. */
  lemma ReplyAnswered(acts: seq<Act>, sock: Sock, reply: bytes, ok: bool)
    requires Possible(acts) && Enabled(After(acts), Read(sock, reply))
    ensures var s, acts' := After(acts), acts + [Read(sock, reply)] + [Answer(sock, ok)];
            var peer := s.copiers[sock].peer;
            && Possible(acts')
            && After(acts') == s.(replies := s.replies + [Reply(sock, peer, reply)],
                                  copiers := s.copiers[sock := Copier(peer, if ok then Reading else Stopped)])
  {
    hide After, Possible;
    var s := After(acts);
    var acts1, s1 := Extend(acts, s, Read(sock, reply));
    var acts2, s2 := Extend(acts1, s1, Answer(sock, ok));
  }

  /** A copier that times out takes its own entry with it and closes its own socket. */
  lemma CopierExpires(acts: seq<Act>, sock: Sock)
    requires Possible(acts) && Enabled(After(acts), TimeOut(sock))
    ensures var s, acts' := After(acts), acts + [TimeOut(sock)] + [Del(sock)] + [Close(sock)];
            var peer := s.copiers[sock].peer;
            && Possible(acts')
            && peer in s.table && s.table[peer] == sock
            && After(acts') == s.(table := s.table - {peer}, closes := s.closes + [sock],
                                  copiers := s.copiers[sock := Copier(peer, Finished)])
  {
    hide After, Possible, TableOk, ListenerOk, LogOk, NoneLost;
    Reached(acts);
    var s := After(acts);
    assert CopierOk(s, sock);
    var acts1, s1 := Extend(acts, s, TimeOut(sock));
    var acts2, s2 := Extend(acts1, s1, Del(sock));
    var acts3, s3 := Extend(acts2, s2, Close(sock));
  }

  /** The peers of the datagrams received, in order, but for those that no socket could be had for. */
  function Accepted(acts: seq<Act>): seq<Peer> {
    if acts == [] then []
    else
      var before := Accepted(acts[..|acts| - 1]);
      match acts[|acts| - 1]
      case Receive(peer) => before + [peer]
      case Open(ok) => if ok || before == [] then before else before[..|before| - 1]
      case _ => before
  }

  /** How many datagrams were received. */
  function Received(acts: seq<Act>): nat {
    if acts == [] then 0
    else Received(acts[..|acts| - 1]) + if acts[|acts| - 1].Receive? then 1 else 0
  }

  /** For how many of them no socket could be had. */
  function Refused(acts: seq<Act>): nat {
    if acts == [] then 0
    else Refused(acts[..|acts| - 1]) + if acts[|acts| - 1] == Open(false) then 1 else 0
  }

  function Peers(forwards: seq<(Peer, Sock)>): (peers: seq<Peer>)
    ensures |peers| == |forwards|
  {
    if forwards == [] then [] else Peers(forwards[..|forwards| - 1]) + [forwards[|forwards| - 1].0]
  }

  function Busy(s: State): seq<Peer> {
    if s.listener.Listening? then [] else [s.listener.peer]
  }

  /** In every reachable state, what was forwarded, and what the listener is busy with, are the accepted
      datagrams in order; as a count, every datagram received was forwarded once, or refused a socket,
      or is in the listener's hands. */
  lemma {:induction false} ForwardsExact(acts: seq<Act>)
    requires Possible(acts)
    ensures var s := After(acts);
            && Peers(s.forwards) + Busy(s) == Accepted(acts)
            && Received(acts) == |s.forwards| + Refused(acts) + if s.listener.Listening? then 0 else 1
  {
    hide Next, Enabled;
    if acts != [] {
      var before, a := acts[..|acts| - 1], acts[|acts| - 1];
      ForwardsExact(before);
      hide Peers;
      ForwardStep(After(before), a);
    } else {
      assert Peers([]) + Busy(START) == [];
    }
  }

  lemma ForwardStep(s: State, a: Act)
    requires Enabled(s, a)
    ensures var s' := Next(s, a);
            var before, now := Peers(s.forwards) + Busy(s), Peers(s'.forwards) + Busy(s');
            match a
            case Receive(peer) =>
              now == before + [peer] && s.listener.Listening? && !s'.listener.Listening? && s'.forwards == s.forwards
            case Open(false) =>
              && before != [] && now == before[..|before| - 1]
              && !s.listener.Listening? && s'.listener.Listening? && s'.forwards == s.forwards
            case Forward =>
              && now == before && !s.listener.Listening? && s'.listener.Listening?
              && |s'.forwards| == |s.forwards| + 1
            case _ =>
              now == before && s'.forwards == s.forwards && (s'.listener.Listening? <==> s.listener.Listening?)
  {
    var s' := Next(s, a);
    if a.Forward? {
      assert s'.forwards[..|s'.forwards| - 1] == s.forwards;
    }
  }

  /** What was read from a socket, in order. */
  function ReadFrom(acts: seq<Act>, sock: Sock): seq<bytes> {
    if acts == [] then []
    else ReadFrom(acts[..|acts| - 1], sock) + ReadBy(acts[|acts| - 1], sock)
  }

  /** What was sent on of it. */
  function SentOn(replies: seq<Reply>, sock: Sock): seq<bytes> {
    if replies == [] then []
    else
      var r := replies[|replies| - 1];
      SentOn(replies[..|replies| - 1], sock) + if r.sock == sock then [r.reply] else []
  }

  function InHand(s: State, sock: Sock): seq<bytes> {
    if sock in s.copiers && s.copiers[sock].at.Replying? then [s.copiers[sock].at.reply] else []
  }

  /** In every reachable state, what was read from a socket was sent on, each reply once, unchanged and in
      order, but for one that its copier has in hand. */
  lemma {:induction false} RepliesExact(acts: seq<Act>, sock: Sock)
    requires Possible(acts)
    ensures var s := After(acts);
            SentOn(s.replies, sock) + InHand(s, sock) == ReadFrom(acts, sock)
  {
    hide Next, Enabled, SentOn, InHand;
    if acts != [] {
      var before, a := acts[..|acts| - 1], acts[|acts| - 1];
      RepliesExact(before, sock);
      Reached(before);
      ReplyStep(After(before), a, sock);
    } else {
      NothingSentOn(sock);
    }
  }

  lemma NothingSentOn(sock: Sock)
    ensures SentOn(START.replies, sock) + InHand(START, sock) == []
  {
  }

  lemma SentOnMore(replies: seq<Reply>, r: Reply, sock: Sock)
    ensures SentOn(replies + [r], sock) == SentOn(replies, sock) + if r.sock == sock then [r.reply] else []
  {
    assert (replies + [r])[..|replies|] == replies;
  }

  function ReadBy(a: Act, sock: Sock): seq<bytes> {
    match a
    case Read(from, reply) => if from == sock then [reply] else []
    case _ => []
  }

  lemma ReplyStep(s: State, a: Act, sock: Sock)
    requires Inv(s) && Enabled(s, a)
    ensures var s' := Next(s, a);
            SentOn(s'.replies, sock) + InHand(s', sock) == SentOn(s.replies, sock) + InHand(s, sock) + ReadBy(a, sock)
  {
    hide TableOk, LogOk, NoneLost, CopierOk, SentOn;
    var s' := Next(s, a);
    if a.Answer? {
      SentOnMore(s.replies, Reply(a.sock, s.copiers[a.sock].peer, s.copiers[a.sock].at.reply), sock);
    }
    assert InHand(s', sock) == if a.Answer? && a.sock == sock then [] else InHand(s, sock) + ReadBy(a, sock) by {
      hide ReadBy;
      HandStep(s, a, sock);
    }
  }

  lemma HandStep(s: State, a: Act, sock: Sock)
    requires Inv(s) && Enabled(s, a)
    ensures InHand(Next(s, a), sock)
         == if a.Answer? && a.sock == sock then [] else InHand(s, sock) + ReadBy(a, sock)
  {
    hide TableOk, LogOk, NoneLost, CopierOk;
    if a.Spawn? {
      assert s.listener.sock !in s.copiers;
    }
  }

  /** The steps performed one after the other on a new table. */
  method Play(acts: seq<Act>) returns (nm: NatMap, s: State)
    requires Possible(acts)
    ensures s == After(acts) && nm.m == s.table && Inv(s)
  {
    hide Next, Enabled, Inv;
    nm := new NatMap();
    s := START;
    NoActs();
    for i := 0 to |acts|
      invariant fresh(nm) && nm.m == s.table
      invariant Possible(acts[..i]) && s == After(acts[..i])
    {
      PrefixPossible(acts, i + 1);
      assert acts[..i + 1][..i] == acts[..i];
      s := Perform(nm, s, acts[i]);
    }
    assert acts[..|acts|] == acts;
    Reached(acts);
  }

  /** Set and the WriteTo after it are not one step: whenever an entry has just been set, its copier can
      time out first, and then the listener is about to send on a socket that is closed. */
  lemma LateForward(acts: seq<Act>)
    requires Possible(acts) && After(acts).listener.Stored?
    ensures exists acts' :: Possible(acts') && acts <= acts' &&
              var peer, sock, s := After(acts).listener.peer, After(acts).listener.sock, After(acts');
              s.listener == Sending(peer, sock) && sock in s.closes && peer !in s.table
  {
    hide After, Possible, TableOk, CopierOk, LogOk, NoneLost;
    Reached(acts);
    var s0 := After(acts);
    var sock := s0.listener.sock;
    var acts1, s1 := Extend(acts, s0, Spawn);
    var acts2, s2 := Extend(acts1, s1, TimeOut(sock));
    Expires(s2, sock);
    var acts3, s3 := Extend(acts2, s2, Del(sock));
    var acts4, s4 := Extend(acts3, s3, Close(sock));
  }

  /** What Del and Close of a copier whose entry is its own lead to. */
  lemma Expires(s: State, sock: Sock)
    requires Enabled(s, Del(sock)) && Lookup(s.table, s.copiers[sock].peer) == Some(sock)
    ensures var s1 := Next(s, Del(sock));
            && Enabled(s1, Close(sock))
            && var s2 := Next(s1, Close(sock));
            s2.listener == s.listener && sock in s2.closes && s.copiers[sock].peer !in s2.table
  {
    var s1 := Next(s, Del(sock));
    assert Next(s1, Close(sock)).closes == s.closes + [sock];
  }

  /** Such a state is reached for every peer. */
  lemma FirstForward(peer: Peer)
    ensures exists acts :: Possible(acts) && After(acts).listener == Stored(peer, 0)
  {
    hide After, Possible;
    NoActs();
    var acts1, s1 := Extend([], START, Receive(peer));
    var acts2, s2 := Extend(acts1, s1, Get);
    var acts3, s3 := Extend(acts2, s2, Open(true));
    var acts4, s4 := Extend(acts3, s3, Set);
  }
}
