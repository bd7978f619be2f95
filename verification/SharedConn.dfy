/** Any number of callers of packetConn.WriteTo, one send buffer, one lock: every interleaving. */
module SharedConn {
  import opened Bytes
  import opened Aead
  import opened Io
  import opened Datagram

  /** One call of WriteTo; `salt` is what the random generator gives it. */
  datatype Call = Call(id: nat, plain: bytes, addr: nat, salt: Option<bytes>)

  datatype Pc =
    | Idle
    | Waiting(call: Call)               // before Lock
    | Holding(call: Call)               // has the lock
    | Salted(call: Call)                // its salt is in the buffer
    | Packed(call: Call, n: nat)        // buf[..n] is to be sent
    | Leaving(call: Call, r: Result<nat>)  // about to unlock and return

  datatype Packet = Packet(call: Call, addr: nat, packet: bytes)

  datatype Return = Return(call: Call, r: Result<nat>)

  /** `sent` is what reached the network, `returned` what the callers got, both in order. */
  datatype State = State(buf: bytes, holder: Option<nat>, pcs: map<nat, Pc>, next: nat,
                         sent: seq<Packet>, returned: seq<Return>)

  datatype Act =
    | Enter(t: nat, plain: bytes, addr: nat, salt: Option<bytes>)
    | Lock(t: nat)
    | Salt(t: nat)
    | Seal(t: nat)
    | Send(t: nat, accepted: bool)
    | Unlock(t: nat)

  function PcOf(s: State, t: nat): Pc {
    if t in s.pcs then s.pcs[t] else Idle
  }

  predicate Enabled(c: Cipher, s: State, a: Act) {
    match a
    case Enter(t, _, _, salt) => PcOf(s, t).Idle? && (salt.Some? ==> |salt.value| == c.saltSize)
    case Lock(t) => PcOf(s, t).Waiting? && s.holder == None
    case Salt(t) => PcOf(s, t).Holding?
    case Seal(t) => PcOf(s, t).Salted?
    case Send(t, _) => PcOf(s, t).Packed?
    case Unlock(t) => PcOf(s, t).Leaving?
  }

  /** `b` written over the start of the buffer. */
  function Over(buf: bytes, b: bytes): bytes
    requires |b| <= |buf|
  {
    b + buf[|b|..]
  }

  /** Each step reads and writes the one shared buffer; nothing here looks at who holds the lock. */
  function Next(c: Cipher, s: State, a: Act): State
    requires Enabled(c, s, a) && c.saltSize <= |s.buf|
  {
    match a
    case Enter(t, plain, addr, salt) =>
      s.(pcs := s.pcs[t := Waiting(Call(s.next, plain, addr, salt))], next := s.next + 1)
    case Lock(t) =>
      s.(pcs := s.pcs[t := Holding(s.pcs[t].call)], holder := Some(t))
    case Salt(t) =>
      var call := s.pcs[t].call;
      (match call.salt
       case None => s.(pcs := s.pcs[t := Leaving(call, Err(Other(0)))])
       case Some(salt) =>
         if |salt| > |s.buf| then s.(pcs := s.pcs[t := Leaving(call, Err(ShortBuffer))])
         else s.(pcs := s.pcs[t := Salted(call)], buf := Over(s.buf, salt)))
    case Seal(t) =>
      var call := s.pcs[t].call;
      var salt := s.buf[..c.saltSize];
      (match Pack(c, |s.buf|, Some(salt), call.plain)
       case Err(e) => s.(pcs := s.pcs[t := Leaving(call, Err(e))])
       case Ok(packet) =>
         if |packet| > |s.buf| then s.(pcs := s.pcs[t := Leaving(call, Err(ShortBuffer))])
         else s.(pcs := s.pcs[t := Packed(call, |packet|)], buf := Over(s.buf, packet)))
    case Send(t, accepted) =>
      var call := s.pcs[t].call;
      var n := s.pcs[t].n;
      var packet := if n <= |s.buf| then s.buf[..n] else s.buf;
      if accepted then
        s.(pcs := s.pcs[t := Leaving(call, Ok(|call.plain|))], sent := s.sent + [Packet(call, call.addr, packet)])
      else s.(pcs := s.pcs[t := Leaving(call, Err(WriteFailed))])
    case Unlock(t) =>
      s.(pcs := s.pcs[t := Idle], holder := None, returned := s.returned + [Return(s.pcs[t].call, s.pcs[t].r)])
  }

  // ---------------------------------------------------------------- invariant

  predicate Inside(pc: Pc) {
    pc.Holding? || pc.Salted? || pc.Packed? || pc.Leaving?
  }

  function Packing(c: Cipher, room: nat, call: Call): Result<bytes> {
    Pack(c, room, call.salt, call.plain)
  }

  /** What the holder of the lock may rely on. */
  predicate Holds(c: Cipher, s: State, pc: Pc) {
    match pc
    case Salted(call) => call.salt == Some(s.buf[..if c.saltSize <= |s.buf| then c.saltSize else 0])
                         && c.saltSize <= |s.buf|
    case Packed(call, n) => n <= |s.buf| && Packing(c, |s.buf|, call) == Ok(s.buf[..n])
    case Leaving(call, r) => Fair(c, |s.buf|, s.sent, Return(call, r))
    case _ => true
  }

  /** A call reports success exactly if its datagram is out, and otherwise why there is none. */
  predicate Fair(c: Cipher, room: nat, sent: seq<Packet>, ret: Return) {
    match ret.r
    case Ok(n) => n == |ret.call.plain| && exists i :: 0 <= i < |sent| && sent[i].call == ret.call
    case Err(e) =>
      && (Packing(c, room, ret.call) == Err(e) || (Packing(c, room, ret.call).Ok? && e == WriteFailed))
      && NotAmong(sent, ret.call.id)
  }

  predicate NotAmong(sent: seq<Packet>, id: nat) {
    forall i | 0 <= i < |sent| :: sent[i].call.id != id
  }

  predicate Right(c: Cipher, room: nat, d: Packet) {
    d.addr == d.call.addr && Packing(c, room, d.call) == Ok(d.packet)
  }

  ghost predicate Exclusive(s: State) {
    forall t: nat :: Inside(PcOf(s, t)) <==> s.holder == Some(t)
  }

  /** Calls that have not got to Send have no datagram yet. */
  predicate Unsent(s: State, pc: Pc) {
    pc.Idle? || (pc.call.id < s.next && (pc.Leaving? || NotAmong(s.sent, pc.call.id)))
  }

  /** Calls that have returned are over. */
  predicate Closed(s: State, pc: Pc, ret: Return) {
    ret.call.id < s.next && (pc.Idle? || pc.call.id != ret.call.id)
  }

  predicate Apart(p: Pc, q: Pc) {
    p.Idle? || q.Idle? || p.call.id != q.call.id
  }

  predicate Drawn(c: Cipher, call: Call) {
    call.salt.Some? ==> |call.salt.value| == c.saltSize
  }

  ghost predicate Inv(c: Cipher, s: State) {
    && c.saltSize <= |s.buf|
    && Exclusive(s)
    && (forall t :: Holds(c, s, PcOf(s, t)))
    && (forall t :: PcOf(s, t).Idle? || Drawn(c, PcOf(s, t).call))
    && (forall i | 0 <= i < |s.returned| :: Drawn(c, s.returned[i].call))
    && (forall t :: Unsent(s, PcOf(s, t)))
    && (forall t, t' :: t != t' ==> Apart(PcOf(s, t), PcOf(s, t')))
    && (forall i | 0 <= i < |s.sent| :: Right(c, |s.buf|, s.sent[i]) && s.sent[i].call.id < s.next)
    && (forall i, j | 0 <= i < j < |s.sent| :: s.sent[i].call.id != s.sent[j].call.id)
    && (forall i | 0 <= i < |s.returned| :: Fair(c, |s.buf|, s.sent, s.returned[i]))
    && (forall i, t | 0 <= i < |s.returned| :: Closed(s, PcOf(s, t), s.returned[i]))
  }

  lemma FairLater(c: Cipher, room: nat, sent: seq<Packet>, d: Packet, ret: Return)
    requires Fair(c, room, sent, ret) && d.call.id != ret.call.id
    ensures Fair(c, room, sent + [d], ret)
  {
    if ret.r.Ok? {
      var i :| 0 <= i < |sent| && sent[i].call == ret.call;
      assert (sent + [d])[i].call == ret.call;
    }
  }

  /** The buffer and the lock: a step by t leaves every other thread's claim on the buffer intact. */
  lemma BufferKept(c: Cipher, s: State, a: Act)
    requires c.Lawful() && Inv(c, s) && Enabled(c, s, a)
    ensures var s' := Next(c, s, a);
            |s'.buf| == |s.buf| && Exclusive(s') && forall t :: Holds(c, s', PcOf(s', t))
  {
    hide Pack, Cipher.Lawful, Unsent, Apart, Right, Fair, Closed;
    var s' := Next(c, s, a);
    forall u: nat
      ensures Inside(PcOf(s', u)) <==> s'.holder == Some(u)
    {
      assert Inside(PcOf(s, u)) <==> s.holder == Some(u);
      assert Inside(PcOf(s, a.t)) <==> s.holder == Some(a.t);
    }
    forall u
      ensures Holds(c, s', PcOf(s', u))
    {
      assert Inside(PcOf(s, u)) <==> s.holder == Some(u);
      assert Inside(PcOf(s, a.t)) <==> s.holder == Some(a.t);
      if u == a.t {
        OwnClaim(c, s, a);
      }
    }
  }

  lemma OwnClaim(c: Cipher, s: State, a: Act)
    requires c.Lawful() && Inv(c, s) && Enabled(c, s, a)
    ensures Holds(c, Next(c, s, a), PcOf(Next(c, s, a), a.t))
  {
    hide Pack, Cipher.Lawful, Apart, Right, Exclusive, NotAmong, Closed;
    var pc := PcOf(s, a.t);
    assert Holds(c, s, pc) && Unsent(s, pc);
    match a
    case Salt(t) =>
      if pc.call.salt.Some? {
        assert Over(s.buf, pc.call.salt.value)[..c.saltSize] == pc.call.salt.value;
      } else {
        PackWithoutSalt(c, |s.buf|, pc.call.plain);
      }
    case Seal(t) =>
      var p := Pack(c, |s.buf|, Some(s.buf[..c.saltSize]), pc.call.plain);
      PackFits(c, |s.buf|, s.buf[..c.saltSize], pc.call.plain);
      if p.Ok? {
        assert Over(s.buf, p.value)[..|p.value|] == p.value;
      }
    case Send(t, accepted) =>
      if accepted {
        assert (s.sent + [Packet(pc.call, pc.call.addr, s.buf[..pc.n])])[|s.sent|].call == pc.call;
      }
    case _ =>
  }

  lemma PackWithoutSalt(c: Cipher, room: nat, plain: bytes)
    ensures Pack(c, room, None, plain) == Err(Other(0))
  {
  }

  lemma PackFits(c: Cipher, room: nat, salt: bytes, plain: bytes)
    requires c.Lawful() && |salt| == c.saltSize
    ensures Pack(c, room, Some(salt), plain).Ok? ==> |Pack(c, room, Some(salt), plain).value| <= room
  {
    if c.Session(salt).Some? {
      PackShort(c, room, salt, plain);
    }
  }

  /** The history: call identities stay apart, and every packet and every return is right. */
  lemma HistoryKept(c: Cipher, s: State, a: Act)
    requires c.Lawful() && Inv(c, s) && Enabled(c, s, a)
    ensures var s' := Next(c, s, a);
            && (forall t :: Unsent(s', PcOf(s', t)))
            && (forall t, t' :: t != t' ==> Apart(PcOf(s', t), PcOf(s', t')))
            && (forall i | 0 <= i < |s'.sent| :: Right(c, |s'.buf|, s'.sent[i]) && s'.sent[i].call.id < s'.next)
            && (forall i, j | 0 <= i < j < |s'.sent| :: s'.sent[i].call.id != s'.sent[j].call.id)
  {
    hide Pack, Cipher.Lawful, Exclusive, Fair, Closed;
    var s' := Next(c, s, a);
    var pc := PcOf(s, a.t);
    assert Unsent(s, pc) && Holds(c, s, pc);
    forall t
      ensures Unsent(s', PcOf(s', t))
    {
      assert Unsent(s, PcOf(s, t));
      assert t != a.t ==> Apart(PcOf(s, t), pc);
    }
    forall t, t' | t != t'
      ensures Apart(PcOf(s', t), PcOf(s', t'))
    {
      assert Apart(PcOf(s, t), PcOf(s, t'));
      assert Unsent(s, PcOf(s, t)) && Unsent(s, PcOf(s, t'));
    }
  }

  lemma ReturnsKept(c: Cipher, s: State, a: Act)
    requires Inv(c, s) && Enabled(c, s, a)
    ensures var s' := Next(c, s, a);
            && (|s'.buf| == |s.buf| ==> forall i | 0 <= i < |s'.returned| :: Fair(c, |s'.buf|, s'.sent, s'.returned[i]))
            && (forall i, t | 0 <= i < |s'.returned| :: Closed(s', PcOf(s', t), s'.returned[i]))
  {
    hide Pack, Cipher.Lawful, Exclusive, Fair, Right, NotAmong;
    var s' := Next(c, s, a);
    assert Holds(c, s, PcOf(s, a.t));
    forall i | 0 <= i < |s'.returned|
      ensures Fair(c, |s.buf|, s'.sent, s'.returned[i])
    {
      if i < |s.returned| {
        assert Closed(s, PcOf(s, a.t), s.returned[i]);
        if |s'.sent| > |s.sent| {
          FairLater(c, |s.buf|, s.sent, s'.sent[|s.sent|], s.returned[i]);
        }
      }
    }
    forall i, t | 0 <= i < |s'.returned|
      ensures Closed(s', PcOf(s', t), s'.returned[i])
    {
      assert Unsent(s, PcOf(s, a.t));
      if i < |s.returned| {
        assert Closed(s, PcOf(s, t), s.returned[i]) && Closed(s, PcOf(s, a.t), s.returned[i]);
      } else {
        assert t != a.t ==> Apart(PcOf(s, t), PcOf(s, a.t));
      }
    }
  }

  lemma NextKeeps(c: Cipher, s: State, a: Act)
    requires c.Lawful() && Inv(c, s) && Enabled(c, s, a)
    ensures Inv(c, Next(c, s, a))
  {
    hide Pack, Cipher.Lawful, Holds, Unsent, Apart, Right, Fair, Exclusive, Closed;
    var s' := Next(c, s, a);
    BufferKept(c, s, a);
    HistoryKept(c, s, a);
    ReturnsKept(c, s, a);
    SaltsKept(c, s, a);
  }

  lemma SaltsKept(c: Cipher, s: State, a: Act)
    requires Inv(c, s) && Enabled(c, s, a)
    ensures var s' := Next(c, s, a);
            && (forall t :: PcOf(s', t).Idle? || Drawn(c, PcOf(s', t).call))
            && (forall i | 0 <= i < |s'.returned| :: Drawn(c, s'.returned[i].call))
  {
    hide Pack, Holds, Unsent, Apart, Right, Fair, Exclusive, Closed;
    var s' := Next(c, s, a);
    assert PcOf(s, a.t).Idle? || Drawn(c, PcOf(s, a.t).call);
    forall t
      ensures PcOf(s', t).Idle? || Drawn(c, PcOf(s', t).call)
    {
      assert PcOf(s, t).Idle? || Drawn(c, PcOf(s, t).call);
    }
  }

  // ---------------------------------------------------------------- every run

  function Start(room: nat): State {
    State(Zeros(room), None, map[], 0, [], [])
  }

  ghost predicate Step(c: Cipher, s: State, s': State) {
    c.saltSize <= |s.buf| && exists a :: Enabled(c, s, a) && s' == Next(c, s, a)
  }

  ghost predicate Behaviour(c: Cipher, room: nat, trace: seq<State>) {
    && trace != [] && trace[0] == Start(room)
    && forall i | 0 < i < |trace| :: Step(c, trace[i - 1], trace[i])
  }

  lemma {:induction false} BehaviourInv(c: Cipher, room: nat, trace: seq<State>, i: nat)
    requires c.Lawful() && c.saltSize <= room && Behaviour(c, room, trace) && i < |trace|
    ensures Inv(c, trace[i]) && |trace[i].buf| == room
  {
    hide Next, Enabled, Inv, Cipher.Lawful;
    if i == 0 {
      StartInv(c, room);
    } else {
      BehaviourInv(c, room, trace, i - 1);
      assert Step(c, trace[i - 1], trace[i]);
      var a :| Enabled(c, trace[i - 1], a) && trace[i] == Next(c, trace[i - 1], a);
      NextKeeps(c, trace[i - 1], a);
      BufferKept(c, trace[i - 1], a);
    }
  }

  lemma StartInv(c: Cipher, room: nat)
    requires c.saltSize <= room
    ensures Inv(c, Start(room))
  {
  }

  /** However the callers interleave: every datagram that went out is the packing of one call's own
      payload with its own salt, to its own address; no call sent two; and a call returned success
      exactly if its datagram went out, and else its own error. */
  lemma EveryDatagramIsOneCalls(c: Cipher, room: nat, trace: seq<State>, k: nat)
    requires c.Lawful() && c.saltSize <= room && Behaviour(c, room, trace) && k < |trace|
    ensures var s := trace[k];
            && (forall i | 0 <= i < |s.sent| :: Right(c, room, s.sent[i]))
            && (forall i, j | 0 <= i < j < |s.sent| :: s.sent[i].call.id != s.sent[j].call.id)
            && (forall i | 0 <= i < |s.returned| :: Fair(c, room, s.sent, s.returned[i]))
  {
    hide Step, Cipher.Lawful, Holds, Unsent, Apart, Right, Fair, Exclusive;
    BehaviourInv(c, room, trace, k);
  }

  /** In every run, a send that the network accepts puts the packing of this call's payload out, and the
      call is about to return success; one that it refuses puts nothing out, and the call reports it. */
  lemma AcceptedIsOut(c: Cipher, room: nat, trace: seq<State>, k: nat, t: nat, accepted: bool)
    requires c.Lawful() && c.saltSize <= room && Behaviour(c, room, trace) && k < |trace|
    requires Enabled(c, trace[k], Send(t, accepted))
    ensures c.saltSize <= |trace[k].buf|
    ensures var s, s', call := trace[k], Next(c, trace[k], Send(t, accepted)), PcOf(trace[k], t).call;
            var packet := Packing(c, room, call);
            && packet.Ok?
            && s'.sent == (if accepted then s.sent + [Packet(call, call.addr, packet.value)] else s.sent)
            && PcOf(s', t) == Leaving(call, if accepted then Ok(|call.plain|) else Err(WriteFailed))
  {
    hide Step, Pack, Cipher.Lawful, Unsent, Apart, Right, Fair, Exclusive, Closed;
    BehaviourInv(c, room, trace, k);
    assert Holds(c, trace[k], PcOf(trace[k], t));
  }

  /** Who holds the lock can always go on towards giving it back. */
  lemma HolderGoesOn(c: Cipher, room: nat, trace: seq<State>, k: nat, t: nat)
    requires c.Lawful() && c.saltSize <= room && Behaviour(c, room, trace) && k < |trace|
    requires trace[k].holder == Some(t)
    ensures var s := trace[k];
            || Enabled(c, s, Salt(t)) || Enabled(c, s, Seal(t)) || Enabled(c, s, Unlock(t))
            || (Enabled(c, s, Send(t, true)) && Enabled(c, s, Send(t, false)))
  {
    hide Step, Pack, Cipher.Lawful, Holds, Unsent, Apart, Right, Fair, Closed;
    BehaviourInv(c, room, trace, k);
    assert Inside(PcOf(trace[k], t)) <==> trace[k].holder == Some(t);
  }

  lemma Extend(c: Cipher, room: nat, trace: seq<State>, a: Act) returns (trace': seq<State>)
    requires Behaviour(c, room, trace) && c.saltSize <= |trace[|trace| - 1].buf|
    requires Enabled(c, trace[|trace| - 1], a)
    ensures trace' == trace + [Next(c, trace[|trace| - 1], a)] && Behaviour(c, room, trace')
  {
    hide Next, Enabled;
    trace' := trace + [Next(c, trace[|trace| - 1], a)];
    forall i | 0 < i < |trace'|
      ensures Step(c, trace'[i - 1], trace'[i])
    {
      if i < |trace| {
        assert Step(c, trace[i - 1], trace[i]);
      }
    }
  }

  /** Whenever the lock is free, a call whose packet fits can go through and put it out. */
  lemma CallGoesThrough(c: Cipher, room: nat, trace: seq<State>, t: nat, plain: bytes, addr: nat, salt: bytes)
    returns (trace': seq<State>)
    requires c.Lawful() && c.saltSize <= room && Behaviour(c, room, trace)
    requires trace[|trace| - 1].holder == None && PcOf(trace[|trace| - 1], t).Idle?
    requires |salt| == c.saltSize && Pack(c, room, Some(salt), plain).Ok?
    ensures Behaviour(c, room, trace') && trace <= trace'
    ensures var s, s' := trace[|trace| - 1], trace'[|trace'| - 1];
            var call := Call(s.next, plain, addr, Some(salt));
            && s'.holder == None && PcOf(s', t).Idle?
            && s'.sent == s.sent + [Packet(call, addr, Pack(c, room, Some(salt), plain).value)]
            && s'.returned == s.returned + [Return(call, Ok(|plain|))]
  {
    hide Behaviour, Pack, Cipher.Lawful;
    var packet := Pack(c, room, Some(salt), plain).value;
    PackFits(c, room, salt, plain);
    LastBuf(c, room, trace);
    trace' := Extend(c, room, trace, Enter(t, plain, addr, Some(salt)));
    trace' := Extend(c, room, trace', Lock(t));
    trace' := Extend(c, room, trace', Salt(t));
    var buf := trace'[|trace'| - 1].buf;
    assert |buf| == room && buf[..c.saltSize] == salt;
    trace' := Extend(c, room, trace', Seal(t));
    assert trace'[|trace'| - 1].buf[..|packet|] == packet;
    trace' := Extend(c, room, trace', Send(t, true));
    trace' := Extend(c, room, trace', Unlock(t));
  }

  lemma LastBuf(c: Cipher, room: nat, trace: seq<State>)
    requires c.Lawful() && c.saltSize <= room && Behaviour(c, room, trace)
    ensures trace != [] && |trace[|trace| - 1].buf| == room
  {
    BehaviourInv(c, room, trace, |trace| - 1);
  }

  /** With working randomness, a call that has returned in any run got ErrShortBuffer exactly if its
      packet does not fit the buffer. */
  lemma ShortExactly(c: Cipher, room: nat, trace: seq<State>, k: nat, i: nat)
    requires c.Lawful() && c.saltSize <= room && Behaviour(c, room, trace) && k < |trace|
    requires i < |trace[k].returned|
    requires var call := trace[k].returned[i].call; call.salt.Some? && c.Session(call.salt.value).Some?
    ensures var ret := trace[k].returned[i];
            ret.r == Err(ShortBuffer)
            <==> c.saltSize + |ret.call.plain| + c.Session(ret.call.salt.value).value.overhead > room
  {
    hide Step, Pack, Cipher.Lawful, AEAD.Lawful, Holds, Unsent, Apart, Exclusive, Closed;
    BehaviourInv(c, room, trace, k);
    var s, ret := trace[k], trace[k].returned[i];
    assert Fair(c, room, s.sent, ret) && Drawn(c, ret.call);
    PackShort(c, room, ret.call.salt.value, ret.call.plain);
    if ret.r.Ok? {
      var j :| 0 <= j < |s.sent| && s.sent[j].call == ret.call;
      assert Right(c, room, s.sent[j]);
    }
  }
}
