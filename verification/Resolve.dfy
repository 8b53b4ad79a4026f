/**
 P2PRouter.Resolve (pkg/routing/p2p.go): a goroutine that filters the providers of a key and hands them
 over on a bounded channel without ever blocking, and a consumer that reads at any speed. The lookup
 itself belongs to libp2p; it is an environment that yields providers one by one and ends.
 */
module Resolve {
  import opened Prelude

  /** A multiaddress as ipInMultiaddr sees it. */
  datatype Multiaddr = WithIp(ip: string) | WithoutIp

  datatype Provider = Provider(id: string, addrs: seq<Multiaddr>)

  datatype Peer = Peer(ip: string, port: nat)

  datatype Call = Call(self: string, port: nat, allowSelf: bool, count: nat)

  const UNLIMITED_BUFFER: nat := 20

  function Capacity(call: Call): (r: nat)
    ensures r > 0
  {
    if call.count == 0 then UNLIMITED_BUFFER else call.count
  }

  /** The endpoint a provider contributes, if it passes the filters. */
  function Endpoint(call: Call, p: Provider): Option<Peer>
  {
    if !call.allowSelf && p.id == call.self then None
    else if |p.addrs| != 1 then None
    else if p.addrs[0].WithoutIp? then None
    else Some(Peer(p.addrs[0].ip, call.port))
  }

  function Eligible(call: Call, ps: seq<Provider>): seq<Peer>
  {
    if ps == [] then [] else
    var rest := Eligible(call, ps[..|ps| - 1]);
    match Endpoint(call, ps[|ps| - 1])
    case None => rest
    case Some(peer) => rest + [peer]
  }

  datatype State = State(
    seen: seq<Provider>,         // providers fully handled by the goroutine
    pending: Option<Provider>,   // provider received and not yet handled
    buffer: seq<Peer>,
    delivered: seq<Peer>,        // peers the consumer has received
    dropped: nat,
    closed: bool)

  datatype Step = Yield(p: Provider) | Handle | Close | Consume

  const START := State([], None, [], [], 0, false)

  predicate Enabled(s: State, step: Step)
  {
    match step
    case Yield(_) => s.pending.None? && !s.closed
    case Handle => s.pending.Some?
    case Close => s.pending.None? && !s.closed
    case Consume => s.buffer != []
  }

  function Apply(call: Call, s: State, step: Step): State
    requires Enabled(s, step)
  {
    match step
    case Yield(p) => s.(pending := Some(p))
    case Handle =>
      var done := s.(seen := s.seen + [s.pending.value], pending := None);
      (match Endpoint(call, s.pending.value)
       case None => done
       case Some(peer) =>
         if |s.buffer| < Capacity(call) then done.(buffer := s.buffer + [peer])
         else done.(dropped := s.dropped + 1))
    case Close => s.(closed := true)
    case Consume => s.(buffer := s.buffer[1..], delivered := s.delivered + [s.buffer[0]])
  }

  /** The state after the given steps, or None if one of them was not enabled. */
  function Exec(call: Call, steps: seq<Step>): Option<State>
  {
    if steps == [] then Some(START) else
    match Exec(call, steps[..|steps| - 1])
    case None => None
    case Some(before) =>
      if Enabled(before, steps[|steps| - 1]) then Some(Apply(call, before, steps[|steps| - 1])) else None
  }

  ghost predicate Run(call: Call, steps: seq<Step>, s: State)
  {
    Exec(call, steps) == Some(s)
  }

  function Kept(s: State): seq<Peer>
  {
    s.delivered + s.buffer
  }

  /** The peers kept and the number dropped account for the eligible ones. */
  ghost predicate Accounts(kept: seq<Peer>, dropped: nat, eligible: seq<Peer>, capacity: nat)
  {
    && IsSubsequence(kept, eligible)
    && |eligible| == |kept| + dropped
    && (dropped == 0 ==> kept == eligible)
    && (dropped > 0 ==> |eligible| > capacity)
  }

  ghost predicate Inv(call: Call, s: State)
  {
    && |s.buffer| <= Capacity(call)
    && Accounts(Kept(s), s.dropped, Eligible(call, s.seen), Capacity(call))
    && (s.closed ==> s.pending.None?)
  }

  lemma SubsequenceSnoc<T>(a: seq<T>, b: seq<T>, x: T)
    requires IsSubsequence(a, b)
    ensures IsSubsequence(a, b + [x]) && IsSubsequence(a + [x], b + [x])
  {
    assert (b + [x])[..|b|] == b && (a + [x])[..|a|] == a;
    SubsequenceExtendRight(a, b, [x]);
  }

  lemma EligibleSnoc(call: Call, ps: seq<Provider>, p: Provider)
    ensures Eligible(call, ps + [p]) ==
            match Endpoint(call, p) case None => Eligible(call, ps) case Some(peer) => Eligible(call, ps) + [peer]
  {
    assert (ps + [p])[..|ps|] == ps;
  }

  lemma AccountsSnoc(kept: seq<Peer>, dropped: nat, eligible: seq<Peer>, capacity: nat, peer: Peer)
    requires Accounts(kept, dropped, eligible, capacity)
    ensures Accounts(kept + [peer], dropped, eligible + [peer], capacity)
    ensures capacity <= |kept| ==> Accounts(kept, dropped + 1, eligible + [peer], capacity)
  {
    SubsequenceSnoc(kept, eligible, peer);
  }

  lemma HandleKeepsInv(call: Call, s: State)
    requires Inv(call, s) && Enabled(s, Handle)
    ensures Inv(call, Apply(call, s, Handle))
  {
    var p, eligible := s.pending.value, Eligible(call, s.seen);
    EligibleSnoc(call, s.seen, p);
    if Endpoint(call, p).Some? {
      var peer := Endpoint(call, p).value;
      AccountsSnoc(Kept(s), s.dropped, eligible, Capacity(call), peer);
      assert s.delivered + (s.buffer + [peer]) == Kept(s) + [peer];
    }
  }

  lemma StepKeepsInv(call: Call, s: State, step: Step)
    requires Inv(call, s) && Enabled(s, step)
    ensures Inv(call, Apply(call, s, step))
  {
    match step
    case Handle => HandleKeepsInv(call, s);
    case Consume => assert Kept(Apply(call, s, step)) == Kept(s);
    case _ =>
  }

  lemma {:induction false} RunKeepsInv(call: Call, steps: seq<Step>, s: State)
    requires Run(call, steps, s)
    ensures Inv(call, s)
  {
    if steps != [] {
      var before := Exec(call, steps[..|steps| - 1]).value;
      RunKeepsInv(call, steps[..|steps| - 1], before);
      StepKeepsInv(call, before, steps[|steps| - 1]);
    }
  }

  lemma {:induction false} EligibleMembers(call: Call, ps: seq<Provider>, peer: Peer)
    requires peer in Eligible(call, ps)
    ensures exists p :: p in ps && Endpoint(call, p) == Some(peer)
  {
    var initial, last := ps[..|ps| - 1], ps[|ps| - 1];
    if Endpoint(call, last) == Some(peer) {
      assert last in ps;
    } else {
      EligibleMembers(call, initial, peer);
      var p :| p in initial && Endpoint(call, p) == Some(peer);
      assert p in ps;
    }
  }

  lemma {:induction false} EligibleBound(call: Call, ps: seq<Provider>)
    ensures |Eligible(call, ps)| <= |ps|
  {
    if ps != [] {
      EligibleBound(call, ps[..|ps| - 1]);
    }
  }

  /** The provider has exactly one address, of this ip, and is not this node unless that is allowed. */
  predicate Usable(call: Call, q: Provider, ip: string)
  {
    q.addrs == [WithIp(ip)] && (call.allowSelf || q.id != call.self)
  }

  lemma EndpointIff(call: Call, q: Provider, peer: Peer)
    ensures Endpoint(call, q) == Some(peer) <==> Usable(call, q, peer.ip) && peer.port == call.port
  {
  }

  /** How many of the providers are usable. */
  function UsableCount(call: Call, ps: seq<Provider>): nat
  {
    if ps == [] then 0 else
    var q := ps[|ps| - 1];
    UsableCount(call, ps[..|ps| - 1]) +
    if |q.addrs| == 1 && q.addrs[0].WithIp? && (call.allowSelf || q.id != call.self) then 1 else 0
  }

  lemma {:induction false} EligibleCount(call: Call, ps: seq<Provider>)
    ensures |Eligible(call, ps)| == UsableCount(call, ps)
  {
    if ps != [] {
      EligibleCount(call, ps[..|ps| - 1]);
    }
  }

  lemma {:induction false} EligibleHas(call: Call, ps: seq<Provider>, q: Provider)
    requires q in ps && Endpoint(call, q).Some?
    ensures Endpoint(call, q).value in Eligible(call, ps)
  {
    var initial, last := ps[..|ps| - 1], ps[|ps| - 1];
    if q in initial {
      EligibleHas(call, initial, q);
    } else {
      assert q == last;
    }
  }

  /**
   In every state of every run: the buffer is within its capacity; the goroutine can take its next step
   whatever the consumer does; what has been handed over is an in-order subsequence of the eligible
   providers, with every missing one counted as dropped; and every delivered peer is at the registry's port
   and at the one address of a provider that is not this node, unless self is allowed.
   */
  lemma RunGuarantees(call: Call, steps: seq<Step>, s: State)
    requires Run(call, steps, s)
    ensures |s.buffer| <= Capacity(call)
    ensures !s.closed ==> if s.pending.Some? then Enabled(s, Handle) else Enabled(s, Close)
    ensures IsSubsequence(Kept(s), Eligible(call, s.seen)) && UsableCount(call, s.seen) == |Kept(s)| + s.dropped
    ensures forall peer :: peer in s.delivered ==>
              peer.port == call.port && exists q :: q in s.seen && Usable(call, q, peer.ip)
  {
    RunKeepsInv(call, steps, s);
    EligibleCount(call, s.seen);
    forall peer | peer in s.delivered
      ensures peer.port == call.port && exists q :: q in s.seen && Usable(call, q, peer.ip)
    {
      assert peer in Kept(s);
      SubsequenceMember(Kept(s), Eligible(call, s.seen), peer);
      EligibleMembers(call, s.seen, peer);
      var q :| q in s.seen && Endpoint(call, q) == Some(peer);
      EndpointIff(call, q, peer);
    }
  }

  /**
   A lookup that honours count > 0, or any that stays within the capacity, loses nothing at any consumer
   speed: once the channel is closed and drained, exactly the usable providers have been delivered, each at
   its address and the registry's port.
   */
  lemma NothingDropped(call: Call, steps: seq<Step>, s: State)
    requires Run(call, steps, s)
    requires |s.seen| <= Capacity(call)
    ensures s.dropped == 0 && Kept(s) == Eligible(call, s.seen)
    ensures |s.delivered| <= Capacity(call)
    ensures s.closed && s.buffer == [] ==>
              && s.delivered == Eligible(call, s.seen) && |s.delivered| == UsableCount(call, s.seen)
              && forall q, ip :: q in s.seen && Usable(call, q, ip) ==> Peer(ip, call.port) in s.delivered
  {
    RunKeepsInv(call, steps, s);
    EligibleBound(call, s.seen);
    EligibleCount(call, s.seen);
    forall q, ip | q in s.seen && Usable(call, q, ip)
      ensures Peer(ip, call.port) in Eligible(call, s.seen)
    {
      EndpointIff(call, q, Peer(ip, call.port));
      EligibleHas(call, s.seen, q);
    }
  }

  /** The schedule in which the consumer never reads: Yield and Handle, n times. */
  function Unread(p: Provider, n: nat): seq<Step>
  {
    if n == 0 then [] else Unread(p, n - 1) + [Yield(p), Handle]
  }

  function UnreadState(call: Call, p: Provider, peer: Peer, n: nat): State
  {
    var room := if call.count == 0 then 20 else call.count;
    var kept := if n <= room then n else room;
    State(seq(n, _ => p), None, seq(kept, _ => peer), [], n - kept, false)
  }

  /**
   The capacity is exact: with no reader, n eligible providers lose exactly those beyond the count, or
   beyond 20 without one.
   */
  lemma {:induction false} UnreadDrops(call: Call, p: Provider, n: nat)
    requires Endpoint(call, p).Some?
    ensures Run(call, Unread(p, n), UnreadState(call, p, Endpoint(call, p).value, n))
  {
    var peer := Endpoint(call, p).value;
    if n == 0 {
      assert UnreadState(call, p, peer, 0) == START;
    } else {
      UnreadDrops(call, p, n - 1);
      var before, after := UnreadState(call, p, peer, n - 1), UnreadState(call, p, peer, n);
      var steps := Unread(p, n);
      var middle := Apply(call, before, Yield(p));
      assert steps[..|steps| - 1][..|steps| - 2] == Unread(p, n - 1);
      assert steps[..|steps| - 1][|steps| - 2] == Yield(p);
      assert Run(call, steps[..|steps| - 1], middle);
      assert after == Apply(call, middle, Handle);
      assert steps[|steps| - 1] == Handle;
    }
  }
}
