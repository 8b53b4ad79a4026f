/**
 The shared token bucket of pkg/throttle/throttle.go, in exact reals. The bucket is the limiter of
 golang.org/x/time/rate: it takes the caller's clock reading, which each writer makes before it gets the
 limiter's lock, so readings can reach it out of order; it then moves its clock back.
 */
module Throttle {
  import opened Prelude

  const BURST: nat := 1024 * 1024 * 1024

  datatype Limiter = Limiter(rate: real, tokens: real, last: real)

  /** A write in lock order: the clock reading and the bytes written. */
  datatype Write = Write(at: real, bytes: nat)

  function Min(a: real, b: real): real
  {
    if a <= b then a else b
  }

  function Refilled(l: Limiter, t: real): real
  {
    Min(BURST as real, if t < l.last then l.tokens else l.tokens + l.rate * (t - l.last))
  }

  /** ReserveN: the new bucket and the time to act, or no reservation when n exceeds the burst. */
  function Reserve(l: Limiter, t: real, n: nat): (Limiter, Option<real>)
    requires l.rate > 0.0
  {
    if n > BURST then (l, None) else
    var tokens := Refilled(l, t) - n as real;
    (Limiter(l.rate, tokens, t), Some(if tokens < 0.0 then t + (0.0 - tokens) / l.rate else t))
  }

  /** NewThrottler at time t: a full bucket, emptied at once. */
  function NewLimiter(rate: real, t: real): Limiter
    requires rate > 0.0
  {
    Reserve(Limiter(rate, BURST as real, t), t, BURST).0
  }

  class Throttler {
    var limiter: Limiter

    constructor (rate: real, now: real)
      requires rate > 0.0
      ensures limiter == NewLimiter(rate, now) && limiter.tokens == 0.0 && limiter.last == now && limiter.rate == rate
    {
      limiter := Reserve(Limiter(rate, BURST as real, now), now, BURST).0;
    }

    /**
     A writer's Write: written is what the wrapped writer took, or None if it failed; result is the time to
     sleep until.
     */
    method WriteBytes(written: Option<nat>, now: real) returns (until: Option<real>)
      requires limiter.rate > 0.0
      modifies this
      ensures limiter.rate == old(limiter).rate
      ensures written.None? ==> limiter == old(limiter) && until.None?
      ensures written.Some? ==> (limiter, until) == Reserve(old(limiter), now, written.value)
      ensures until.None? <==> written.None? || written.value > 1024 * 1024 * 1024
      ensures until.None? ==> limiter == old(limiter)
      ensures until.Some? ==> limiter.last == now && until.value >= now
    {
      if written.None? {
        return None;
      }
      var r := Reserve(limiter, now, written.value);
      limiter := r.0;
      until := r.1;
    }
  }

  /* ---------- Any number of writers, any interleaving ---------- */

  ghost predicate ErrorFree(ws: seq<Write>)
  {
    forall i :: 0 <= i < |ws| ==> ws[i].bytes <= BURST
  }

  function After(rate: real, start: real, ws: seq<Write>): (l: Limiter)
    requires rate > 0.0
    ensures l.rate == rate
  {
    if ws == [] then NewLimiter(rate, start)
    else Reserve(After(rate, start, ws[..|ws| - 1]), ws[|ws| - 1].at, ws[|ws| - 1].bytes).0
  }

  /** The earliest time the last write returns. */
  function TimeToAct(rate: real, start: real, ws: seq<Write>): real
    requires rate > 0.0 && ws != [] && ErrorFree(ws)
  {
    Reserve(After(rate, start, ws[..|ws| - 1]), ws[|ws| - 1].at, ws[|ws| - 1].bytes).1.value
  }

  function Bytes(ws: seq<Write>): nat
  {
    if ws == [] then 0 else Bytes(ws[..|ws| - 1]) + ws[|ws| - 1].bytes
  }

  /** The readings of the writes, in lock order. */
  function Readings(ws: seq<Write>): (ts: seq<real>)
    ensures |ts| == |ws|
    ensures forall i :: 0 <= i < |ws| ==> ts[i] == ws[i].at
  {
    seq(|ws|, i requires 0 <= i < |ws| => ws[i].at)
  }

  function Last(start: real, ts: seq<real>): real
  {
    if ts == [] then start else ts[|ts| - 1]
  }

  /** How far, in total, the readings step back from one reservation to the next. */
  function Skew(start: real, ws: seq<Write>): (d: real)
    ensures d >= 0.0
  {
    if ws == [] then 0.0 else
    var initial, at := ws[..|ws| - 1], ws[|ws| - 1].at;
    Skew(start, initial) + if at < Last(start, Readings(initial)) then Last(start, Readings(initial)) - at else 0.0
  }

  /* Arithmetic of one reservation, away from sequences. */

  lemma RefillStep(rate: real, tokens: real, bytes: real, last: real, offset: real, at: real)
    requires rate > 0.0 && last <= at
    requires tokens + bytes <= rate * (last + offset)
    ensures tokens + rate * (at - last) + bytes <= rate * (at + offset)
  {
    assert rate * (at + offset) == rate * (last + offset) + rate * (at - last);
  }

  lemma WaitStep(rate: real, tokens: real, bytes: real, last: real, offset: real, ends: real)
    requires rate > 0.0
    requires tokens + bytes <= rate * (last + offset)
    requires ends >= if tokens < 0.0 then last + (0.0 - tokens) / rate else last
    ensures bytes <= rate * (ends + offset)
  {
    var wait := ends - last;
    assert rate * (ends + offset) == rate * (last + offset) + rate * wait;
    if tokens < 0.0 {
      var needed := (0.0 - tokens) / rate;
      DivCancels(0.0 - tokens, rate);
      MulMonotone(rate, needed, wait);
    } else {
      MulMonotone(rate, 0.0, wait);
    }
  }

  lemma DivCancels(x: real, rate: real)
    requires rate > 0.0
    ensures rate * (x / rate) == x
  {
  }

  lemma MulMonotone(rate: real, a: real, b: real)
    requires rate > 0.0 && a <= b
    ensures rate * a <= rate * b
  {
    assert rate * (b - a) >= 0.0;
  }

  /** The amount is no more than the rate supplies in the given time. */
  ghost predicate Covered(rate: real, amount: real, time: real)
  {
    amount <= rate * time
  }

  /** One reservation keeps tokens plus bytes covered, the time growing by the advance and by any step back. */
  lemma ReserveCovered(l: Limiter, w: Write, bytes: nat, start: real, skew: real)
    requires l.rate > 0.0 && w.bytes <= BURST
    requires Covered(l.rate, l.tokens + bytes as real, l.last + (skew - start))
    ensures var l' := Reserve(l, w.at, w.bytes).0;
            var skew' := skew + if w.at < l.last then l.last - w.at else 0.0;
            l'.last == w.at && Covered(l.rate, l'.tokens + (bytes + w.bytes) as real, l'.last + (skew' - start))
  {
    if w.at < l.last {
      assert w.at + (skew + (l.last - w.at) - start) == l.last + (skew - start);
    } else {
      RefillStep(l.rate, l.tokens, bytes as real, l.last, skew - start, w.at);
    }
  }

  /** Tokens left plus bytes reserved never exceed what the rate has supplied, plus what the skew credits twice. */
  lemma {:induction false} Supply(rate: real, start: real, ws: seq<Write>) returns (l: Limiter)
    requires rate > 0.0 && ErrorFree(ws)
    ensures l == After(rate, start, ws) && l.last == Last(start, Readings(ws))
    ensures Covered(rate, l.tokens + Bytes(ws) as real, l.last + (Skew(start, ws) - start))
  {
    if ws == [] {
      l := NewLimiter(rate, start);
    } else {
      l := Supply(rate, start, ws[..|ws| - 1]);
      ReserveCovered(l, ws[|ws| - 1], Bytes(ws[..|ws| - 1]), start, Skew(start, ws[..|ws| - 1]));
      l := Reserve(l, ws[|ws| - 1].at, ws[|ws| - 1].bytes).0;
    }
  }

  function ActTime(l: Limiter): real
    requires l.rate > 0.0
  {
    if l.tokens < 0.0 then l.last + (0.0 - l.tokens) / l.rate else l.last
  }

  lemma TimeToActOf(rate: real, start: real, ws: seq<Write>, l: Limiter)
    requires rate > 0.0 && ws != [] && ErrorFree(ws) && l == After(rate, start, ws)
    ensures TimeToAct(rate, start, ws) == ActTime(l)
  {
  }

  lemma WaitCovered(l: Limiter, bytes: nat, start: real, skew: real, ends: real)
    requires l.rate > 0.0 && ends >= ActTime(l)
    requires Covered(l.rate, l.tokens + bytes as real, l.last + (skew - start))
    ensures Covered(l.rate, bytes as real, ends - start + skew)
  {
    WaitStep(l.rate, l.tokens, bytes as real, l.last, skew - start, ends);
    assert ends + (skew - start) == ends - start + skew;
  }

  /** For every interleaving: when a write returns, the bytes so far are within rate times elapsed time plus skew. */
  lemma RateBoundWithSkew(rate: real, start: real, ws: seq<Write>, ends: real)
    requires rate > 0.0 && ws != [] && ErrorFree(ws)
    requires ends >= TimeToAct(rate, start, ws)
    ensures Covered(rate, Bytes(ws) as real, ends - start + Skew(start, ws))
  {
    var l := Supply(rate, start, ws);
    TimeToActOf(rate, start, ws, l);
    WaitCovered(l, Bytes(ws), start, Skew(start, ws), ends);
  }

  /** The readings never step back, as with one writer at a time. */
  ghost predicate Ordered(start: real, ts: seq<real>)
  {
    forall i :: 0 <= i < |ts| ==> Last(start, ts[..i]) <= ts[i]
  }

  lemma OrderedSnoc(start: real, ts: seq<real>)
    requires ts != []
    ensures Ordered(start, ts) <==> Ordered(start, ts[..|ts| - 1]) && Last(start, ts[..|ts| - 1]) <= ts[|ts| - 1]
  {
    var initial := ts[..|ts| - 1];
    assert forall i :: 0 <= i < |initial| ==> initial[..i] == ts[..i] && initial[i] == ts[i];
  }

  lemma ReadingsOfPrefix(ws: seq<Write>, k: nat)
    requires k <= |ws|
    ensures Readings(ws[..k]) == Readings(ws)[..k]
  {
  }

  lemma {:induction false} OrderedNoSkew(start: real, ws: seq<Write>)
    requires Ordered(start, Readings(ws))
    ensures Skew(start, ws) == 0.0
  {
    if ws != [] {
      ReadingsOfPrefix(ws, |ws| - 1);
      OrderedSnoc(start, Readings(ws));
      OrderedNoSkew(start, ws[..|ws| - 1]);
    }
  }

  /** The rate bound: with readings in order, never more bytes than rate times the time since creation. */
  lemma RateBound(rate: real, start: real, ws: seq<Write>, ends: real)
    requires rate > 0.0 && ws != [] && ErrorFree(ws) && Ordered(start, Readings(ws))
    requires ends >= TimeToAct(rate, start, ws)
    ensures Bytes(ws) as real <= rate * (ends - start)
  {
    OrderedNoSkew(start, ws);
    RateBoundWithSkew(rate, start, ws, ends);
  }

  /* ---------- Exactly when the bound holds ---------- */

  /** The latest reading so far. A write that has just reserved has not returned before it. */
  function Latest(start: real, ts: seq<real>): (t: real)
    ensures Last(start, ts) <= t
  {
    if ts == [] then start else
    var before, at := Latest(start, ts[..|ts| - 1]), ts[|ts| - 1];
    if before < at then at else before
  }

  /**
   What the rate supplies while the clock readings advance, whatever is written, each reservation's share of
   the burst being the cap.
   */
  function Credit(rate: real, start: real, ts: seq<real>): real
  {
    if ts == [] then 0.0 else
    var initial, at := ts[..|ts| - 1], ts[|ts| - 1];
    Min((BURST * |ts|) as real, Credit(rate, start, initial) + Advance(rate, Last(start, initial), at))
  }

  function Advance(rate: real, last: real, at: real): real
  {
    if at < last then 0.0 else rate * (at - last)
  }

  /** When the last write returns: once it has slept, and after every reading already taken. */
  function Returns(rate: real, start: real, ws: seq<Write>): real
    requires rate > 0.0 && ws != [] && ErrorFree(ws)
  {
    Later(Latest(start, Readings(ws)), TimeToAct(rate, start, ws))
  }

  function Later(a: real, b: real): real
  {
    if b < a then a else b
  }

  /** At the return of the last write, the bytes so far are within the rate. */
  ghost predicate WithinRate(rate: real, start: real, ws: seq<Write>)
    requires rate > 0.0 && ws != [] && ErrorFree(ws)
  {
    Covered(rate, Bytes(ws) as real, Returns(rate, start, ws) - start)
  }

  ghost predicate KeepsRate(rate: real, start: real, ws: seq<Write>)
    requires rate > 0.0 && ErrorFree(ws)
  {
    forall k :: 0 < k <= |ws| ==> WithinRate(rate, start, ws[..k])
  }

  /** The readings alone: no credit beyond the last reading, or the latest one pays for the largest writes. */
  ghost predicate Harmless(rate: real, start: real, ts: seq<real>)
  {
    || Covered(rate, Credit(rate, start, ts), Last(start, ts) - start)
    || Covered(rate, (BURST * |ts|) as real, Latest(start, ts) - start)
  }

  /** Every write is as large as the limiter takes. */
  ghost predicate Largest(ws: seq<Write>)
  {
    forall i :: 0 <= i < |ws| ==> ws[i].bytes == BURST
  }

  /** Tokens left plus bytes reserved are at most the credit of the readings, and exactly it for the largest writes. */
  ghost predicate Credited(l: Limiter, bytes: nat, credit: real, n: nat, largest: bool)
  {
    && bytes <= BURST * n && l.tokens + bytes as real <= credit
    && (largest ==> bytes == BURST * n && l.tokens + bytes as real == credit)
  }

  lemma ReserveCredit(l: Limiter, w: Write, bytes: nat, credit: real, n: nat, largest: bool)
    requires l.rate > 0.0 && w.bytes <= BURST && (largest ==> w.bytes == BURST)
    requires Credited(l, bytes, credit, n, largest)
    ensures var credit' := Min((BURST * (n + 1)) as real, credit + Advance(l.rate, l.last, w.at));
            Credited(Reserve(l, w.at, w.bytes).0, bytes + w.bytes, credit', n + 1, largest)
  {
    var up := Advance(l.rate, l.last, w.at);
    assert Refilled(l, w.at) == Min(BURST as real, l.tokens + up);
    assert BURST * (n + 1) == BURST * n + BURST;
  }

  lemma {:induction false} CreditOf(rate: real, start: real, ws: seq<Write>) returns (l: Limiter)
    requires rate > 0.0 && ErrorFree(ws)
    ensures l == After(rate, start, ws) && l.last == Last(start, Readings(ws))
    ensures Credited(l, Bytes(ws), Credit(rate, start, Readings(ws)), |ws|, Largest(ws))
  {
    if ws == [] {
      l := NewLimiter(rate, start);
    } else {
      var initial, w := ws[..|ws| - 1], ws[|ws| - 1];
      var before := CreditOf(rate, start, initial);
      assert Readings(ws)[..|ws| - 1] == Readings(initial);
      ReserveCredit(before, w, Bytes(initial), Credit(rate, start, Readings(initial)), |initial|, Largest(ws));
      l := Reserve(before, w.at, w.bytes).0;
    }
  }

  /**
   Whether n bytes fit the rate at a return that has slept off what exceeds the credit and waited for the
   latest reading.
   */
  lemma FitsIff(l: Limiter, start: real, latest: real, n: real)
    requires l.rate > 0.0 && l.last <= latest
    ensures Covered(l.rate, n, Later(latest, ActTime(l)) - start) <==>
            Covered(l.rate, l.tokens + n, l.last - start) || Covered(l.rate, n, latest - start)
  {
    var act := ActTime(l);
    Spread(l.rate, l.last - start, latest - start);
    Spread(l.rate, act - start, latest - start);
    if l.tokens < 0.0 {
      SleptOff(l, start);
    }
  }

  /** Rate times time grows with time. */
  lemma Spread(rate: real, a: real, b: real)
    requires rate > 0.0
    ensures a <= b ==> rate * a <= rate * b
    ensures b <= a ==> rate * b <= rate * a
  {
    assert rate * (b - a) == rate * b - rate * a;
  }

  lemma SleptOff(l: Limiter, start: real)
    requires l.rate > 0.0 && l.tokens < 0.0
    ensures l.rate * (ActTime(l) - start) == l.rate * (l.last - start) - l.tokens
  {
    var wait := (0.0 - l.tokens) / l.rate;
    DivCancels(0.0 - l.tokens, l.rate);
    assert ActTime(l) - start == (l.last - start) + wait;
    assert l.rate * ((l.last - start) + wait) == l.rate * (l.last - start) + l.rate * wait;
  }

  lemma WithinRateIff(rate: real, start: real, ws: seq<Write>, l: Limiter)
    requires rate > 0.0 && ws != [] && ErrorFree(ws) && l == After(rate, start, ws)
    requires l.last == Last(start, Readings(ws))
    ensures WithinRate(rate, start, ws) <==>
            Covered(rate, l.tokens + Bytes(ws) as real, Last(start, Readings(ws)) - start) ||
            Covered(rate, Bytes(ws) as real, Latest(start, Readings(ws)) - start)
  {
    TimeToActOf(rate, start, ws, l);
    FitsIff(l, start, Latest(start, Readings(ws)), Bytes(ws) as real);
  }

  lemma CoveredLess(rate: real, a: real, b: real, time: real)
    requires a <= b && Covered(rate, b, time)
    ensures Covered(rate, a, time)
  {
  }

  /** The largest writes are the worst: harmless readings keep every write within the rate, others not the largest. */
  lemma LargestIsWorst(rate: real, start: real, ws: seq<Write>, ts: seq<real>)
    requires rate > 0.0 && ws != [] && ErrorFree(ws) && ts == Readings(ws)
    ensures Harmless(rate, start, ts) ==> WithinRate(rate, start, ws)
    ensures Largest(ws) && WithinRate(rate, start, ws) ==> Harmless(rate, start, ts)
  {
    var l := CreditOf(rate, start, ws);
    WithinRateIff(rate, start, ws, l);
    if Covered(rate, Credit(rate, start, ts), Last(start, ts) - start) {
      CoveredLess(rate, l.tokens + Bytes(ws) as real, Credit(rate, start, ts), Last(start, ts) - start);
    } else if Covered(rate, (BURST * |ts|) as real, Latest(start, ts) - start) {
      CoveredLess(rate, Bytes(ws) as real, (BURST * |ts|) as real, Latest(start, ts) - start);
    }
  }

  function LargestWrites(ts: seq<real>): (ws: seq<Write>)
    ensures ErrorFree(ws) && Largest(ws) && Readings(ws) == ts
  {
    seq(|ts|, i requires 0 <= i < |ts| => Write(ts[i], BURST))
  }

  /**
   The rate bound, exactly, for any number of writers and any readings: it holds at every return whatever is
   written if and only if every prefix of the readings is harmless.
   */
  lemma RateBoundIsExact(rate: real, start: real, ts: seq<real>)
    requires rate > 0.0
    ensures (forall ws :: ErrorFree(ws) && Readings(ws) == ts ==> KeepsRate(rate, start, ws)) <==>
            (forall k :: 0 < k <= |ts| ==> Harmless(rate, start, ts[..k]))
  {
    forall ws, k | ErrorFree(ws) && Readings(ws) == ts && 0 < k <= |ts|
      ensures Harmless(rate, start, ts[..k]) ==> WithinRate(rate, start, ws[..k])
      ensures Largest(ws) ==> (WithinRate(rate, start, ws[..k]) <==> Harmless(rate, start, ts[..k]))
    {
      ReadingsOfPrefix(ws, k);
      LargestIsWorst(rate, start, ws[..k], ts[..k]);
    }
    var worst := LargestWrites(ts);
    assert KeepsRate(rate, start, worst) ==> forall k :: 0 < k <= |ts| ==> Harmless(rate, start, ts[..k]);
  }

  /* ---------- Until the first burst: order ---------- */

  /** Every reading is at a time since creation worth less than a burst. */
  ghost predicate BelowBurst(rate: real, start: real, ts: seq<real>)
  {
    forall i :: 0 <= i < |ts| ==> start <= ts[i] && !Covered(rate, BURST as real, ts[i] - start)
  }

  /**
   Before the time is worth a burst the cap never bites: the credit is the last reading's time, more by any
   step back.
   */
  lemma {:induction false} CreditBelowBurst(rate: real, start: real, ts: seq<real>)
    requires rate > 0.0 && BelowBurst(rate, start, ts)
    ensures BelowCap(rate, Credit(rate, start, ts), Last(start, ts) - start, |ts|)
    ensures Ordered(start, ts) <==> Covered(rate, Credit(rate, start, ts), Last(start, ts) - start)
  {
    if ts == [] {
      NoTime(rate, start);
    } else {
      var n, last := |ts| - 1, Last(start, ts[..|ts| - 1]);
      CreditBelowBurst(rate, start, ts[..n]);
      OrderedSnoc(start, ts);
      AdvanceStep(rate, start, last, ts[n], Credit(rate, start, ts[..n]), n);
      assert Credit(rate, start, ts) == Min((BURST * (n + 1)) as real,
             Credit(rate, start, ts[..n]) + Advance(rate, last, ts[n]));
    }
  }

  lemma NoTime(rate: real, start: real)
    ensures BelowCap(rate, 0.0, start - start, 0) && Covered(rate, 0.0, start - start)
  {
    assert rate * (start - start) == 0.0;
  }

  /** The credit is at least what the time supplies, and below the cap of n reservations. */
  ghost predicate BelowCap(rate: real, credit: real, time: real, n: nat)
  {
    credit >= rate * time && (if n == 0 then credit == 0.0 else credit < (BURST * n) as real)
  }

  lemma AdvanceStep(rate: real, start: real, last: real, at: real, credit: real, n: nat)
    requires rate > 0.0 && start <= last && start <= at && !Covered(rate, BURST as real, at - start)
    requires BelowCap(rate, credit, last - start, n)
    ensures var credit' := Min((BURST * (n + 1)) as real, credit + Advance(rate, last, at));
            && BelowCap(rate, credit', at - start, n + 1)
            && (Covered(rate, credit', at - start) <==> last <= at && Covered(rate, credit, last - start))
  {
    var before, now, up := Worth(rate, start, last, at);
    CapStep(before, now, up, at < last, credit, n);
  }

  /** The products of one advance, by their signs and sum. */
  lemma Worth(rate: real, start: real, last: real, at: real) returns (before: real, now: real, up: real)
    requires rate > 0.0 && start <= last
    ensures before == rate * (last - start) && now == rate * (at - start) && up == rate * (at - last)
    ensures now == before + up && before >= 0.0 && (if at < last then up < 0.0 else up >= 0.0)
  {
    before, now, up := rate * (last - start), rate * (at - start), rate * (at - last);
    Between(rate, start, last, at);
    Sign(rate, last - start);
    Sign(rate, at - last);
  }

  lemma Sign(rate: real, x: real)
    requires rate > 0.0
    ensures x >= 0.0 ==> rate * x >= 0.0
    ensures x < 0.0 ==> rate * x < 0.0
  {
  }

  lemma Between(rate: real, a: real, b: real, c: real)
    ensures rate * (c - a) == rate * (b - a) + rate * (c - b)
  {
  }

  lemma CapStep(before: real, now: real, up: real, back: bool, credit: real, n: nat)
    requires now == before + up && before >= 0.0 && now < BURST as real && (if back then up < 0.0 else up >= 0.0)
    requires credit >= before && (if n == 0 then credit == 0.0 else credit < (BURST * n) as real)
    ensures var credit' := Min((BURST * (n + 1)) as real, credit + if back then 0.0 else up);
            && now <= credit' < (BURST * (n + 1)) as real
            && (credit' <= now <==> !back && credit <= before)
  {
    assert (BURST * (n + 1)) as real == (BURST * n) as real + BURST as real;
  }

  lemma {:induction false} LatestIsReading(start: real, ts: seq<real>) returns (i: nat)
    requires ts != [] && forall i :: 0 <= i < |ts| ==> start <= ts[i]
    ensures i < |ts| && Latest(start, ts) == ts[i]
  {
    i := |ts| - 1;
    if Latest(start, ts) != ts[i] && i > 0 {
      i := LatestIsReading(start, ts[..i]);
    }
  }

  lemma HarmlessIffOrdered(rate: real, start: real, ts: seq<real>)
    requires rate > 0.0 && ts != [] && BelowBurst(rate, start, ts)
    ensures Harmless(rate, start, ts) <==> Ordered(start, ts)
  {
    CreditBelowBurst(rate, start, ts);
    var i := LatestIsReading(start, ts);
    assert !Covered(rate, BURST as real, ts[i] - start);
    if Covered(rate, (BURST * |ts|) as real, Latest(start, ts) - start) {
      CoveredLess(rate, BURST as real, (BURST * |ts|) as real, Latest(start, ts) - start);
    }
  }

  lemma {:induction false} OrderedPrefixes(start: real, ts: seq<real>)
    ensures Ordered(start, ts) <==> forall k :: 0 < k <= |ts| ==> Ordered(start, ts[..k])
  {
    assert ts[..|ts|] == ts;
    forall k | 0 < k <= |ts| && Ordered(start, ts)
      ensures Ordered(start, ts[..k])
    {
      assert forall i :: 0 <= i < k ==> ts[..k][..i] == ts[..i] && ts[..k][i] == ts[i];
    }
  }

  /**
   While the time since creation is worth less than a burst, any number of writers keep the rate at every
   return whatever they write, if and only if their readings reach the limiter in order.
   */
  lemma OrderIsExact(rate: real, start: real, ts: seq<real>)
    requires rate > 0.0 && BelowBurst(rate, start, ts)
    ensures (forall ws :: ErrorFree(ws) && Readings(ws) == ts ==> KeepsRate(rate, start, ws)) <==> Ordered(start, ts)
  {
    RateBoundIsExact(rate, start, ts);
    forall k | 0 < k <= |ts|
      ensures Harmless(rate, start, ts[..k]) <==> Ordered(start, ts[..k])
    {
      HarmlessIffOrdered(rate, start, ts[..k]);
    }
    OrderedPrefixes(start, ts);
  }

  /**
   Order is needed: at one byte a second, a reading of 1s reaching the limiter after one of 2s lets three
   bytes out by 2s.
   */
  lemma OutOfOrderExceeds()
    ensures var ws := [Write(2.0, 0), Write(1.0, 3)];
            && TimeToAct(1.0, 0.0, ws) == Returns(1.0, 0.0, ws) == 2.0
            && !WithinRate(1.0, 0.0, ws)
  {
    var ws := [Write(2.0, 0), Write(1.0, 3)];
    assert ws[..1] == [Write(2.0, 0)] && ws[..1][..0] == [];
    assert After(1.0, 0.0, ws[..1]) == Limiter(1.0, 2.0, 2.0);
    assert Bytes(ws[..1]) == 0;
    var ts := Readings(ws);
    assert ts == [2.0, 1.0] && ts[..1] == [2.0] && ts[..1][..0] == [];
    assert Latest(0.0, ts[..1]) == 2.0;
  }

  /**
   The cap at work: two writers keep the rate out of order too, once the earlier reading is worth a burst or
   the later one two.
   */
  lemma TwoWriters(rate: real, start: real, t1: real, t2: real)
    requires rate > 0.0 && start <= t1 && start <= t2
    ensures (forall ws :: ErrorFree(ws) && Readings(ws) == [t1, t2] ==> KeepsRate(rate, start, ws)) <==>
            t1 <= t2 || rate * (t2 - start) >= BURST as real || rate * (t1 - start) >= (2 * BURST) as real
  {
    RateBoundIsExact(rate, start, [t1, t2]);
    assert [t1, t2][..1] == [t1] && [t1][..0] == [] && [t1, t2][..2] == [t1, t2];
    TwoReadings(rate, start, t1, t2);
  }

  lemma TwoReadings(rate: real, start: real, t1: real, t2: real)
    requires rate > 0.0 && start <= t1 && start <= t2
    ensures Harmless(rate, start, [t1])
    ensures Harmless(rate, start, [t1, t2]) <==>
            t1 <= t2 || rate * (t2 - start) >= BURST as real || rate * (t1 - start) >= (2 * BURST) as real
  {
    var first, second, up := Worth(rate, start, t1, t2);
    FirstCredit(rate, start, t1);
    SecondCredit(rate, start, t1, t2, first, second, up);
    TwoStep(first, second, up, t2 < t1, Min(BURST as real, first));
  }

  /** Harmlessness of two readings, over what the readings are worth. */
  lemma SecondCredit(rate: real, start: real, t1: real, t2: real, first: real, second: real, up: real)
    requires rate > 0.0 && start <= t1 && start <= t2
    requires first == rate * (t1 - start) && second == rate * (t2 - start) && up == rate * (t2 - t1)
    ensures var credit := Min((BURST * 2) as real, Min(BURST as real, first) + if t2 < t1 then 0.0 else up);
            Harmless(rate, start, [t1, t2]) <==>
            credit <= second || (BURST * 2) as real <= if t2 < t1 then first else second
  {
    var ts := [t1, t2];
    assert ts[..1] == [t1];
    FirstCredit(rate, start, t1);
    assert Latest(start, ts) == if t2 < t1 then t1 else t2;
    assert Credit(rate, start, ts) == Min((BURST * 2) as real, Min(BURST as real, first) + if t2 < t1 then 0.0 else up);
  }

  lemma FirstCredit(rate: real, start: real, t: real)
    requires rate > 0.0 && start <= t
    ensures Credit(rate, start, [t]) == Min(BURST as real, rate * (t - start))
    ensures Latest(start, [t]) == t && Harmless(rate, start, [t])
  {
    assert [t][..0] == [];
    assert Credit(rate, start, []) == 0.0 && Latest(start, []) == start;
  }

  /** The credit of the second reading, over what the readings are worth. */
  lemma TwoStep(first: real, second: real, up: real, back: bool, credit: real)
    requires second == first + up && first >= 0.0 && (if back then up < 0.0 else up >= 0.0)
    requires credit == Min(BURST as real, first)
    ensures var credit' := Min((BURST * 2) as real, credit + if back then 0.0 else up);
            credit' <= second || (BURST * 2) as real <= (if back then first else second) <==>
            !back || second >= BURST as real || first >= (2 * BURST) as real
  {
  }
}
