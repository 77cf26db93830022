/**
 `ikcp_check` against `ikcp_update`: sleeping until the advised time misses
 nothing, and waking then is not too early.
 */
module KcpTimer {
  import opened U32
  import opened KcpModel

  /** A segment whose retransmission time has passed. */
  predicate Overdue(buf: seq<Seg>, now: u32) {
    exists s :: s in buf && TimeDiff(now, s.resendts) >= 0
  }

  lemma {:induction false} PacketWaitBounds(buf: seq<Seg>, now: u32, limit: nat)
    requires limit < HALF
    ensures var w := PacketWait(buf, now, limit);
            && w <= limit
            && (forall s :: s in buf ==> w <= Max(0, TimeDiff(s.resendts, now)))
            && (w == limit || exists s :: s in buf && w == Max(0, TimeDiff(s.resendts, now)))
  {
    if buf != [] {
      var init, last := buf[..|buf| - 1], buf[|buf| - 1];
      PacketWaitBounds(init, now, limit);
      assert buf == init + [last] && last in buf;
      forall s | s in buf ensures PacketWait(buf, now, limit) <= Max(0, TimeDiff(s.resendts, now)) {
        assert s in init || s == last;
      }
      if PacketWait(buf, now, limit) == PacketWait(init, now, limit) < limit {
        var s :| s in init && PacketWait(init, now, limit) == Max(0, TimeDiff(s.resendts, now));
        assert s in buf;
      }
    }
  }

  /** `k` later, a clock that was `d` ahead is `d - k` ahead. */
  lemma Later(now: u32, t: u32, k: nat)
    requires k < HALF
    ensures -HALF < k - TimeDiff(t, now) < HALF ==> TimeDiff(Wrap(now + k), t) == k - TimeDiff(t, now)
    ensures TimeDiff(t, now) > -HALF ==> TimeDiff(now, t) == -TimeDiff(t, now)
  {
    var d := TimeDiff(t, now);
    assert Wrap(t) == t && Wrap(now) == now;
    assert Wrap(now + d) == t;
    TimeDiffExact(now + k, now + d);
    TimeDiffExact(now, now + d);
  }

  lemma WrapBack(now: u32, w: nat)
    requires w < MODULUS
    ensures Wrap(Wrap(now + w) - now) == w
  {
  }

  /** The time until the advised moment. */
  function Sleep(cb: Cb, now: u32): nat {
    Wrap(Check(cb, now) - now)
  }

  lemma SleepIs(cb: Cb, now: u32)
    requires cb.ctl.updated && !FlushDue(cb.ctl, now)
    ensures var d := TimeDiff(cb.ctl.tsFlush, now);
            0 < d <= RESYNC && TimeDiff(now, cb.ctl.tsFlush) == -d
            && Sleep(cb, now) == Min(PacketWait(cb.snd.buf, now, d), cb.cfg.interval)
  {
    Later(cb.ctl.tsFlush, now, 0);
    var d := TimeDiff(cb.ctl.tsFlush, now);
    PacketWaitBounds(cb.snd.buf, now, d);
    var w := Min(PacketWait(cb.snd.buf, now, d), cb.cfg.interval);
    WrapBack(now, w);
  }

  /** At every moment before the advised one, `ikcp_update` would not flush and no
      segment is overdue; and the advice is at most one interval away. */
  lemma CheckNeverOversleeps(cb: Cb, now: u32, k: nat)
    requires cb.ctl.updated && k < Sleep(cb, now)
    ensures !FlushDue(cb.ctl, Wrap(now + k))
    ensures !Overdue(cb.snd.buf, Wrap(now + k))
    ensures Sleep(cb, now) <= cb.cfg.interval
  {
    assert !FlushDue(cb.ctl, now);
    SleepIs(cb, now);
    var d := TimeDiff(cb.ctl.tsFlush, now);
    PacketWaitBounds(cb.snd.buf, now, d);
    Later(now, cb.ctl.tsFlush, k);
    forall s | s in cb.snd.buf ensures TimeDiff(Wrap(now + k), s.resendts) < 0 {
      Later(now, s.resendts, k);
    }
  }

  /** A segment that `ikcp_check` takes to be due. */
  predicate Pending(buf: seq<Seg>, now: u32) {
    exists s :: s in buf && TimeDiff(s.resendts, now) <= 0
  }

  /** The advised moment is the first with something to do, or one interval on. */
  lemma CheckWakesForAReason(cb: Cb, now: u32)
    requires cb.ctl.updated
    ensures || FlushDue(cb.ctl, Check(cb, now))
            || Pending(cb.snd.buf, Check(cb, now))
            || Sleep(cb, now) == cb.cfg.interval
  {
    if !FlushDue(cb.ctl, now) {
      SleepIs(cb, now);
      var d, w := TimeDiff(cb.ctl.tsFlush, now), Sleep(cb, now);
      PacketWaitBounds(cb.snd.buf, now, d);
      assert Check(cb, now) == Wrap(now + w);
      if w == d {
        Later(now, cb.ctl.tsFlush, w);
      } else if w < cb.cfg.interval {
        var s :| s in cb.snd.buf && w == Max(0, TimeDiff(s.resendts, now));
        PendingAt(now, s, w);
      }
    }
  }

  lemma PendingAt(now: u32, s: Seg, w: nat)
    requires w == Max(0, TimeDiff(s.resendts, now))
    ensures TimeDiff(s.resendts, Wrap(now + w)) <= 0
  {
    var d := TimeDiff(s.resendts, now);
    assert Wrap(now + d) == s.resendts && Wrap(now) == now;
    TimeDiffExact(now + d, now + w);
  }

  // --------------------------------------------------------------- the deadline

  /** How far ahead the deadline of the next flush is. */
  function Ahead(cb: Cb, now: u32): int {
    TimeDiff(cb.ctl.tsFlush, now)
  }

  /** `ikcp_update` flushes unless the deadline is ahead by ten seconds at most. */
  lemma FlushesExactly(cb: Cb, now: u32)
    ensures FlushDue(cb.ctl, now) <==> !cb.ctl.updated || !(0 < Ahead(cb, now) <= 10000)
  {
    if cb.ctl.updated {
      Opposite(now, cb.ctl.tsFlush);
    }
  }

  lemma Opposite(a: u32, b: u32)
    ensures TimeDiff(a, b) == if TimeDiff(b, a) == -HALF then -HALF else -TimeDiff(b, a)
  {
  }

  /** When it does not flush it only reads the clock, and when it does the deadline is the
      only other thing that changes first. */
  lemma UpdateIs(cb: Cb, now: u32)
    requires cb.cfg.Valid()
    ensures !FlushDue(cb.ctl, now) ==> Update(cb, now) == (cb.(ctl := cb.ctl.(current := now)), [])
    ensures FlushDue(cb.ctl, now) ==>
              exists deadline: u32 ::
                var c := cb.(ctl := cb.ctl.(current := now, updated := true, tsFlush := deadline));
                Update(cb, now) == (Flush(c), Output(c))
  {
    hide FlushDue, NextFlush, Flush, Output;
    FlushesExactly(cb, now);
    if FlushDue(cb.ctl, now) {
      var deadline := Ticked(cb, now).ctl.tsFlush;
      assert Ticked(cb, now) == cb.(ctl := cb.ctl.(current := now, updated := true, tsFlush := deadline));
    }
  }

  lemma FlushKeepsDeadline(cb: Cb)
    requires cb.cfg.Valid()
    ensures Flush(cb).ctl.tsFlush == cb.ctl.tsFlush && Flush(cb).ctl.updated == cb.ctl.updated
  {
    hide Admitted, SweepOf, CountDue, LinkDead, SweptAll, Mul;
  }

  /** The arithmetic of the next deadline, on time and late. */
  lemma NextOnTime(tsFlush: u32, now: u32, interval: u32)
    requires 0 < interval < HALF && 0 <= TimeDiff(now, tsFlush) < Min(interval, RESYNC)
    ensures NextFlush(tsFlush, now, interval) == Wrap(tsFlush + interval)
    ensures TimeDiff(Wrap(tsFlush + interval), now) == interval - TimeDiff(now, tsFlush)
  {
    hide Wrap, TimeDiff;
    var slap := TimeDiff(now, tsFlush);
    Elapsed(now, tsFlush);
    TimeDiffExact(tsFlush + slap, tsFlush + interval);
    TimeDiffExact(tsFlush + interval, tsFlush + slap);
  }

  lemma NextAtMost(tsFlush: u32, now: u32, interval: u32)
    requires 0 < interval < HALF && (TimeDiff(now, tsFlush) >= 0 || TimeDiff(now, tsFlush) < -RESYNC)
    ensures 0 < TimeDiff(NextFlush(tsFlush, now, interval), now) <= interval
  {
    hide Wrap, TimeDiff;
    var slap := TimeDiff(now, tsFlush);
    Elapsed(now, tsFlush);
    Elapsed(now, now);
    TimeDiffExact(now + interval, now);
    TimeDiffExact(now, now + interval);
    if 0 <= slap < RESYNC {
      TimeDiffExact(tsFlush + slap, tsFlush + interval);
      TimeDiffExact(tsFlush + interval, tsFlush + slap);
    }
  }

  lemma DifferenceInRange(a: u32, b: u32)
    ensures -HALF <= TimeDiff(a, b) < HALF
  {
  }

  lemma Elapsed(now: u32, since: u32)
    ensures Wrap(since + TimeDiff(now, since)) == now && Wrap(now) == now
  {
  }

  /** After a flush the deadline is ahead, by one interval at most; on time it is exactly
      one interval later, so flushes keep their beat. */
  lemma DeadlineMovesOn(cb: Cb, now: u32)
    requires cb.cfg.Valid() && 0 < cb.cfg.interval < HALF && FlushDue(cb.ctl, now)
    ensures var r := Update(cb, now).0;
            && r.ctl.updated && 0 < Ahead(r, now) <= cb.cfg.interval
            && (cb.ctl.updated && 0 <= TimeDiff(now, cb.ctl.tsFlush) < Min(cb.cfg.interval, 10000) ==>
                  r.ctl.tsFlush == Wrap(cb.ctl.tsFlush + cb.cfg.interval))
  {
    hide Flush, NextFlush, TimeDiff, Wrap;
    var c := Clock(cb.ctl, now);
    SameTime(now);
    NextAtMost(c.tsFlush, now, cb.cfg.interval);
    if 0 <= TimeDiff(now, c.tsFlush) < Min(cb.cfg.interval, 10000) {
      NextOnTime(c.tsFlush, now, cb.cfg.interval);
    }
    FlushKeepsDeadline(Ticked(cb, now));
  }

  lemma SameTime(now: u32)
    ensures TimeDiff(now, now) == 0
  {
  }

  /** No second flush is due before it, at least for intervals of up to ten seconds, nor
      later than it; longer intervals flush at every call. */
  lemma OneFlushPerDeadline(cb: Cb, now: u32, k: nat)
    requires cb.cfg.Valid() && 0 < cb.cfg.interval < HALF && FlushDue(cb.ctl, now) && k < HALF
    ensures var r := Update(cb, now).0;
            FlushDue(r.ctl, Wrap(now + k)) <==> k >= Ahead(r, now) || Ahead(r, now) - k > 10000
  {
    hide Flush, NextFlush, Update, FlushDue;
    DeadlineMovesOn(cb, now);
    var r := Update(cb, now).0;
    FlushesExactly(r, Wrap(now + k));
    AheadLater(r.ctl.tsFlush, now, k);
  }

  lemma AheadLater(ts: u32, now: u32, k: nat)
    requires 0 < TimeDiff(ts, now) && k < HALF
    ensures TimeDiff(ts, Wrap(now + k)) == TimeDiff(ts, now) - k
  {
    hide Wrap, TimeDiff;
    Elapsed(ts, now);
    DifferenceInRange(ts, now);
    TimeDiffExact(now + TimeDiff(ts, now), now + k);
  }

  /** So right after a flush `ikcp_check` advises to come back at once only for a segment. */
  lemma CheckAfterFlush(cb: Cb, now: u32)
    requires cb.cfg.Valid() && 0 < cb.cfg.interval <= 10000 && FlushDue(cb.ctl, now)
    ensures var r := Update(cb, now).0; Check(r, now) == now ==> Pending(r.snd.buf, now)
  {
    hide Flush, NextFlush, Update, FlushDue;
    var r := Update(cb, now).0;
    DeadlineMovesOn(cb, now);
    OneFlushPerDeadline(cb, now, 0);
    UpdateKeepsConfig(cb, now);
    assert Wrap(now + 0) == now;
    if Check(r, now) == now {
      SleepIs(r, now);
      PacketWaitBounds(r.snd.buf, now, Ahead(r, now));
    }
  }

  lemma UpdateKeepsConfig(cb: Cb, now: u32)
    requires cb.cfg.Valid()
    ensures Update(cb, now).0.cfg == cb.cfg
  {
  }
}
