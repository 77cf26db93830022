/**
 What every operation of one endpoint keeps, whatever bytes arrive.
 */
module KcpInvariants {
  import opened U32
  import opened KcpCodec
  import opened KcpModel

  ghost predicate Ascending(buf: seq<Seg>) {
    forall i, j :: 0 <= i < j < |buf| ==> buf[i].sn < buf[j].sn
  }

  ghost predicate Within(buf: seq<Seg>, lo: int, hi: int) {
    forall s :: s in buf ==> lo <= s.sn < hi
  }

  ghost predicate Fits(segs: seq<Seg>, mss: nat) {
    forall s :: s in segs ==> |s.data| <= mss && s.frg < WND_RCV
  }

  /** `snd_buf` is strictly ascending in `[snd_una, snd_nxt)`, `snd_una` is its
      head, and no more than a window is outstanding. */
  ghost predicate SenderInv(wnd: nat, mss: nat, s: Sender) {
    && 0 <= s.una <= s.nxt <= s.una + wnd
    && s.una == Shrink(s).una
    && Ascending(s.buf) && Within(s.buf, s.una, s.nxt)
    && Fits(s.buf, mss) && Fits(s.queue, mss)
  }

  /** Segments the application has taken out of `rcv_queue`. */
  function Taken(r: Receiver): int {
    r.nxt - |r.queue|
  }

  ghost predicate Consecutive(q: seq<Seg>, first: int) {
    forall i :: 0 <= i < |q| ==> q[i].sn == first + i
  }

  ghost predicate WindowInv(wnd: nat, r: Receiver) {
    && 0 <= Taken(r)
    && |r.queue| <= wnd
    && |r.acks| <= ACK_BLOCK
    && Ascending(r.buf) && Within(r.buf, r.nxt, r.nxt + wnd)
    && Consecutive(r.queue, Taken(r))
  }

  /** The segment at `rcv_nxt` waits in `rcv_buf` only while `rcv_queue` is full. */
  predicate Settled(wnd: nat, r: Receiver) {
    r.buf != [] && r.buf[0].sn == r.nxt ==> |r.queue| == wnd
  }

  /** `rcv_buf` is strictly ascending and inside the receive window, `rcv_queue`
      holds the indices just below `rcv_nxt`, and nothing that could move waits. */
  ghost predicate ReceiverInv(wnd: nat, r: Receiver) {
    WindowInv(wnd, r) && Settled(wnd, r)
  }

  ghost predicate Inv(cb: Cb) {
    && cb.cfg.Valid()
    && SenderInv(cb.cfg.sndWnd, cb.cfg.Mss(), cb.snd)
    && ReceiverInv(cb.cfg.rcvWnd, cb.rcv)
  }

  ghost function Sns(buf: seq<Seg>): set<int> {
    set s | s in buf :: s.sn
  }

  /** What the receiver holds or has passed on. */
  ghost predicate Received(r: Receiver, sn: int) {
    sn < r.nxt || sn in Sns(r.buf)
  }

  // -------------------------------------------------------------- list walks

  lemma {:induction false} DropBelowEffect(buf: seq<Seg>, una: int)
    requires Ascending(buf)
    ensures Ascending(DropBelow(buf, una))
    ensures forall s :: s in DropBelow(buf, una) <==> s in buf && s.sn >= una
  {
    if buf != [] && buf[0].sn < una {
      DropBelowEffect(buf[1..], una);
      assert buf == [buf[0]] + buf[1..];
    }
  }

  lemma {:induction false} RemoveEffect(buf: seq<Seg>, sn: int)
    requires Ascending(buf)
    ensures Ascending(Remove(buf, sn))
    ensures forall s :: s in Remove(buf, sn) <==> s in buf && s.sn != sn
  {
    if buf == [] || sn < buf[0].sn {
    } else {
      assert buf == [buf[0]] + buf[1..];
      if buf[0].sn != sn {
        RemoveEffect(buf[1..], sn);
        var r := Remove(buf[1..], sn);
        forall j | 0 <= j < |r| ensures buf[0].sn < r[j].sn {
          assert r[j] in buf[1..];
        }
      }
    }
  }

  /** Only the duplicate-ack counters change. */
  ghost predicate SameButFastack(a: seq<Seg>, b: seq<Seg>) {
    |a| == |b| && forall i :: 0 <= i < |a| ==> a[i] == b[i].(fastack := a[i].fastack)
  }

  lemma {:induction false} SkippedEffect(buf: seq<Seg>, sn: int)
    ensures SameButFastack(Skipped(buf, sn), buf)
  {
    if buf == [] || sn < buf[0].sn {
    } else {
      SkippedEffect(buf[1..], sn);
    }
  }

  lemma InsertEffect(buf: seq<Seg>, s: Seg)
    requires Ascending(buf)
    ensures Ascending(Insert(buf, s))
    ensures forall t :: t in Insert(buf, s) <==> t in buf || (t == s && s.sn !in Sns(buf))
    ensures Sns(Insert(buf, s)) == Sns(buf) + {s.sn}
  {
    hide Insert, Sns, Ascending;
    InsertMembers(buf, s);
    InsertAscending(buf, s);
    InsertSns(buf, s);
  }

  lemma SnsSnoc(buf: seq<Seg>, last: Seg)
    ensures Sns(buf + [last]) == Sns(buf) + {last.sn}
  {
    forall x | x in Sns(buf) + {last.sn} ensures x in Sns(buf + [last]) {
      var t :| t in buf + [last] && t.sn == x;
    }
  }

  lemma NotAmong(buf: seq<Seg>, sn: int)
    requires Ascending(buf) && (buf == [] || buf[|buf| - 1].sn < sn)
    ensures sn !in Sns(buf) && forall t :: t in buf ==> t.sn < sn
  {
    forall t | t in buf ensures t.sn < sn {
      var i :| 0 <= i < |buf| && buf[i] == t;
    }
  }

  lemma AscendingInit(buf: seq<Seg>)
    requires Ascending(buf) && buf != []
    ensures var init, last := buf[..|buf| - 1], buf[|buf| - 1];
            buf == init + [last] && Ascending(init) && forall t :: t in init ==> t.sn < last.sn
  {
    var init := buf[..|buf| - 1];
    forall t | t in init ensures t.sn < buf[|buf| - 1].sn {
      var i :| 0 <= i < |init| && init[i] == t;
    }
  }

  lemma {:induction false} InsertMembers(buf: seq<Seg>, s: Seg)
    requires Ascending(buf)
    ensures forall t :: t in Insert(buf, s) <==> t in buf || (t == s && s.sn !in Sns(buf))
  {
    hide Sns, Ascending;
    if buf == [] || buf[|buf| - 1].sn < s.sn {
      NotAmong(buf, s.sn);
    } else {
      var init, last := buf[..|buf| - 1], buf[|buf| - 1];
      AscendingInit(buf);
      SnsSnoc(init, last);
      if last.sn != s.sn {
        InsertMembers(init, s);
      }
    }
  }

  lemma {:induction false} InsertAscending(buf: seq<Seg>, s: Seg)
    requires Ascending(buf)
    ensures Ascending(Insert(buf, s))
  {
    hide Sns, Ascending;
    if buf == [] || buf[|buf| - 1].sn < s.sn {
      NotAmong(buf, s.sn);
      AscendingSnoc(buf, s);
    } else {
      var init, last := buf[..|buf| - 1], buf[|buf| - 1];
      AscendingInit(buf);
      if last.sn != s.sn {
        InsertAscending(init, s);
        InsertMembers(init, s);
        AscendingSnoc(Insert(init, s), last);
      }
    }
  }

  lemma AscendingSnoc(buf: seq<Seg>, last: Seg)
    requires Ascending(buf) && forall t :: t in buf ==> t.sn < last.sn
    ensures Ascending(buf + [last])
  {
  }

  lemma InsertSns(buf: seq<Seg>, s: Seg)
    requires forall t :: t in Insert(buf, s) <==> t in buf || (t == s && s.sn !in Sns(buf))
    ensures Sns(Insert(buf, s)) == Sns(buf) + {s.sn}
  {
    forall x | x in Sns(buf) + {s.sn} ensures x in Sns(Insert(buf, s)) {
      if x in Sns(buf) {
        var t :| t in buf && t.sn == x;
        assert t in Insert(buf, s);
      } else {
        assert s in Insert(buf, s);
      }
    }
  }

  /** `k` segments move, they are the next `k` indices, and none is left that
      could move. */
  ghost predicate Moved(r: Receiver, r': Receiver, k: nat) {
    && k <= |r.buf|
    && r' == Receiver(r.nxt + k, r.buf[k..], r.queue + r.buf[..k], r.acks)
    && forall i :: 0 <= i < k ==> r.buf[i].sn == r.nxt + i
  }

  lemma MovedNone(r: Receiver)
    ensures Moved(r, r, 0)
  {
    assert r.queue + r.buf[..0] == r.queue;
  }

  lemma MovedOneMore(r: Receiver, r': Receiver, k: nat)
    requires r.buf != [] && r.buf[0].sn == r.nxt
    requires Moved(Receiver(r.nxt + 1, r.buf[1..], r.queue + [r.buf[0]], r.acks), r', k)
    ensures Moved(r, r', k + 1)
  {
    var rest := r.buf[1..];
    assert r.buf[..k + 1] == [r.buf[0]] + rest[..k];
    SumAssociative(r.queue, [r.buf[0]], rest[..k]);
    assert r.buf[k + 1..] == rest[k..];
    forall i | 0 <= i < k + 1 ensures r.buf[i].sn == r.nxt + i {
      assert i > 0 ==> rest[i - 1].sn == r.nxt + 1 + (i - 1);
    }
  }

  lemma {:induction false} MoveReadyEffect(wnd: nat, r: Receiver) returns (k: nat)
    requires |r.queue| <= wnd
    ensures Moved(r, MoveReady(wnd, r), k)
    ensures |MoveReady(wnd, r).queue| <= wnd && Settled(wnd, MoveReady(wnd, r))
    decreases |r.buf|
  {
    hide Moved;
    if r.buf != [] && r.buf[0].sn == r.nxt && |r.queue| < wnd {
      k := MoveReadyEffect(wnd, Receiver(r.nxt + 1, r.buf[1..], r.queue + [r.buf[0]], r.acks));
      MovedOneMore(r, MoveReady(wnd, r), k);
      k := k + 1;
    } else {
      k := 0;
      MovedNone(r);
    }
  }

  /** `k` segments are admitted and numbered consecutively. */
  ghost predicate Admits(s: Sender, s': Sender, w: Sweep, k: nat) {
    && k <= |s.queue|
    && s'.una == s.una && s'.nxt == s.nxt + k && s'.queue == s.queue[k..]
    && s'.buf == s.buf + NumberedAll(w, s.queue[..k], s.nxt)
  }

  function NumberedAll(w: Sweep, q: seq<Seg>, first: int): (r: seq<Seg>)
    ensures |r| == |q| && forall i | 0 <= i < |q| :: r[i] == Numbered(w, q[i], first + i)
  {
    seq(|q|, i requires 0 <= i < |q| => Numbered(w, q[i], first + i))
  }

  lemma {:induction false} AdmitEffect(s: Sender, window: nat, w: Sweep) returns (k: nat)
    ensures Admits(s, Admit(s, window, w), w, k)
    ensures k > 0 ==> Admit(s, window, w).nxt <= s.una + window
    ensures Admit(s, window, w).nxt < s.una + window ==> Admit(s, window, w).queue == []
    decreases |s.queue|
  {
    if s.nxt < s.una + window && s.queue != [] {
      var next := Sender(s.una, s.nxt + 1, s.queue[1..], s.buf + [Numbered(w, s.queue[0], s.nxt)]);
      k := AdmitEffect(next, window, w);
      var first, rest := [Numbered(w, s.queue[0], s.nxt)], NumberedAll(w, next.queue[..k], next.nxt);
      assert NumberedAll(w, s.queue[..k + 1], s.nxt) == first + rest;
      SumAssociative(s.buf, first, rest);
      assert s.queue[k + 1..] == next.queue[k..];
      k := k + 1;
    } else {
      k := 0;
      assert s.buf + NumberedAll(w, s.queue[..0], s.nxt) == s.buf;
    }
  }

  // ---------------------------------------------------------------- preserved

  lemma CreateInv(cfg: Config)
    requires cfg.Valid()
    ensures Inv(Create(cfg))
  {
  }

  lemma {:induction false} SplitFits(mss: nat, msg: seq<u8>)
    requires mss > 0 && FragCount(mss, |msg|) <= WND_RCV
    ensures Fits(Split(mss, msg), mss)
    decreases |msg|
  {
    if |msg| > mss {
      SplitFits(mss, msg[mss..]);
    }
  }

  lemma SendInv(cfg: Config, s: Sender, msg: seq<u8>)
    requires cfg.Valid() && SenderInv(cfg.sndWnd, cfg.Mss(), s)
    ensures SenderInv(cfg.sndWnd, cfg.Mss(), Send(cfg, s, msg).0)
    ensures Send(cfg, s, msg).1 < 0 ==> Send(cfg, s, msg).0 == s
  {
    if FragCount(cfg.Mss(), |msg|) < WND_RCV {
      SplitFits(cfg.Mss(), msg);
    }
  }

  /** In an ascending list the index grows at least as fast as the position. */
  lemma {:induction false} AscendingGap(buf: seq<Seg>, i: nat)
    requires Ascending(buf) && i < |buf|
    ensures buf[i].sn >= buf[0].sn + i
  {
    if i > 0 {
      AscendingGap(buf, i - 1);
    }
  }

  lemma {:induction false} AscendingSize(buf: seq<Seg>, lo: int, hi: int)
    requires Ascending(buf) && Within(buf, lo, hi) && lo <= hi
    ensures |buf| <= hi - lo
  {
    if buf != [] {
      AscendingGap(buf, |buf| - 1);
      assert buf[0] in buf && buf[|buf| - 1] in buf;
    }
  }

  /** No list but the send queue outgrows its window or block. */
  predicate Bounded(cb: Cb) {
    && |cb.snd.buf| <= cb.snd.nxt - cb.snd.una <= cb.cfg.sndWnd
    && |cb.rcv.buf| <= cb.cfg.rcvWnd && |cb.rcv.queue| <= cb.cfg.rcvWnd
    && |cb.rcv.acks| <= ACK_BLOCK
  }

  /** The invariant bounds `nsnd_buf`, `nrcv_buf` and `nrcv_que`. */
  lemma InvBounds(cb: Cb)
    requires Inv(cb)
    ensures Bounded(cb)
  {
    AscendingSize(cb.snd.buf, cb.snd.una, cb.snd.nxt);
    AscendingSize(cb.rcv.buf, cb.rcv.nxt, cb.rcv.nxt + cb.cfg.rcvWnd);
  }

  lemma MoveReadyInv(wnd: nat, r: Receiver)
    requires WindowInv(wnd, r)
    ensures ReceiverInv(wnd, MoveReady(wnd, r))
    ensures Taken(MoveReady(wnd, r)) == Taken(r)
    ensures MoveReady(wnd, r).nxt >= r.nxt && MoveReady(wnd, r).acks == r.acks
    ensures forall sn :: Received(r, sn) <==> Received(MoveReady(wnd, r), sn)
  {
    var k := MoveReadyEffect(wnd, r);
    MovedWindow(wnd, r, MoveReady(wnd, r), k);
    forall sn ensures Received(r, sn) <==> Received(MoveReady(wnd, r), sn) {
      MoveReceived(r, MoveReady(wnd, r), k, sn);
    }
  }

  lemma MovedWindow(wnd: nat, r: Receiver, r': Receiver, k: nat)
    requires WindowInv(wnd, r) && Moved(r, r', k) && |r'.queue| <= wnd
    ensures WindowInv(wnd, r')
  {
    MovedRest(r.buf, r.nxt, wnd, k);
    MovedConsecutive(r.queue, r.buf[..k], Taken(r));
    hide Ascending, Within;
  }

  lemma MovedRest(buf: seq<Seg>, nxt: int, wnd: nat, k: nat)
    requires Ascending(buf) && Within(buf, nxt, nxt + wnd) && k <= |buf|
    ensures Ascending(buf[k..]) && Within(buf[k..], nxt + k, nxt + k + wnd)
  {
    forall s | s in buf[k..] ensures nxt + k <= s.sn < nxt + k + wnd {
      var i :| k <= i < |buf| && buf[i] == s;
      assert s in buf && buf[0] in buf;
      AscendingGap(buf, i);
    }
  }

  lemma MovedConsecutive(q: seq<Seg>, more: seq<Seg>, first: int)
    requires Consecutive(q, first) && forall i :: 0 <= i < |more| ==> more[i].sn == first + |q| + i
    ensures Consecutive(q + more, first)
  {
  }

  lemma MoveReceived(r: Receiver, r': Receiver, k: nat, sn: int)
    requires Moved(r, r', k)
    ensures Received(r, sn) <==> Received(r', sn)
  {
    if sn in Sns(r.buf) {
      var j :| 0 <= j < |r.buf| && r.buf[j].sn == sn;
      if j >= k {
        assert r'.buf[j - k].sn == sn;
      }
    }
    if r.nxt <= sn < r'.nxt {
      assert r.buf[sn - r.nxt].sn == sn;
    }
  }

  /** Reading and peeking keep the receiver consistent and lose nothing that was
      received. */
  lemma RecvInv(wnd: nat, r: Receiver, len: int)
    requires ReceiverInv(wnd, r)
    ensures ReceiverInv(wnd, Recv(wnd, r, len).0)
    ensures Recv(wnd, r, len).0.nxt >= r.nxt && Recv(wnd, r, len).0.acks == r.acks
    ensures forall sn :: Received(r, sn) <==> Received(Recv(wnd, r, len).0, sn)
  {
    var r1 := if len < 0 then r else r.(queue := r.queue[FirstMessage(r.queue)..]);
    MoveReadyInv(wnd, r1);
    assert forall sn :: Received(r, sn) <==> Received(r1, sn);
  }

  /** Shrinking to a sublist of the outstanding segments. */
  lemma ShrinkInv(wnd: nat, mss: nat, s: Sender, buf: seq<Seg>)
    requires SenderInv(wnd, mss, s)
    requires Ascending(buf) && forall x :: x in buf ==> x in s.buf
    ensures SenderInv(wnd, mss, Shrink(s.(buf := buf)))
    ensures Shrink(s.(buf := buf)).una >= s.una
  {
    if buf != [] {
      assert buf[0] in s.buf;
    }
  }

  /** Whatever `una` a frame carries, the segments dropped are exactly those
      below it and `snd_una` does not move back. */
  lemma ParseUnaInv(wnd: nat, mss: nat, s: Sender, una: u32)
    requires SenderInv(wnd, mss, s)
    ensures SenderInv(wnd, mss, ParseUna(s, una))
    ensures ParseUna(s, una).una >= s.una
    ensures forall x :: x in ParseUna(s, una).buf <==> x in s.buf && x.sn >= Near(s.una, una)
  {
    DropBelowEffect(s.buf, Near(s.una, una));
    ShrinkInv(wnd, mss, s, DropBelow(s.buf, Near(s.una, una)));
  }

  /** Whatever number a frame acknowledges, exactly that segment is dropped. */
  lemma ParseAckInv(wnd: nat, mss: nat, s: Sender, sn: u32)
    requires SenderInv(wnd, mss, s)
    ensures SenderInv(wnd, mss, ParseAck(s, sn))
    ensures ParseAck(s, sn).una >= s.una
    ensures forall x :: x in ParseAck(s, sn).buf <==> x in s.buf && x.sn != Near(s.una, sn)
  {
    var x := Near(s.una, sn);
    RemoveEffect(s.buf, x);
    ShrinkInv(wnd, mss, s, if Outstanding(s, x) then Remove(s.buf, x) else s.buf);
  }

  lemma SenderInputInv(wnd: nat, mss: nat, s: Sender, f: Frame)
    requires SenderInv(wnd, mss, s)
    ensures SenderInv(wnd, mss, SenderInput(s, f))
    ensures SenderInput(s, f).una >= s.una
    ensures SenderInput(s, f).nxt == s.nxt && SenderInput(s, f).queue == s.queue
  {
    ParseUnaInv(wnd, mss, s, Wrap(f.una));
    ParseAckInv(wnd, mss, ParseUna(s, Wrap(f.una)), Wrap(f.sn));
  }

  lemma ParseDataInv(wnd: nat, r: Receiver, s: Seg)
    requires ReceiverInv(wnd, r)
    ensures ReceiverInv(wnd, ParseData(wnd, r, s))
    ensures Taken(ParseData(wnd, r, s)) == Taken(r)
    ensures ParseData(wnd, r, s).nxt >= r.nxt && ParseData(wnd, r, s).acks == r.acks
    ensures forall x :: Received(ParseData(wnd, r, s), x) <==> Received(r, x) || (x == s.sn && s.sn < r.nxt + wnd)
  {
    if r.nxt <= s.sn < r.nxt + wnd {
      InsertEffect(r.buf, s);
      var r2 := r.(buf := Insert(r.buf, s));
      MoveReadyInv(wnd, r2);
      assert forall x :: Received(r2, x) <==> Received(r, x) || x == s.sn;
    }
  }

  /** Whatever PUSH arrives, only its own number can become received, and only
      received numbers are queued for acknowledgement. */
  lemma InputPushInv(wnd: nat, r: Receiver, f: Frame)
    requires ReceiverInv(wnd, r)
    ensures ReceiverInv(wnd, InputPush(wnd, r, f))
    ensures Taken(InputPush(wnd, r, f)) == Taken(r)
    ensures InputPush(wnd, r, f).nxt >= r.nxt
    ensures var sn := Near(r.nxt + wnd, Wrap(f.sn)); var r' := InputPush(wnd, r, f);
            && (forall x :: Received(r', x) <==> Received(r, x) || (x == sn && sn < r.nxt + wnd))
            && (forall a :: a in r'.acks ==> a in r.acks || (a.sn == sn && sn < r.nxt + wnd))
  {
    var sn := Near(r.nxt + wnd, Wrap(f.sn));
    var r1 := r.(acks := AckPush(r.acks, sn, f.ts));
    assert forall x :: Received(r1, x) <==> Received(r, x);
    ParseDataInv(wnd, r1, Arrived(f, sn));
  }

  lemma ReceiverInputInv(wnd: nat, r: Receiver, f: Frame)
    requires ReceiverInv(wnd, r)
    ensures ReceiverInv(wnd, ReceiverInput(wnd, r, f))
    ensures Taken(ReceiverInput(wnd, r, f)) == Taken(r)
    ensures ReceiverInput(wnd, r, f).nxt >= r.nxt
    ensures forall x :: Received(r, x) ==> Received(ReceiverInput(wnd, r, f), x)
  {
    InputPushInv(wnd, r, f);
  }

  /** Any sequence of frames at all keeps both halves; `snd_una` and `rcv_nxt`
      only move forward. */
  lemma {:induction false} InputFramesInv(cb: Cb, fs: seq<Frame>)
    requires Inv(cb)
    ensures var r := InputFrames(cb, fs);
            && Inv(r)
            && r.snd.una >= cb.snd.una && r.snd.nxt == cb.snd.nxt && r.snd.queue == cb.snd.queue
            && r.rcv.nxt >= cb.rcv.nxt && Taken(r.rcv) == Taken(cb.rcv)
  {
    if fs != [] {
      InputFramesInv(cb, fs[..|fs| - 1]);
      var c := InputFrames(cb, fs[..|fs| - 1]);
      SenderInputInv(cb.cfg.sndWnd, cb.cfg.Mss(), c.snd, fs[|fs| - 1]);
      ReceiverInputInv(cb.cfg.rcvWnd, c.rcv, fs[|fs| - 1]);
    }
  }

  lemma ParseFastackInv(wnd: nat, mss: nat, s: Sender, sn: u32)
    requires SenderInv(wnd, mss, s)
    ensures SenderInv(wnd, mss, ParseFastack(s, sn))
    ensures ParseFastack(s, sn) == s.(buf := ParseFastack(s, sn).buf)
    ensures SameButFastack(ParseFastack(s, sn).buf, s.buf)
  {
    SkippedEffect(s.buf, Near(s.una, sn));
    SameNumbersInv(wnd, mss, s, ParseFastack(s, sn).buf);
  }

  /** Rewriting fields other than number, payload and `frg`. */
  lemma SameNumbersInv(wnd: nat, mss: nat, s: Sender, buf: seq<Seg>)
    requires SenderInv(wnd, mss, s)
    requires |buf| == |s.buf|
    requires forall i :: 0 <= i < |buf| ==>
               buf[i].sn == s.buf[i].sn && buf[i].data == s.buf[i].data && buf[i].frg == s.buf[i].frg
    ensures SenderInv(wnd, mss, s.(buf := buf))
  {
    forall x | x in buf ensures s.una <= x.sn < s.nxt && |x.data| <= mss && x.frg < WND_RCV {
      var i :| 0 <= i < |buf| && buf[i] == x;
      assert s.buf[i] in s.buf;
    }
  }

  /** Arbitrary bytes from the network, well formed or not, keep every invariant;
      `snd_una` and `rcv_nxt` only move forward. */
  lemma InputInv(cb: Cb, b: seq<u8>)
    requires Inv(cb)
    ensures Inv(Input(cb, b).0)
    ensures Input(cb, b).0.snd.una >= cb.snd.una
    ensures Input(cb, b).0.rcv.nxt >= cb.rcv.nxt
  {
    var p := Parse(cb.cfg.conv, b);
    InputFramesInv(cb, p.0);
    var c := InputFrames(cb, p.0);
    if MaxAck(p.0).Some? {
      ParseFastackInv(cb.cfg.sndWnd, cb.cfg.Mss(), c.snd, MaxAck(p.0).value);
    }
  }

  lemma AdmittedInv(cb: Cb)
    requires Inv(cb)
    ensures SenderInv(cb.cfg.sndWnd, cb.cfg.Mss(), Admitted(cb))
    ensures Admitted(cb).una == cb.snd.una
  {
    var s, w := cb.snd, SweepOf(cb);
    var k := AdmitEffect(s, Window(cb.cfg, cb.ctl), w);
    var s' := Admitted(cb);
    var added := NumberedAll(w, s.queue[..k], s.nxt);
    forall x | x in added
      ensures s.nxt <= x.sn < s'.nxt && |x.data| <= cb.cfg.Mss() && x.frg < WND_RCV
    {
      var i :| 0 <= i < k && added[i] == x;
      assert s.queue[i] in s.queue;
    }
    forall i, j | 0 <= i < j < |s'.buf| ensures s'.buf[i].sn < s'.buf[j].sn {
      if i < |s.buf| <= j {
        assert s'.buf[i] in s.buf && s'.buf[j] in added;
      }
    }
  }

  /** A flush keeps both halves and never moves `snd_una`. */
  lemma FlushInv(cb: Cb)
    requires Inv(cb)
    ensures Inv(Flush(cb))
    ensures Flush(cb).snd.una == cb.snd.una
  {
    AdmittedInv(cb);
    var s := Admitted(cb);
    SameNumbersInv(cb.cfg.sndWnd, cb.cfg.Mss(), s, SweptAll(SweepOf(cb), s.buf));
  }

  lemma UpdateInv(cb: Cb, now: u32)
    requires Inv(cb)
    ensures Inv(Update(cb, now).0)
    ensures Update(cb, now).0.snd.una == cb.snd.una
  {
    FlushInv(Ticked(cb, now));
  }

  lemma ReconnectInv(cb: Cb)
    requires Inv(cb)
    ensures Inv(Reconnect(cb))
  {
    SameNumbersInv(cb.cfg.sndWnd, cb.cfg.Mss(), cb.snd, Restarted(cb.snd.buf));
  }
}
