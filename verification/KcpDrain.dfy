/**
 `NetConnect::RecvMsgFromKcp`: the loop that hands on what the engine has received,
 and its tests on an unsigned length.
 */
module KcpDrain {
  import opened U32
  import opened KcpModel

  const SIZE_MODULUS: nat := 0x1_0000_0000_0000_0000

  /** An `int` result stored in a `size_t`. */
  function AsSize(n: int): int {
    if n < 0 then n + SIZE_MODULUS else n
  }

  /** One pass of the loop on the receiving half: `None` where it breaks. `limit` is the
      size of its buffer. Handing a message on never ends the loop. */
  function Pass(wnd: nat, r: Receiver, limit: nat): Option<Receiver> {
    var peek := AsSize(PeekSize(r.queue));
    if 0 > peek then None
    else if limit < peek || 0 >= peek then Some(Recv(wnd, r, PeekSize(r.queue)).0)
    else
      var got := Recv(wnd, r, limit);
      if 0 > AsSize(got.1) || AsSize(got.1) != peek then None else Some(got.0)
  }

  /** The receiver after `k` passes, if the loop is still running. */
  function Passes(wnd: nat, r: Receiver, limit: nat, k: nat): Option<Receiver> {
    if k == 0 then Some(r)
    else match Passes(wnd, r, limit, k - 1)
      case None => None
      case Some(s) => Pass(wnd, s, limit)
  }

  function Held(r: Receiver): nat {
    |r.queue| + |r.buf|
  }

  lemma {:induction false} MoveReadyHolds(wnd: nat, r: Receiver)
    ensures Held(MoveReady(wnd, r)) == Held(r)
    decreases |r.buf|
  {
    if r.buf != [] && r.buf[0].sn == r.nxt && |r.queue| < wnd {
      MoveReadyHolds(wnd, Receiver(r.nxt + 1, r.buf[1..], r.queue + [r.buf[0]], r.acks));
    }
  }

  lemma PeekIsFirst(q: seq<Seg>)
    requires PeekSize(q) >= 0
    ensures q != [] && PeekSize(q) == |Bytes(q[..FirstMessage(q)])|
  {
    if q[0].frg == 0 {
      assert q[..1][..0] == [] && Bytes([]) == [];
    }
  }

  /** A message that fits is read whole and leaves the queue. */
  lemma RecvTakes(wnd: nat, r: Receiver, len: int)
    requires 0 <= PeekSize(r.queue) <= len
    ensures Recv(wnd, r, len).1 == PeekSize(r.queue) && Held(Recv(wnd, r, len).0) < Held(r)
  {
    PeekIsFirst(r.queue);
    hide PeekSize, MoveReady, Bytes;
    MoveReadyHolds(wnd, r.(queue := r.queue[FirstMessage(r.queue)..]));
  }

  /** A pass never breaks: it takes a message, or finds none and changes nothing. */
  lemma PassGoesOn(wnd: nat, r: Receiver, limit: nat)
    requires limit < HALF
    ensures Pass(wnd, r, limit).Some?
    ensures PeekSize(r.queue) >= 0 ==> Held(Pass(wnd, r, limit).value) < Held(r)
    ensures PeekSize(r.queue) < 0 ==> Pass(wnd, r, limit).value == r
  {
    var peek := PeekSize(r.queue);
    assert peek >= -1;
    if 0 < peek <= limit {
      RecvTakes(wnd, r, limit);
    } else if peek >= 0 {
      RecvTakes(wnd, r, peek);
    }
    hide PeekSize, FirstMessage, Bytes, MoveReady;
  }

  lemma {:induction false} DryOrFewer(wnd: nat, r: Receiver, limit: nat, k: nat)
    requires limit < HALF
    ensures Passes(wnd, r, limit, k).Some?
    ensures var s := Passes(wnd, r, limit, k).value; PeekSize(s.queue) < 0 || Held(s) + k <= Held(r)
  {
    hide Pass, PeekSize;
    if k > 0 {
      DryOrFewer(wnd, r, limit, k - 1);
      PassGoesOn(wnd, Passes(wnd, r, limit, k - 1).value, limit);
    }
  }

  /** Once entered the loop never ends. After as many passes as there are segments no
      whole message is left, and from then on every pass repeats the one before. */
  lemma DrainNeverEnds(wnd: nat, r: Receiver, limit: nat, k: nat)
    requires limit < HALF
    ensures Passes(wnd, r, limit, k).Some?
    ensures k >= Held(r) ==>
              PeekSize(Passes(wnd, r, limit, k).value.queue) < 0
              && Passes(wnd, r, limit, k + 1) == Passes(wnd, r, limit, k)
  {
    DryOrFewer(wnd, r, limit, k);
    PassGoesOn(wnd, Passes(wnd, r, limit, k).value, limit);
    hide Pass;
  }
}
