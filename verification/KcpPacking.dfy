/**
 The datagrams of one `ikcp_flush`: sizes, and what the peer reads from them.
 */
module KcpPacking {
  import opened U32
  import opened KcpCodec
  import opened KcpModel
  import opened KcpInvariants

  ghost function Flatten(groups: seq<seq<Frame>>): seq<Frame> {
    if groups == [] then [] else Flatten(groups[..|groups| - 1]) + groups[|groups| - 1]
  }

  ghost predicate Packable(mtu: nat, fs: seq<Frame>) {
    forall f :: f in fs ==> Sendable(f) && FrameSize(f) <= mtu
  }

  /** A datagram: at least one frame, at most `mtu` bytes. */
  ghost predicate Datagram(mtu: nat, g: seq<Frame>) {
    g != [] && Size(g) <= mtu
  }

  /** No frame was held back that would still have fitted. */
  ghost predicate Greedy(mtu: nat, groups: seq<seq<Frame>>) {
    forall i :: 0 <= i < |groups| - 1 && groups[i + 1] != [] ==>
                  Size(groups[i]) + FrameSize(groups[i + 1][0]) > mtu
  }

  lemma FlattenSnoc(groups: seq<seq<Frame>>, g: seq<Frame>)
    ensures Flatten(groups + [g]) == Flatten(groups) + g
  {
    assert (groups + [g])[..|groups|] == groups;
  }

  lemma SizeSnoc(g: seq<Frame>, f: Frame)
    ensures Size(g + [f]) == Size(g) + FrameSize(f)
  {
    assert (g + [f])[..|g|] == g;
  }

  /** Replacing the last group by a longer one that starts the same. */
  lemma GreedyGrow(mtu: nat, done: seq<seq<Frame>>, g: seq<Frame>, f: Frame)
    requires Greedy(mtu, done + [g]) && g != []
    ensures Greedy(mtu, done + [g + [f]])
  {
    var groups := done + [g + [f]];
    forall i | 0 <= i < |groups| - 1 && groups[i + 1] != []
      ensures Size(groups[i]) + FrameSize(groups[i + 1][0]) > mtu
    {
      assert groups[i] == (done + [g])[i];
      assert groups[i + 1][0] == (done + [g])[i + 1][0];
    }
  }

  lemma GreedyNext(mtu: nat, done: seq<seq<Frame>>, g: seq<Frame>, f: Frame)
    requires Greedy(mtu, done + [g]) && Size(g) + FrameSize(f) > mtu
    ensures Greedy(mtu, done + [g] + [[f]])
  {
    var groups := done + [g] + [[f]];
    forall i | 0 <= i < |groups| - 1 && groups[i + 1] != []
      ensures Size(groups[i]) + FrameSize(groups[i + 1][0]) > mtu
    {
      if i == |done| {
        assert groups[i] == g && groups[i + 1] == [f];
      } else {
        assert groups[i] == (done + [g])[i] && groups[i + 1] == (done + [g])[i + 1];
      }
    }
  }

  ghost predicate Packed(mtu: nat, fs: seq<Frame>, p: (seq<seq<Frame>>, seq<Frame>)) {
    && (forall g :: g in p.0 ==> Datagram(mtu, g))
    && Size(p.1) <= mtu
    && (p.1 == [] ==> p.0 == [])
    && Flatten(p.0) + p.1 == fs
    && Greedy(mtu, p.0 + [p.1])
  }

  lemma PackNext(mtu: nat, fs: seq<Frame>, p: (seq<seq<Frame>>, seq<Frame>), f: Frame)
    requires Packed(mtu, fs, p) && FrameSize(f) <= mtu && p.1 != []
    requires Size(p.1) + FrameSize(f) > mtu
    ensures Packed(mtu, fs + [f], (p.0 + [p.1], [f]))
  {
    SizeSnoc([], f);
    assert [] + [f] == [f];
    FlattenSnoc(p.0, p.1);
    GreedyNext(mtu, p.0, p.1, f);
  }

  lemma PackMore(mtu: nat, fs: seq<Frame>, p: (seq<seq<Frame>>, seq<Frame>), f: Frame)
    requires Packed(mtu, fs, p) && Size(p.1) + FrameSize(f) <= mtu
    ensures Packed(mtu, fs + [f], (p.0, p.1 + [f]))
  {
    SizeSnoc(p.1, f);
    SumAssociative(Flatten(p.0), p.1, [f]);
    if p.1 == [] {
      assert p.0 + [p.1 + [f]] == [p.1 + [f]];
    } else {
      GreedyGrow(mtu, p.0, p.1, f);
    }
  }

  lemma {:induction false} PackSound(mtu: nat, fs: seq<Frame>)
    requires Packable(mtu, fs)
    ensures Packed(mtu, fs, Pack(mtu, fs))
  {
    if fs != [] {
      var init, f := fs[..|fs| - 1], fs[|fs| - 1];
      assert fs == init + [f] && f in fs;
      PackSound(mtu, init);
      var p := Pack(mtu, init);
      if Size(p.1) + FrameSize(f) > mtu {
        PackNext(mtu, init, p, f);
      } else {
        PackMore(mtu, init, p, f);
      }
    }
  }

  /** Grouping keeps every frame, in order, in groups of 1 to `mtu` bytes, and
      opens a new group only when the next frame would not have fitted. */
  lemma DatagramsSound(mtu: nat, fs: seq<Frame>)
    requires Packable(mtu, fs)
    ensures var groups := Datagrams(mtu, fs);
            && (forall g :: g in groups ==> Datagram(mtu, g))
            && Flatten(groups) == fs
            && Greedy(mtu, groups)
  {
    PackSound(mtu, fs);
    var p := Pack(mtu, fs);
    FlattenSnoc(p.0, p.1);
  }

  lemma {:induction false} EncodedSize(conv: u32, fs: seq<Frame>)
    ensures |EncodeAll(conv, fs)| == Size(fs)
  {
    if fs != [] {
      EncodedSize(conv, fs[..|fs| - 1]);
    }
  }

  lemma {:induction false} FlattenMember(groups: seq<seq<Frame>>, g: seq<Frame>, f: Frame)
    requires g in groups && f in g
    ensures f in Flatten(groups)
  {
    var init, last := groups[..|groups| - 1], groups[|groups| - 1];
    assert groups == init + [last];
    if g != last {
      FlattenMember(init, g, f);
    }
  }

  /** A sent segment is one frame that fits a datagram. */
  lemma {:induction false} PushFramesFit(w: Sweep, buf: seq<Seg>, mss: nat)
    requires Fits(buf, mss) && mss < HALF
    ensures Packable(mss + OVERHEAD, PushFrames(w, buf))
  {
    if buf != [] {
      var init, s := buf[..|buf| - 1], buf[|buf| - 1];
      assert s in buf && forall x :: x in init ==> x in buf;
      PushFramesFit(w, init, mss);
    }
  }

  lemma OutputFits(cb: Cb)
    requires Inv(cb)
    ensures Packable(cb.cfg.mtu, Output(cb))
  {
    AdmittedInv(cb);
    PushFramesFit(SweepOf(cb), Admitted(cb).buf, cb.cfg.Mss());
  }

  /** What one flush puts on the wire, read back by `ikcp_input`'s parser: every
      datagram has 1 to `mtu` bytes and parses without error into whole frames;
      together they are the queued acks, the probes and the due segments of
      `snd_buf`, in that order and with nothing added or lost. */
  lemma FlushRoundTrip(cb: Cb)
    requires Inv(cb)
    ensures var groups := Datagrams(cb.cfg.mtu, Output(cb));
            && (forall g :: g in groups ==>
                  var b := EncodeAll(cb.cfg.conv, g);
                  0 < |b| <= cb.cfg.mtu && Parse(cb.cfg.conv, b) == (OnWireAll(g), 0))
            && Flatten(groups) == Output(cb)
            && Greedy(cb.cfg.mtu, groups)
  {
    OutputFits(cb);
    DatagramsSound(cb.cfg.mtu, Output(cb));
    var groups := Datagrams(cb.cfg.mtu, Output(cb));
    forall g | g in groups
      ensures var b := EncodeAll(cb.cfg.conv, g);
              0 < |b| <= cb.cfg.mtu && Parse(cb.cfg.conv, b) == (OnWireAll(g), 0)
    {
      GroupRoundTrip(cb.cfg.mtu, cb.cfg.conv, Output(cb), groups, g);
    }
  }

  lemma GroupRoundTrip(mtu: nat, conv: u32, fs: seq<Frame>, groups: seq<seq<Frame>>, g: seq<Frame>)
    requires Packable(mtu, fs) && Flatten(groups) == fs && g in groups && Datagram(mtu, g)
    ensures var b := EncodeAll(conv, g);
            0 < |b| <= mtu && Parse(conv, b) == (OnWireAll(g), 0)
  {
    EncodedSize(conv, g);
    forall f | f in g ensures Sendable(f) {
      FlattenMember(groups, g, f);
    }
    ParseDatagram(conv, g);
  }

  lemma ParseDatagram(conv: u32, g: seq<Frame>)
    requires forall f :: f in g ==> Sendable(f)
    ensures Parse(conv, EncodeAll(conv, g)) == (OnWireAll(g), 0)
  {
    ParseEncodeAll(conv, g, []);
    assert EncodeAll(conv, g) + [] == EncodeAll(conv, g);
    assert OnWireAll(g) + [] == OnWireAll(g);
  }
}
