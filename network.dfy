/** The stream socket seen by one peer, and the framing operations over it:
    `safe_send_all`, `send_packet`, `recv_all` and `recv_packet`.

    The bytes the peer sends reach `recv` as a sequence of segments: a run of
    bytes that arrived together, or a read that fails. A `recv(k)` returns at
    most k bytes; what is left of a longer segment stays for the next read.
    An empty segment, or the end of the sequence, is the peer closing. */
module Network {
  import opened Wire

  datatype Segment = Data(bytes: seq<byte>) | Fault

  /** A stream without failures or empty reads: every byte the peer sent
      arrives, and the connection closes only after the last segment. */
  predicate Clean(segs: seq<Segment>) {
    forall i :: 0 <= i < |segs| ==> segs[i].Data? && segs[i].bytes != []
  }

  /** The bytes carried by the segments, in order. */
  function Flatten(segs: seq<Segment>): seq<byte> {
    if segs == [] then []
    else (if segs[0].Data? then segs[0].bytes else []) + Flatten(segs[1..])
  }

  /** A measure that every successful read makes smaller. */
  function Size(segs: seq<Segment>): nat {
    if segs == [] then 0
    else (if segs[0].Data? then |segs[0].bytes| + 1 else 1) + Size(segs[1..])
  }

  /** What a read leaves: the bytes it produced (None for a failed read) and
      the segments still to come. */
  datatype Got = Got(bytes: Option<seq<byte>>, rest: seq<Segment>)

  function Prepend(d: seq<byte>, g: Got): Got {
    Got(if g.bytes.Some? then Some(d + g.bytes.value) else None, g.rest)
  }

  lemma PrependNothing(g: Got)
    ensures Prepend([], g) == g
  {
    if g.bytes.Some? {
      assert [] + g.bytes.value == g.bytes.value;
    }
  }

  lemma PrependTwice(d: seq<byte>, e: seq<byte>, g: Got)
    ensures Prepend(d, Prepend(e, g)) == Prepend(d + e, g)
  {
    if g.bytes.Some? {
      assert d + (e + g.bytes.value) == (d + e) + g.bytes.value;
    }
  }

  /** The effect of `recv_all(sock, n)` on an open socket: repeated reads of
      the outstanding count until n bytes have arrived; a failing or empty
      read gives None. */
  function ReadExact(segs: seq<Segment>, n: nat): (g: Got)
    ensures g.bytes.Some? ==> |g.bytes.value| == n
    ensures Size(g.rest) <= Size(segs)
    ensures n > 0 && g.bytes.Some? ==> Size(g.rest) < Size(segs)
    decreases |segs|
  {
    if n == 0 then Got(Some([]), segs)
    else if segs == [] then Got(None, [])
    else match segs[0]
      case Fault => Got(None, segs[1..])
      case Data(b) =>
        if b == [] then Got(None, segs[1..])
        else if |b| <= n then Prepend(b, ReadExact(segs[1..], n - |b|))
        else
          assert Size([Data(b[n..])] + segs[1..]) == |b| - n + 1 + Size(segs[1..]);
          Got(Some(b[..n]), [Data(b[n..])] + segs[1..])
  }

  /** One `recv` of the outstanding count, then the rest of the reads. */
  lemma ReadExactStep(segs: seq<Segment>, k: nat)
    requires k > 0 && segs != [] && segs[0].Data? && segs[0].bytes != []
    ensures var b := segs[0].bytes;
      var packet := if |b| <= k then b else b[..k];
      var rest := if |b| <= k then segs[1..] else [Data(b[k..])] + segs[1..];
      ReadExact(segs, k) == Prepend(packet, ReadExact(rest, k - |packet|))
  {
    var b := segs[0].bytes;
    if |b| > k {
      assert b[..k] + [] == b[..k];
    }
  }

  lemma {:induction false} FlattenCons(s: Segment, segs: seq<Segment>)
    ensures Flatten([s] + segs) == (if s.Data? then s.bytes else []) + Flatten(segs)
  {
    assert ([s] + segs)[1..] == segs;
  }

  /** Fragmentation does not matter: on a clean stream `recv_all(n)` returns
      the first n bytes of the stream whenever the stream holds n bytes, and
      leaves exactly the bytes after them, still clean; it returns None when
      the peer closes before n bytes have come. */
  lemma {:induction false} ReadExactClean(segs: seq<Segment>, n: nat)
    requires Clean(segs)
    ensures var g := ReadExact(segs, n);
      && (n <= |Flatten(segs)| ==>
           g.bytes == Some(Flatten(segs)[..n]) && Clean(g.rest) && Flatten(g.rest) == Flatten(segs)[n..])
      && (n > |Flatten(segs)| ==> g.bytes == None)
  {
    if n > 0 && segs != [] {
      var b := segs[0].bytes;
      assert Flatten(segs) == b + Flatten(segs[1..]);
      assert Clean(segs[1..]) by {
        forall i | 0 <= i < |segs| - 1 ensures segs[1..][i].Data? && segs[1..][i].bytes != [] {
          assert segs[1..][i] == segs[i + 1];
        }
      }
      if |b| <= n {
        ReadExactClean(segs[1..], n - |b|);
        var all := Flatten(segs);
        assert all[|b|..] == Flatten(segs[1..]);
        if n <= |all| {
          assert all[..n] == b + Flatten(segs[1..])[..n - |b|];
          assert all[n..] == Flatten(segs[1..])[n - |b|..];
        }
      } else {
        var rest := [Data(b[n..])] + segs[1..];
        FlattenCons(Data(b[n..]), segs[1..]);
        assert Flatten(segs)[..n] == b[..n];
        assert Flatten(segs)[n..] == b[n..] + Flatten(segs[1..]);
        assert Clean(rest) by {
          forall i | 0 <= i < |rest| ensures rest[i].Data? && rest[i].bytes != [] {
            if i > 0 { assert rest[i] == segs[i]; }
          }
        }
      }
    }
  }

  /** A read that fails, or comes back empty, before n bytes have arrived
      makes `recv_all(n)` give None, whatever follows it: the bytes already
      read are dropped and the caller sees a broken connection. */
  lemma {:induction false} ReadExactBroken(pre: seq<Segment>, s: Segment, post: seq<Segment>, n: nat)
    requires Clean(pre) && |Flatten(pre)| < n
    requires s == Fault || s == Data([])
    ensures ReadExact(pre + [s] + post, n).bytes == None
  {
    var segs := pre + [s] + post;
    if pre == [] {
      assert segs[0] == s;
    } else {
      var b := pre[0].bytes;
      assert segs[0] == pre[0];
      assert segs[1..] == pre[1..] + [s] + post;
      assert Flatten(pre) == b + Flatten(pre[1..]);
      assert Clean(pre[1..]) by {
        forall i | 0 <= i < |pre| - 1 ensures pre[1..][i].Data? && pre[1..][i].bytes != [] {
          assert pre[1..][i] == pre[i + 1];
        }
      }
      ReadExactBroken(pre[1..], s, post, n - |b|);
    }
  }

  /** The peer's end of the connection as the local socket sees it. */
  class Socket {
    /** Segments the peer has sent that `recv` has not yet returned. */
    var inbox: seq<Segment>
    /** Every byte `sendall` has handed to the network, in order. */
    var outbox: seq<byte>
    /** How many more `sendall` calls the connection carries before it
        breaks (is reset); from then on every write raises. */
    var sendsLeft: nat
    var closed: bool

    /** A freshly connected socket. */
    constructor (peer: seq<Segment>, sends: nat)
      ensures inbox == peer && outbox == [] && sendsLeft == sends && !closed
    {
      inbox, outbox, sendsLeft, closed := peer, [], sends, false;
    }

    /** The writes that will still succeed: none once the socket is closed. */
    function Budget(): nat
      reads this
    {
      if closed then 0 else sendsLeft
    }

    /** `sock.recv(k)`: raises on a closed socket or a failing read; returns
        b'' once the peer has closed; otherwise at most k bytes of the next
        segment. */
    method Recv(k: nat) returns (packet: seq<byte>, raised: bool)
      modifies this`inbox
      ensures closed ==> raised && inbox == old(inbox)
      ensures !closed && (k == 0 || old(inbox) == []) ==> !raised && packet == [] && inbox == old(inbox)
      ensures !closed && k > 0 && old(inbox) != [] && old(inbox)[0].Fault? ==>
        raised && inbox == old(inbox)[1..]
      ensures !closed && k > 0 && old(inbox) != [] && old(inbox)[0].Data? ==>
        var b := old(inbox)[0].bytes;
        !raised && packet == (if |b| <= k then b else b[..k]) &&
        inbox == (if |b| <= k then old(inbox)[1..] else [Data(b[k..])] + old(inbox)[1..])
    {
      packet, raised := [], false;
      if closed {
        raised := true;
      } else if k > 0 && inbox != [] {
        match inbox[0]
        case Fault =>
          raised := true;
          inbox := inbox[1..];
        case Data(b) =>
          if |b| <= k {
            packet := b;
            inbox := inbox[1..];
          } else {
            packet := b[..k];
            inbox := [Data(b[k..])] + inbox[1..];
          }
      }
    }

    /** `sock.sendall(data)`: all of data goes out and uses up one write,
        or it raises and nothing changes. */
    method SendAll(data: seq<byte>) returns (raised: bool)
      modifies this`outbox, this`sendsLeft
      ensures raised == (old(Budget()) == 0)
      ensures outbox == if raised then old(outbox) else old(outbox) + data
      ensures sendsLeft == if raised then old(sendsLeft) else old(sendsLeft) - 1
    {
      raised := closed || sendsLeft == 0;
      if !raised {
        outbox := outbox + data;
        sendsLeft := sendsLeft - 1;
      }
    }

    /** `sock.close()`, harmless when repeated. */
    method Close()
      modifies this`closed
      ensures closed
    {
      closed := true;
    }
  }

  /** `safe_send_all`: True when `sendall` returned, False when it raised. */
  method SafeSendAll(sock: Socket, data: seq<byte>) returns (ok: bool)
    modifies sock`outbox, sock`sendsLeft
    ensures ok == (old(sock.Budget()) > 0)
    ensures sock.outbox == if ok then old(sock.outbox) + data else old(sock.outbox)
    ensures sock.sendsLeft == if ok then old(sock.sendsLeft) - 1 else old(sock.sendsLeft)
  {
    var raised := sock.SendAll(data);
    ok := !raised;
  }

  /** What `send_packet` does: returns a boolean, or raises (from the
      header packer) when the payload length does not fit in 64 bits. */
  datatype SendOutcome = Returned(ok: bool) | Raised

  /** `send_packet`: with a socket, packs the header and sends
      header ‖ payload in one `sendall`. */
  method SendPacket(sock: Socket?, tag: seq<byte>, payload: seq<byte>) returns (r: SendOutcome)
    modifies sock
    ensures sock == null ==> r == Returned(false)
    ensures sock != null ==> sock.inbox == old(sock.inbox) && sock.closed == old(sock.closed)
    ensures sock != null && |payload| >= U64Limit ==>
      r == Raised && sock.outbox == old(sock.outbox) && sock.sendsLeft == old(sock.sendsLeft)
    ensures sock != null && |payload| < U64Limit ==>
      && r == Returned(old(sock.Budget()) > 0)
      && sock.outbox == old(sock.outbox) + (if r.ok then Encode(Frame(tag, payload)) else [])
      && sock.sendsLeft == (if r.ok then old(sock.sendsLeft) - 1 else old(sock.sendsLeft))
  {
    if sock == null {
      return Returned(false);
    }
    if |payload| >= U64Limit {
      return Raised;
    }
    var header := EncodeHeader(tag, |payload|);
    var ok := SafeSendAll(sock, header + payload);
    r := Returned(ok);
  }

  /** `recv_all(sock, n)`. */
  method RecvAll(sock: Socket, n: nat) returns (r: Option<seq<byte>>)
    modifies sock`inbox
    ensures n == 0 ==> r == Some([]) && sock.inbox == old(sock.inbox)
    ensures sock.closed && n > 0 ==> r == None && sock.inbox == old(sock.inbox)
    ensures !sock.closed ==> Got(r, sock.inbox) == ReadExact(old(sock.inbox), n)
  {
    var data: seq<byte> := [];
    PrependNothing(ReadExact(sock.inbox, n));
    while |data| < n
      invariant |data| <= n
      invariant sock.closed ==> data == [] && sock.inbox == old(sock.inbox)
      invariant !sock.closed ==>
        ReadExact(old(sock.inbox), n) == Prepend(data, ReadExact(sock.inbox, n - |data|))
      decreases n - |data|
    {
      ghost var before := sock.inbox;
      var packet, raised := sock.Recv(n - |data|);
      if raised || packet == [] {
        return None;
      }
      ReadExactStep(before, n - |data|);
      PrependTwice(data, packet, ReadExact(sock.inbox, n - |data| - |packet|));
      data := data + packet;
    }
    assert data + [] == data;
    r := Some(data);
  }

  /** What `recv_packet` leaves: the frame read, if any, and the segments after it. */
  datatype Next = Next(frame: Option<Frame>, rest: seq<Segment>)

  /** The effect of `recv_packet` on an open socket: a header, then exactly
      the declared number of payload bytes; None when either is cut short. */
  function NextFrame(segs: seq<Segment>): (r: Next)
    ensures r.frame.Some? ==> |r.frame.value.tag| == TagSize && Size(r.rest) < Size(segs)
  {
    var h := ReadExact(segs, HeaderSize);
    if h.bytes.None? then Next(None, h.rest)
    else
      var hd := DecodeHeader(h.bytes.value);
      var p := ReadExact(h.rest, hd.size);
      if p.bytes.None? then Next(None, p.rest)
      else Next(Some(Frame(hd.tag, p.bytes.value)), p.rest)
  }

  /** `recv_packet`. */
  method RecvPacket(sock: Socket) returns (f: Option<Frame>)
    modifies sock`inbox
    ensures sock.closed ==> f == None && sock.inbox == old(sock.inbox)
    ensures !sock.closed ==> Next(f, sock.inbox) == NextFrame(old(sock.inbox))
  {
    var header := RecvAll(sock, HeaderSize);
    if header == None {
      return None;
    }
    var hd := DecodeHeader(header.value);
    var payload := RecvAll(sock, hd.size);
    if payload == None {
      return None;
    }
    f := Some(Frame(hd.tag, payload.value));
  }

  /** The frames a receiver reads from the stream, up to the first failure. */
  function FramesOf(segs: seq<Segment>): seq<Frame>
    decreases Size(segs)
  {
    var r := NextFrame(segs);
    if r.frame.None? then [] else [r.frame.value] + FramesOf(r.rest)
  }

  /** Round trip: on a clean stream that starts with the bytes `send_packet`
      produces for f, `recv_packet` returns f and consumes exactly
      12 + |payload| bytes, leaving whatever followed intact. */
  lemma NextFrameOfEncoded(segs: seq<Segment>, f: Frame, more: seq<byte>)
    requires Clean(segs) && Sendable(f) && Flatten(segs) == Encode(f) + more
    ensures var r := NextFrame(segs);
      r.frame == Some(f) && Clean(r.rest) && Flatten(r.rest) == more
  {
    var all := Flatten(segs);
    var enc := Encode(f);
    ReadExactClean(segs, HeaderSize);
    var h := ReadExact(segs, HeaderSize);
    assert h.bytes.value == EncodeHeader(f.tag, |f.payload|);
    HeaderRoundTrip(f.tag, |f.payload|);
    ReadExactClean(h.rest, |f.payload|);
    assert Flatten(h.rest) == f.payload + more;
    assert (f.payload + more)[..|f.payload|] == f.payload;
    assert (f.payload + more)[|f.payload|..] == more;
  }

  /** A peer that closes part-way through a frame (inside the header or
      inside the payload) makes `recv_packet` report the stream closed. */
  lemma TruncatedFrame(segs: seq<Segment>, f: Frame)
    requires Clean(segs) && Sendable(f)
    requires |Flatten(segs)| < |Encode(f)| && Flatten(segs) == Encode(f)[..|Flatten(segs)|]
    ensures NextFrame(segs).frame == None
  {
    var all := Flatten(segs);
    ReadExactClean(segs, HeaderSize);
    if |all| >= HeaderSize {
      var h := ReadExact(segs, HeaderSize);
      assert h.bytes.value == Encode(f)[..HeaderSize] == EncodeHeader(f.tag, |f.payload|);
      HeaderRoundTrip(f.tag, |f.payload|);
      ReadExactClean(h.rest, |f.payload|);
    }
  }

  /** Every clean fragmentation of a sequence of sent frames is read back as
      exactly those frames, in order. */
  lemma {:induction false} FramesOfEncoded(segs: seq<Segment>, fs: seq<Frame>)
    requires forall i :: 0 <= i < |fs| ==> Sendable(fs[i])
    requires Clean(segs) && Flatten(segs) == EncodeAll(fs)
    ensures FramesOf(segs) == fs
    decreases |fs|
  {
    if fs == [] {
      ReadExactClean(segs, HeaderSize);
      assert NextFrame(segs).frame.None?;
    } else {
      assert Sendable(fs[0]);
      assert EncodeAll(fs) == Encode(fs[0]) + EncodeAll(fs[1..]);
      NextFrameOfEncoded(segs, fs[0], EncodeAll(fs[1..]));
      var r := NextFrame(segs);
      FramesOfEncoded(r.rest, fs[1..]);
      assert FramesOf(segs) == [fs[0]] + FramesOf(r.rest);
    }
  }

  /** What a sender puts on the wire. */
  datatype Delivery = Delivery(bytes: seq<byte>, left: nat)

  /** Frames sent one `send_packet` each over a connection that carries n
      more writes: the bytes that reach the wire and the writes still left.
      Once the writes run out, every later `send_packet` returns False and
      sends nothing. */
  function Deliver(fs: seq<Frame>, n: nat): (d: Delivery)
    requires forall i :: 0 <= i < |fs| ==> Sendable(fs[i])
    ensures d.left == if n >= |fs| then n - |fs| else 0
    decreases |fs|
  {
    if fs == [] || n == 0 then Delivery([], n)
    else
      assert Sendable(fs[0]);
      var d := Deliver(fs[1..], n - 1);
      Delivery(Encode(fs[0]) + d.bytes, d.left)
  }

  /** The bytes delivered are the encoding of the first n frames (all of
      them when n is at least their number): a broken connection cuts the
      stream on a frame boundary. */
  lemma {:induction false} DeliverPrefix(fs: seq<Frame>, n: nat)
    requires forall i :: 0 <= i < |fs| ==> Sendable(fs[i])
    ensures var k := if n <= |fs| then n else |fs|;
      Deliver(fs, n).bytes == EncodeAll(fs[..k])
    decreases |fs|
  {
    var k := if n <= |fs| then n else |fs|;
    if fs == [] || n == 0 {
      assert fs[..k] == [];
    } else {
      DeliverPrefix(fs[1..], n - 1);
      assert fs[..k][0] == fs[0] && fs[..k][1..] == fs[1..][..k - 1];
    }
  }

  /** A connection that carries enough writes delivers every frame. */
  lemma DeliverAll(fs: seq<Frame>, n: nat)
    requires forall i :: 0 <= i < |fs| ==> Sendable(fs[i])
    requires n >= |fs|
    ensures Deliver(fs, n) == Delivery(EncodeAll(fs), n - |fs|)
  {
    DeliverPrefix(fs, n);
    assert fs[..|fs|] == fs;
  }

  /** Sending one frame. */
  lemma DeliverOne(f: Frame, n: nat)
    requires Sendable(f)
    ensures Deliver([f], n) == if n == 0 then Delivery([], 0) else Delivery(Encode(f), n - 1)
  {
    if n > 0 {
      assert [f][1..] == [];
      assert Encode(f) + [] == Encode(f);
    }
  }

  /** Sending a + b is sending a, then b with the writes a left over. */
  lemma {:induction false} DeliverAppend(a: seq<Frame>, b: seq<Frame>, n: nat)
    requires forall i :: 0 <= i < |a| ==> Sendable(a[i])
    requires forall i :: 0 <= i < |b| ==> Sendable(b[i])
    ensures forall i :: 0 <= i < |a + b| ==> Sendable((a + b)[i])
    ensures var da := Deliver(a, n); var db := Deliver(b, da.left);
      Deliver(a + b, n) == Delivery(da.bytes + db.bytes, db.left)
    decreases |a|
  {
    var ab := a + b;
    assert forall i :: 0 <= i < |ab| ==> ab[i] == if i < |a| then a[i] else b[i - |a|];
    if a == [] {
      assert ab == b;
    } else if n == 0 {
      assert Deliver(b, 0) == Delivery([], 0);
    } else {
      assert ab[0] == a[0] && ab[1..] == a[1..] + b;
      DeliverAppend(a[1..], b, n - 1);
      var da := Deliver(a[1..], n - 1);
      var db := Deliver(b, da.left);
      assert Deliver(ab, n) == Delivery(Encode(a[0]) + (da.bytes + db.bytes), db.left);
      AppendAssoc(Encode(a[0]), da.bytes, db.bytes);
    }
  }

  /** A receiver on a clean stream holding what a broken connection
      delivered reads back exactly the frames sent before the break. */
  lemma BrokenConnectionFrames(segs: seq<Segment>, fs: seq<Frame>, n: nat)
    requires forall i :: 0 <= i < |fs| ==> Sendable(fs[i])
    requires Clean(segs) && Flatten(segs) == Deliver(fs, n).bytes
    ensures FramesOf(segs) == fs[..if n <= |fs| then n else |fs|]
  {
    var k := if n <= |fs| then n else |fs|;
    DeliverPrefix(fs, n);
    assert forall i :: 0 <= i < k ==> fs[..k][i] == fs[i];
    FramesOfEncoded(segs, fs[..k]);
  }
}
