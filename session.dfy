/** The session object (`App`): its connection fields, the receive loop
    that routes every incoming frame to one handler, the sending helpers and
    the compression-quality setting.

    What the receive loop does to the rest of the program is specified by a
    function over a `Receiver` value (the reassembly state and the three
    logs the handlers write to); the loop is proved to apply it to exactly
    the frames `recv_packet` reads, in order. */
module Session {
  import opened Wire
  import opened Network
  import opened Display
  import opened Chat
  import opened Transfer
  import opened Text

  const ServerPort: nat := 9999

  /** The conversions the receive path depends on: the header decoder and
      whether a file can be opened (see `FileTransfer`), and
      `payload.decode("utf-8", errors="replace")` for chat text. */
  datatype Env = Env(decodeMeta: seq<byte> -> Option<Meta>, writable: string -> bool, decodeText: seq<byte> -> string)

  /** Everything the receive path changes: the reassembly state, the chat
      box, the remote view and the audio queue. */
  datatype Receiver = Receiver(rx: Rx, box: seq<string>, remote: seq<Shown>, audio: seq<seq<byte>>)

  /** A reassembly step's messages and image requests reaching the screen. */
  function Apply(s: Receiver, e: Effect): Receiver {
    Receiver(e.rx, s.box + SystemLines(e.notes), s.remote + StoredImages(e.shown), s.audio)
  }

  /** One pass of the receive loop's branch chain over a frame. */
  function Dispatch(s: Receiver, env: Env, f: Frame): (r: Receiver)
    requires Wf(s.rx)
    ensures Wf(r.rx)
  {
    if f.tag == Tag(Video) then s.(remote := s.remote + [Jpeg(f.payload)])
    else if f.tag == Tag(Text) then s.(box := s.box + [Line("Peer: " + env.decodeText(f.payload))])
    else if f.tag == Tag(Image) then s.(remote := s.remote + [Jpeg(f.payload)])
    else if f.tag == Tag(FileHeader) then Apply(s, OnHeader(s.rx, env.decodeMeta(f.payload), env.writable))
    else if f.tag == Tag(FileChunk) then Apply(s, OnChunk(s.rx, f.payload))
    else if f.tag == Tag(FileEnd) then Apply(s, OnEnd(s.rx))
    else if f.tag == Tag(Audio) then s.(audio := s.audio + [f.payload])
    else s
  }

  /** The frames handled one after another, in arrival order. */
  function DispatchAll(s: Receiver, env: Env, fs: seq<Frame>): (r: Receiver)
    requires Wf(s.rx)
    ensures Wf(r.rx)
    decreases |fs|
  {
    if fs == [] then s else DispatchAll(Dispatch(s, env, fs[0]), env, fs[1..])
  }

  lemma {:induction false} DispatchAllAppend(s: Receiver, env: Env, a: seq<Frame>, b: seq<Frame>)
    requires Wf(s.rx)
    ensures DispatchAll(s, env, a + b) == DispatchAll(DispatchAll(s, env, a), env, b)
    decreases |a|
  {
    if a == [] {
      assert a + b == b;
    } else {
      assert (a + b)[1..] == a[1..] + b;
      DispatchAllAppend(Dispatch(s, env, a[0]), env, a[1..], b);
    }
  }

  lemma DispatchOne(s: Receiver, env: Env, f: Frame)
    requires Wf(s.rx)
    ensures DispatchAll(s, env, [f]) == Dispatch(s, env, f)
  {
    assert [f][1..] == [];
  }

  /** Each kind of frame reaches exactly one handler and touches only what
      that handler writes: text the chat box, video and images the remote
      view, audio the audio queue, the three file kinds the reassembly state
      and its messages; a frame of any other tag, the H.263 video tag
      included, is consumed and changes nothing. */
  lemma DispatchRoutes(s: Receiver, env: Env, f: Frame)
    requires Wf(s.rx)
    ensures var r := Dispatch(s, env, f); var k := KindOf(f.tag);
      && (k == Some(Text) ==> r == s.(box := s.box + [Line("Peer: " + env.decodeText(f.payload))]))
      && (k == Some(Video) || k == Some(Image) ==> r == s.(remote := s.remote + [Jpeg(f.payload)]))
      && (k == Some(Audio) ==> r == s.(audio := s.audio + [f.payload]))
      && (k == Some(FileHeader) ==> r == Apply(s, OnHeader(s.rx, env.decodeMeta(f.payload), env.writable)))
      && (k == Some(FileChunk) ==> r == Apply(s, OnChunk(s.rx, f.payload)))
      && (k == Some(FileEnd) ==> r == Apply(s, OnEnd(s.rx)))
      && (k == None || k == Some(VideoH263) ==> r == s)
  {
    var k := KindOf(f.tag);
    if k.Some? {
      assert Tag(k.value) == f.tag;
      forall j: Kind ensures Tag(j) == f.tag <==> j == k.value {
        TagsDistinct(j, k.value);
      }
    }
  }

  /** The three file frames reach their reassembly handlers. */
  lemma FileDispatch(s: Receiver, env: Env, payload: seq<byte>)
    requires Wf(s.rx)
    ensures Dispatch(s, env, Frame(Tag(FileHeader), payload)) ==
      Apply(s, OnHeader(s.rx, env.decodeMeta(payload), env.writable))
    ensures Dispatch(s, env, Frame(Tag(FileChunk), payload)) == Apply(s, OnChunk(s.rx, payload))
    ensures Dispatch(s, env, Frame(Tag(FileEnd), payload)) == Apply(s, OnEnd(s.rx))
  {
    KindOfTag(FileHeader);
    KindOfTag(FileChunk);
    KindOfTag(FileEnd);
    DispatchRoutes(s, env, Frame(Tag(FileHeader), payload));
    DispatchRoutes(s, env, Frame(Tag(FileChunk), payload));
    DispatchRoutes(s, env, Frame(Tag(FileEnd), payload));
  }

  /** The chunk handler applied to each piece in turn. */
  function FeedAll(s: Receiver, pieces: seq<seq<byte>>): (r: Receiver)
    requires Wf(s.rx)
    ensures Wf(r.rx)
    decreases |pieces|
  {
    if pieces == [] then s else FeedAll(Apply(s, OnChunk(s.rx, pieces[0])), pieces[1..])
  }

  /** Chunk frames are handled as their pieces fed to the chunk handler. */
  lemma {:induction false} FramedFeed(s: Receiver, env: Env, cs: seq<seq<byte>>)
    requires Wf(s.rx) && forall i :: 0 <= i < |cs| ==> |cs[i]| <= ChunkSize
    ensures DispatchAll(s, env, Framed(cs)) == FeedAll(s, cs)
    decreases |cs|
  {
    if cs != [] {
      var fs := Framed(cs);
      assert fs[1..] == Framed(cs[1..]);
      FileDispatch(s, env, cs[0]);
      FramedFeed(Apply(s, OnChunk(s.rx, cs[0])), env, cs[1..]);
    }
  }

  /** An active transfer after a piece that does not complete it. */
  function Advance(s: Receiver, piece: seq<byte>): (t: Receiver)
    requires Wf(s.rx) && s.rx.incoming.Some?
    ensures Wf(t.rx) && t.rx.incoming.Some?
  {
    var inc := s.rx.incoming.value;
    var f := s.rx.files[inc.fp];
    Receiver(Rx(Some(inc.(received := inc.received + |piece|)), s.rx.files[inc.fp := f.(data := f.data + piece)]),
             s.box, s.remote, s.audio)
  }

  /** An active transfer completed by the bytes `rest`: its file gains them
      and is closed, the transfer is cleared, the completion note is shown,
      and an image name is requested for display. */
  function Completed(s: Receiver, rest: seq<byte>): Receiver
    requires Wf(s.rx) && s.rx.incoming.Some?
  {
    var inc := s.rx.incoming.value;
    var f := s.rx.files[inc.fp];
    Receiver(Rx(None, s.rx.files[inc.fp := f.(data := f.data + rest, closed := true)]),
             s.box + [SystemLine(DoneNote(inc.name))],
             s.remote + StoredImages(if IsImageName(inc.name) then [inc.name] else []),
             s.audio)
  }

  /** Completing after a piece is completing with the piece in front. */
  lemma CompletedAdvance(s: Receiver, a: seq<byte>, b: seq<byte>)
    requires Wf(s.rx) && s.rx.incoming.Some?
    ensures Completed(Advance(s, a), b) == Completed(s, a + b)
  {
    var inc := s.rx.incoming.value;
    UpdateTwice(s.rx.files, inc.fp, a, b);
  }

  /** Non-empty pieces whose total is exactly what an active transfer still
      expects complete it on the last piece and not before. */
  lemma {:induction false} FeedPieces(s: Receiver, cs: seq<seq<byte>>)
    requires Wf(s.rx) && s.rx.incoming.Some? && cs != [] && NoEmptyPiece(cs)
    requires s.rx.incoming.value.size == Some(s.rx.incoming.value.received + |Concat(cs)|)
    ensures FeedAll(s, cs) == Completed(s, Concat(cs))
    decreases |cs|
  {
    if |cs| == 1 {
      LastPiece(s, cs);
    } else {
      MiddlePiece(s, cs);
      FeedPieces(Advance(s, cs[0]), cs[1..]);
      CompletedAdvance(s, cs[0], Concat(cs[1..]));
    }
  }

  predicate NoEmptyPiece(cs: seq<seq<byte>>) {
    cs == [] || (cs[0] != [] && NoEmptyPiece(cs[1..]))
  }

  lemma {:induction false} NoEmptyPieceOf(cs: seq<seq<byte>>)
    requires forall i :: 0 <= i < |cs| ==> cs[i] != []
    ensures NoEmptyPiece(cs)
    decreases |cs|
  {
    if cs != [] {
      NoEmptyPieceOf(cs[1..]);
    }
  }

  /** The piece that reaches the declared size completes the transfer. */
  lemma LastPiece(s: Receiver, cs: seq<seq<byte>>)
    requires Wf(s.rx) && s.rx.incoming.Some? && |cs| == 1
    requires s.rx.incoming.value.size == Some(s.rx.incoming.value.received + |Concat(cs)|)
    ensures FeedAll(s, cs) == Completed(s, Concat(cs))
  {
    var inc := s.rx.incoming.value;
    assert cs[1..] == [];
    assert Concat(cs) == cs[0] + [] == cs[0];
    assert SystemLines([DoneNote(inc.name)]) == [SystemLine(DoneNote(inc.name))];
  }

  /** A piece followed by more non-empty pieces falls short of the
      declared size, so it only appends; the rest then make up exactly what
      is still expected. */
  lemma MiddlePiece(s: Receiver, cs: seq<seq<byte>>)
    requires Wf(s.rx) && s.rx.incoming.Some? && |cs| >= 2 && NoEmptyPiece(cs)
    requires s.rx.incoming.value.size == Some(s.rx.incoming.value.received + |Concat(cs)|)
    ensures var t := Advance(s, cs[0]);
      && NoEmptyPiece(cs[1..]) && Concat(cs) == cs[0] + Concat(cs[1..])
      && t.rx.incoming.value.size == Some(t.rx.incoming.value.received + |Concat(cs[1..])|)
      && FeedAll(s, cs) == FeedAll(t, cs[1..])
  {
    var rest := cs[1..];
    assert Concat(cs) == cs[0] + Concat(rest);
    assert rest[0] != [] && Concat(rest) == rest[0] + Concat(rest[1..]);
    assert SystemLines([]) == [] && StoredImages([]) == [];
    assert s.box + [] == s.box && s.remote + [] == s.remote;
  }

  /** Appending two pieces in turn, then closing, is appending both at once. */
  lemma UpdateTwice(files: seq<OutFile>, i: nat, a: seq<byte>, b: seq<byte>)
    requires i < |files|
    ensures var f := files[i]; var f2 := f.(data := f.data + a);
      files[i := f2][i := f2.(data := f2.data + b, closed := true)] == files[i := f.(data := f.data + (a + b), closed := true)]
  {
    AppendAssoc(files[i].data, a, b);
  }

  /** A file transfer's chunk frames, fed to an active transfer whose
      declared size is what it has plus the data, append the data, close the
      file and clear the transfer on the last chunk, with one completion
      note and, for an image name, one request to show it. */
  lemma FeedChunks(s: Receiver, env: Env, data: seq<byte>)
    requires Wf(s.rx) && s.rx.incoming.Some? && data != []
    requires s.rx.incoming.value.size == Some(s.rx.incoming.value.received + |data|)
    ensures var inc := s.rx.incoming.value; var f := s.rx.files[inc.fp];
      DispatchAll(s, env, ChunkFrames(data)) ==
        Receiver(Rx(None, s.rx.files[inc.fp := f.(data := f.data + data, closed := true)]),
                 s.box + [SystemLine(DoneNote(inc.name))],
                 s.remote + StoredImages(if IsImageName(inc.name) then [inc.name] else []),
                 s.audio)
  {
    var cs := Chunks(data);
    assert cs != [];
    NoEmptyPieceOf(cs);
    FramedFeed(s, env, cs);
    FeedPieces(s, cs);
  }

  /** A header frame the receiver decodes, naming a file it can open,
      starts a transfer of the declared size into a new empty file. */
  lemma HeaderStarts(s: Receiver, env: Env, header: seq<byte>, m: Meta)
    requires Wf(s.rx) && env.decodeMeta(header) == Some(m) && env.writable(SaveName(m))
    ensures var name := SaveName(m);
      var codec := if m.codec == Some("h263") then Some("h263") else None;
      DispatchAll(s, env, [Frame(Tag(FileHeader), header)]) ==
        Receiver(Rx(Some(Incoming(name, m.filesize, 0, |s.rx.files|, codec)), s.rx.files + [OutFile(name, [], false)]),
                 s.box + [SystemLine(StartNote(name, codec))], s.remote, s.audio)
  {
    DispatchOne(s, env, Frame(Tag(FileHeader), header));
    FileDispatch(s, env, header);
    assert StoredImages([]) == [];
  }

  /** The frames of one file transfer (header, chunks, end) delivered to the
      receiver, with a header it decodes to metadata declaring the true size
      and a file it can open: the receiver saves exactly the data to a new
      closed file and clears the transfer. A non-empty transfer completes by
      size on its last chunk, so the trailing end frame finds nothing active
      and adds nothing; an empty one is closed by the end frame. */
  lemma FileDelivered(s: Receiver, env: Env, header: seq<byte>, data: seq<byte>, m: Meta)
    requires Wf(s.rx)
    requires env.decodeMeta(header) == Some(m) && m.filesize == Some(|data|) && env.writable(SaveName(m))
    ensures var name := SaveName(m);
      var codec := if m.codec == Some("h263") then Some("h263") else None;
      DispatchAll(s, env, FileFrames(header, data)) ==
        Receiver(Rx(None, s.rx.files + [OutFile(name, data, true)]),
                 s.box + [SystemLine(StartNote(name, codec)), SystemLine(if data == [] then EndNote(name) else DoneNote(name))],
                 s.remote + StoredImages(if data != [] && IsImageName(name) then [name] else []),
                 s.audio)
  {
    var hd, cs, tl := Frame(Tag(FileHeader), header), ChunkFrames(data), Frame(Tag(FileEnd), []);
    assert FileFrames(header, data) == [hd] + cs + [tl];
    DispatchAllAppend(s, env, [hd] + cs, [tl]);
    DispatchAllAppend(s, env, [hd], cs);
    HeaderStarts(s, env, header, m);
    var s1 := DispatchAll(s, env, [hd]);
    var s2 := DispatchAll(s1, env, cs);
    DispatchOne(s2, env, tl);
    var name := SaveName(m);
    var codec := if m.codec == Some("h263") then Some("h263") else None;
    if data == [] {
      EmptyDelivered(s, s1, env, name, codec, SystemLine(StartNote(name, codec)));
    } else {
      FullDelivered(s, s1, env, data, name, codec, SystemLine(StartNote(name, codec)));
    }
  }

  /** An end frame with no active transfer changes nothing. */
  lemma EndIdle(s: Receiver, env: Env)
    requires Wf(s.rx) && s.rx.incoming.None?
    ensures Dispatch(s, env, Frame(Tag(FileEnd), [])) == s
  {
    FileDispatch(s, env, []);
    assert SystemLines([]) == [] && StoredImages([]) == [];
    assert s.box + [] == s.box && s.remote + [] == s.remote;
  }

  lemma EmptyDelivered(s: Receiver, s1: Receiver, env: Env, name: string, codec: Option<string>, start: string)
    requires Wf(s.rx)
    requires s1 == Receiver(Rx(Some(Incoming(name, Some(0), 0, |s.rx.files|, codec)), s.rx.files + [OutFile(name, [], false)]),
                            s.box + [start], s.remote, s.audio)
    ensures Wf(DispatchAll(s1, env, ChunkFrames([])).rx)
    ensures Dispatch(DispatchAll(s1, env, ChunkFrames([])), env, Frame(Tag(FileEnd), [])) ==
      Receiver(Rx(None, s.rx.files + [OutFile(name, [], true)]), s.box + [start, SystemLine(EndNote(name))],
               s.remote + StoredImages([]), s.audio)
  {
    assert ChunkFrames([]) == [];
    FileDispatch(s1, env, []);
    var fp := |s.rx.files|;
    assert (s.rx.files + [OutFile(name, [], false)])[fp := OutFile(name, [], true)] == s.rx.files + [OutFile(name, [], true)];
    assert SystemLines([EndNote(name)]) == [SystemLine(EndNote(name))];
    assert StoredImages([]) == [] && s.remote + [] == s.remote;
    AppendAssoc(s.box, [start], [SystemLine(EndNote(name))]);
  }

  lemma FullDelivered(s: Receiver, s1: Receiver, env: Env, data: seq<byte>, name: string, codec: Option<string>, start: string)
    requires Wf(s.rx) && data != []
    requires s1 == Receiver(Rx(Some(Incoming(name, Some(|data|), 0, |s.rx.files|, codec)), s.rx.files + [OutFile(name, [], false)]),
                            s.box + [start], s.remote, s.audio)
    ensures Wf(DispatchAll(s1, env, ChunkFrames(data)).rx)
    ensures Dispatch(DispatchAll(s1, env, ChunkFrames(data)), env, Frame(Tag(FileEnd), [])) ==
      Receiver(Rx(None, s.rx.files + [OutFile(name, data, true)]), s.box + [start, SystemLine(DoneNote(name))],
               s.remote + StoredImages(if IsImageName(name) then [name] else []), s.audio)
  {
    var fp := |s.rx.files|;
    FeedChunks(s1, env, data);
    var s2 := DispatchAll(s1, env, ChunkFrames(data));
    EndIdle(s2, env);
    assert [] + data == data;
    assert (s.rx.files + [OutFile(name, [], false)])[fp := OutFile(name, data, true)] == s.rx.files + [OutFile(name, data, true)];
    AppendAssoc(s.box, [start], [SystemLine(DoneNote(name))]);
  }

  /** The image sender's frames delivered to a receiver that decodes the
      header and can open the file: the image is saved under the sender's
      base name with the receive prefix, and the receiver also shows the
      JPEG itself from the final image frame. */
  lemma ImageDelivered(s: Receiver, env: Env, header: seq<byte>, path: string, jpeg: seq<byte>)
    requires Wf(s.rx)
    requires env.decodeMeta(header) == Some(ImageMeta(path, jpeg)) && env.writable("recv_" + Basename(path))
    ensures var name := "recv_" + Basename(path);
      DispatchAll(s, env, ImageFrames(header, jpeg)) ==
        Receiver(Rx(None, s.rx.files + [OutFile(name, jpeg, true)]),
                 s.box + [SystemLine(StartNote(name, None)), SystemLine(if jpeg == [] then EndNote(name) else DoneNote(name))],
                 s.remote + StoredImages(if jpeg != [] && IsImageName(name) then [name] else []) + [Jpeg(jpeg)],
                 s.audio)
  {
    var m := ImageMeta(path, jpeg);
    FileDelivered(s, env, header, jpeg, m);
    var s1 := DispatchAll(s, env, FileFrames(header, jpeg));
    var img := Frame(Tag(Image), jpeg);
    DispatchAllAppend(s, env, FileFrames(header, jpeg), [img]);
    DispatchOne(s1, env, img);
    DispatchRoutes(s1, env, img);
    KindOfTag(Image);
  }

  /** End to end: whatever way the network splits the bytes the image
      sender writes, the receive loop reads back its frames and the
      receiver ends up with the saved image, as above. */
  lemma ImageOverTheWire(segs: seq<Segment>, s: Receiver, env: Env, header: seq<byte>, path: string, jpeg: seq<byte>)
    requires Wf(s.rx) && |header| < U64Limit && |jpeg| < U64Limit
    requires Clean(segs) && Flatten(segs) == EncodeImage(header, jpeg)
    requires env.decodeMeta(header) == Some(ImageMeta(path, jpeg)) && env.writable("recv_" + Basename(path))
    ensures FramesOf(segs) == ImageFrames(header, jpeg)
    ensures var name := "recv_" + Basename(path);
      DispatchAll(s, env, FramesOf(segs)).rx == Rx(None, s.rx.files + [OutFile(name, jpeg, true)])
  {
    EncodeImageFrames(header, jpeg);
    FramesOfEncoded(segs, ImageFrames(header, jpeg));
    ImageDelivered(s, env, header, path, jpeg);
  }

  /** The same for the H.263 video sender: the receive loop routes its
      chunks to the ordinary chunk handler, which completes by size, so the
      video is saved under its AVI name. */
  lemma VideoOverTheWire(segs: seq<Segment>, s: Receiver, env: Env, header: seq<byte>, path: string, content: seq<byte>)
    requires Wf(s.rx) && |header| < U64Limit
    requires Clean(segs) && Flatten(segs) == EncodeFile(header, content)
    requires env.decodeMeta(header) == Some(VideoMeta(path, content)) && env.writable(SaveName(VideoMeta(path, content)))
    ensures FramesOf(segs) == FileFrames(header, content)
    ensures var name := SaveName(VideoMeta(path, content));
      && name == "recv_" + Basename(path) + ".h263.avi"
      && DispatchAll(s, env, FramesOf(segs)).rx == Rx(None, s.rx.files + [OutFile(name, content, true)])
  {
    EncodeFileFrames(header, content);
    FramesOfEncoded(segs, FileFrames(header, content));
    FileDelivered(s, env, header, content, VideoMeta(path, content));
    VideoSaveName(path, content);
  }

  /** Reading one frame off the stream and handling it leaves the rest of
      the stream's frames to handle. */
  lemma ReadOneFrame(s: Receiver, env: Env, segs: seq<Segment>, f: Frame, rest: seq<Segment>)
    requires Wf(s.rx) && NextFrame(segs) == Next(Some(f), rest)
    ensures DispatchAll(s, env, FramesOf(segs)) == DispatchAll(Dispatch(s, env, f), env, FramesOf(rest))
  {
    assert FramesOf(segs) == [f] + FramesOf(rest);
    assert ([f] + FramesOf(rest))[1..] == FramesOf(rest);
  }

  /** Clamping of the quality slider to [10, 95]. */
  function Clamp(v: int): (r: int)
    ensures 10 <= r <= 95
    ensures 10 <= v <= 95 ==> r == v
    ensures v < 10 ==> r == 10
    ensures v > 95 ==> r == 95
  {
    if v < 10 then 10 else if v > 95 then 95 else v
  }

  lemma ClampMonotone(u: int, v: int)
    requires u <= v
    ensures Clamp(u) <= Clamp(v) && Clamp(Clamp(u)) == Clamp(u)
  {
  }

  function QualityNote(q: int): string {
    "Quality set to " + Decimal(q)
  }

  function ConnectedNote(ip: string): string {
    "Connected to " + ip + ":" + Decimal(ServerPort)
  }

  const NoFfmpegNote: string := "ffmpeg not found — falling back to MJPEG (JPEG) transport."

  class App {
    const ui: Ui
    const chat: ChatManager
    const ft: FileTransfer
    /** `payload.decode("utf-8", errors="replace")`. */
    const decodeText: seq<byte> -> string
    const useH263: bool

    var sock: Socket?
    var running: bool
    /** Receive loops started by successful connects. */
    var loopsStarted: nat
    var quality: int

    predicate Valid()
      reads this, ft
    {
      chat.ui == ui && ft.chat == chat && ft.Valid()
    }

    function Decoders(): Env {
      Env(ft.decodeMeta, ft.writable, decodeText)
    }

    function Seen(): Receiver
      reads this, ui, ft
    {
      Receiver(ft.State(), ui.box, ui.remote, ui.audio)
    }

    /** `App.__init__`: no connection, quality 50, and a notice in the chat
        box when the video encoder is missing. */
    constructor (ffmpeg: bool, decodeMeta: seq<byte> -> Option<Meta>,
                 canOpen: string -> bool, decode: seq<byte> -> string)
      ensures Valid() && fresh(ui) && fresh(chat) && fresh(ft)
      ensures sock == null && !running && loopsStarted == 0 && quality == 50 && useH263 == ffmpeg
      ensures Decoders() == Env(decodeMeta, canOpen, decode) && ft.State() == Rx(None, [])
      ensures ui.address == DefaultServerHost && ui.entry == "" && ui.remote == [] && ui.audio == []
      ensures ui.scale == 50 && ui.status == "Ready."
      ensures ui.box == if ffmpeg then [] else [SystemLine(NoFfmpegNote)]
    {
      var u := new Ui();
      var c := new ChatManager(u);
      var t := new FileTransfer(c, decodeMeta, canOpen);
      ui, chat, ft, decodeText, useH263 := u, c, t, decode, ffmpeg;
      sock, running, loopsStarted, quality := null, false, 0, 50;
      new;
      if !ffmpeg {
        chat.AppendSystem(NoFfmpegNote);
      }
    }

    /** `connect_server`. `peer` is what the server will send, or None when
        connecting fails; `sends` how many writes the connection carries
        before it breaks. A blank address
        does nothing. The previous socket, if any, is dropped without being
        closed. */
    method ConnectServer(peer: Option<seq<Segment>>, sends: nat)
      requires Valid()
      modifies this`sock, this`running, this`loopsStarted, ui`box
      ensures Valid() && quality == old(quality)
      ensures old(sock) != null ==> unchanged(old(sock))
      ensures Strip(ui.address) == [] ==>
        sock == old(sock) && running == old(running) && loopsStarted == old(loopsStarted) && ui.box == old(ui.box)
      ensures Strip(ui.address) != [] && peer.None? ==>
        sock == null && running == old(running) && loopsStarted == old(loopsStarted) && ui.box == old(ui.box)
      ensures Strip(ui.address) != [] && peer.Some? ==>
        && sock != null && fresh(sock)
        && sock.inbox == peer.value && sock.outbox == [] && sock.sendsLeft == sends && !sock.closed
        && running && loopsStarted == old(loopsStarted) + 1
        && ui.box == old(ui.box) + [SystemLine(ConnectedNote(Strip(ui.address)))]
    {
      var ip := Strip(ui.address);
      if ip == [] {
        return;
      }
      if peer.None? {
        sock := null;
        return;
      }
      sock := new Socket(peer.value, sends);
      chat.AppendSystem(ConnectedNote(ip));
      running := true;
      loopsStarted := loopsStarted + 1;
    }

    /** `disconnect_server`: always ends with no socket and not running;
        a socket that was there is closed. Calling it again only repeats the
        message. */
    method DisconnectServer()
      requires Valid()
      modifies this`sock, this`running, ui`box, sock
      ensures Valid() && sock == null && !running
      ensures ui.box == old(ui.box) + [SystemLine("Disconnecting...")]
      ensures old(sock) != null ==>
        old(sock).closed && old(sock).inbox == old(sock.inbox) && old(sock).outbox == old(sock.outbox)
    {
      chat.AppendSystem("Disconnecting...");
      running := false;
      if sock != null {
        sock.Close();
        sock := null;
      }
    }

    /** `send_bytes`: False without a socket, else `send_packet`. */
    method SendBytes(tag: seq<byte>, payload: seq<byte>) returns (r: SendOutcome)
      modifies sock
      ensures sock == null ==> r == Returned(false)
      ensures sock != null ==> sock.inbox == old(sock.inbox) && sock.closed == old(sock.closed)
      ensures sock != null && |payload| >= U64Limit ==>
        r == Raised && sock.outbox == old(sock.outbox) && sock.sendsLeft == old(sock.sendsLeft)
      ensures sock != null && |payload| < U64Limit ==>
        && r == Returned(old(sock.Budget()) > 0)
        && sock.outbox == old(sock.outbox) + (if r.ok then Encode(Frame(tag, payload)) else [])
        && sock.sendsLeft == (if r.ok then old(sock.sendsLeft) - 1 else old(sock.sendsLeft))
    {
      if sock == null {
        return Returned(false);
      }
      r := SendPacket(sock, tag, payload);
    }

    /** `send_chat`: the entry's text, stripped, goes to the chat sender. */
    method SendChat()
      requires Valid()
      modifies ui`box, ui`entry, sock
      ensures var text := Strip(old(ui.entry));
        && (text == [] ==> ui.box == old(ui.box) && ui.entry == old(ui.entry))
        && (text != [] ==> ui.entry == "")
        && (text != [] ==>
              ui.box == old(ui.box) + [Line("You: " + text)] + (if sock != null && |Utf8(text)| >= U64Limit then [SystemLine("Failed to send chat")] else []))
        && (sock != null ==> sock.inbox == old(sock.inbox) && sock.closed == old(sock.closed))
        && (sock != null && (text == [] || |Utf8(text)| >= U64Limit) ==>
              sock.outbox == old(sock.outbox) && sock.sendsLeft == old(sock.sendsLeft))
        && (sock != null && text != [] && |Utf8(text)| < U64Limit ==>
              var sent := old(sock.Budget()) > 0;
              && sock.outbox == old(sock.outbox) + (if sent then Encode(Frame(Tag(Text), Utf8(text))) else [])
              && sock.sendsLeft == (if sent then old(sock.sendsLeft) - 1 else old(sock.sendsLeft)))
    {
      var text := Strip(ui.entry);
      chat.Send(text, sock);
    }

    /** `on_quality_progress_changed`: the progress value, as `int()` reads
        it (None when that raises, which the handler swallows), clamped to
        [10, 95], becomes the quality, the slider position and the status. */
    method OnQualityProgressChanged(progress: Option<int>)
      modifies this`quality, ui`scale, ui`status
      ensures progress.None? ==>
        quality == old(quality) && ui.scale == old(ui.scale) && ui.status == old(ui.status)
      ensures progress.Some? ==> 10 <= quality <= 95 && quality == Clamp(progress.value)
      ensures progress.Some? ==> ui.scale == quality && ui.status == QualityNote(quality)
    {
      if progress.Some? {
        var v := Clamp(progress.value);
        quality := v;
        ui.scale := v;
        ui.status := QualityNote(v);
      }
    }

    /** `update_quality`: the slider's value, as `int()` reads it (None
        when that raises), becomes the quality unclamped. */
    method UpdateQuality(v: Option<int>)
      modifies this`quality, ui`status
      ensures v.None? ==> quality == old(quality) && ui.status == old(ui.status)
      ensures v.Some? ==> quality == v.value && ui.status == QualityNote(v.value)
    {
      if v.Some? {
        quality := v.value;
        ui.status := QualityNote(v.value);
      }
    }

    /** The branch chain of `recv_loop` for one frame. */
    method Handle(f: Frame)
      requires Valid()
      modifies ui`box, ui`remote, ui`audio, ft`incoming, ft`files
      ensures Valid()
      ensures Seen() == Dispatch(old(Seen()), Decoders(), f)
    {
      if f.tag == Tag(Video) {
        ui.remote := ui.remote + [Jpeg(f.payload)];
      } else if f.tag == Tag(Text) {
        chat.HandleIncoming(decodeText(f.payload));
      } else if f.tag == Tag(Image) {
        ui.remote := ui.remote + [Jpeg(f.payload)];
      } else if f.tag == Tag(FileHeader) {
        ft.HandleFileHeader(f.payload);
      } else if f.tag == Tag(FileChunk) {
        ft.HandleFileChunk(f.payload);
      } else if f.tag == Tag(FileEnd) {
        ft.HandleFileEnd();
      } else if f.tag == Tag(Audio) {
        ui.audio := ui.audio + [f.payload];
      }
    }

    /** The `while` of `recv_loop`: while running with a socket, read
        frames and handle each in turn until `recv_packet` reports the
        stream closed or cut short. On an open socket the handlers see
        exactly the frames the peer's bytes hold, up to the first failure;
        only the socket's unread input and the screen and reassembly state
        change. */
    method Drain()
      requires Valid()
      modifies ui`box, ui`remote, ui`audio, ft`incoming, ft`files, (if sock == null then {} else {sock})`inbox
      ensures Valid()
      ensures var live := running && sock != null && !old(sock.closed);
        Seen() == if live then DispatchAll(old(Seen()), Decoders(), FramesOf(old(sock.inbox))) else old(Seen())
    {
      ghost var live := running && sock != null && !sock.closed;
      ghost var start := Seen();
      ghost var frames := if live then FramesOf(sock.inbox) else [];
      while running && sock != null
        invariant Valid() && (sock != null ==> sock.closed == old(sock.closed))
        invariant live ==> DispatchAll(start, Decoders(), frames) == DispatchAll(Seen(), Decoders(), FramesOf(sock.inbox))
        invariant !live ==> Seen() == start
        decreases if sock != null then Size(sock.inbox) else 0
      {
        ghost var before, seen := sock.inbox, Seen();
        var f := RecvPacket(sock);
        if f.None? {
          assert live ==> FramesOf(before) == [];
          break;
        }
        Handle(f.value);
        ReadOneFrame(seen, Decoders(), before, f.value, sock.inbox);
      }
    }

    /** `recv_loop`: the loop above, then close and drop the socket, stop
        running, and say so once. The socket's output is left as it was. */
    method RecvLoop()
      requires Valid()
      modifies this`sock, this`running, ui`box, ui`remote, ui`audio, ft`incoming, ft`files, sock
      ensures Valid() && sock == null && !running
      ensures old(sock) != null ==> old(sock).closed
      ensures old(sock) != null ==>
        old(sock).outbox == old(sock.outbox) && old(sock).sendsLeft == old(sock.sendsLeft)
      ensures var live := old(running) && old(sock) != null && !old(sock.closed);
        var s := if live then DispatchAll(old(Seen()), Decoders(), FramesOf(old(sock.inbox))) else old(Seen());
        ft.State() == s.rx && ui.box == s.box + [SystemLine("Disconnected from server")] &&
        ui.remote == s.remote && ui.audio == s.audio
    {
      Drain();
      if sock != null {
        sock.Close();
        sock := null;
      }
      running := false;
      chat.AppendSystem("Disconnected from server");
    }
  }
}
