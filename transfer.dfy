/** Incoming file reassembly (`FileTransfer.handle_file_header`,
    `handle_file_chunk`, `handle_h263_chunk`, `handle_file_end`) and the
    chunking of the two file senders.

    The reassembly is specified by functions on an `Rx` value (the active
    transfer and every output file opened so far) that return the new value
    together with the system messages and the image-display requests it
    causes; the `FileTransfer` class updates its fields step by step and is
    proved to follow those functions. */
module Transfer {
  import opened Wire
  import opened Network
  import opened Display
  import opened Chat

  /** A header's metadata as the JSON decoder leaves it; None for a key
      that is absent. */
  datatype Meta = Meta(filename: Option<string>, filesize: Option<int>, codec: Option<string>)

  /** An output file opened by a header: its name, the bytes written to it,
      and whether it has been closed. */
  datatype OutFile = OutFile(name: string, data: seq<byte>, closed: bool)

  /** `self.incoming` when it is not None; `fp` is the position of its file
      among all files opened. */
  datatype Incoming = Incoming(name: string, size: Option<int>, received: nat, fp: nat, codec: Option<string>)

  datatype Rx = Rx(incoming: Option<Incoming>, files: seq<OutFile>)

  /** The active transfer's file exists, is still open and holds exactly
      the bytes counted as received. */
  predicate Wf(rx: Rx) {
    rx.incoming.Some? ==>
      var inc := rx.incoming.value;
      inc.fp < |rx.files| && !rx.files[inc.fp].closed &&
      rx.files[inc.fp].name == inc.name && |rx.files[inc.fp].data| == inc.received
  }

  /** A step's result: the new state, the system messages it emits, and the
      names of saved images it asks the remote view to show. */
  datatype Effect = Effect(rx: Rx, notes: seq<string>, shown: seq<string>)

  function Quiet(rx: Rx): Effect {
    Effect(rx, [], [])
  }

  /** The index of the last c in s, or -1 (`str.rfind`). */
  function RFind(s: string, c: char): (r: int)
    ensures -1 <= r < |s|
    ensures r >= 0 ==> s[r] == c
    ensures forall j :: r < j < |s| ==> s[j] != c
  {
    if s == [] then -1
    else if s[|s| - 1] == c then |s| - 1
    else RFind(s[..|s| - 1], c)
  }

  datatype Split = Split(root: string, ext: string)

  /** POSIX `os.path.splitext`: the extension starts at the last dot of the
      last path component, unless everything before that dot in the
      component is dots too (".bashrc" has no extension). */
  function SplitExt(p: string): (r: Split)
    ensures r.root + r.ext == p
    ensures r.ext == [] || (r.ext[0] == '.' && forall i :: 1 <= i < |r.ext| ==> r.ext[i] != '.' && r.ext[i] != '/')
    ensures r.ext != [] <==> exists i, j :: RFind(p, '/') < i < j < |p| && p[i] != '.' && p[j] == '.'
  {
    var sep := RFind(p, '/');
    var dot := RFind(p, '.');
    if dot > sep && exists i :: sep + 1 <= i < dot && p[i] != '.' then
      assert p[..dot] + p[dot..] == p;
      Split(p[..dot], p[dot..])
    else
      assert p + [] == p;
      Split(p, [])
  }

  /** POSIX `os.path.basename`. */
  function Basename(p: string): (r: string)
    ensures forall i :: 0 <= i < |r| ==> r[i] != '/'
    ensures |r| <= |p| && r == p[|p| - |r|..]
    ensures |r| == |p| || p[|p| - |r| - 1] == '/'
  {
    p[RFind(p, '/') + 1..]
  }

  const DefaultName: string := "received.bin"

  /** Where an incoming file is saved. */
  function SaveName(m: Meta): string {
    var fname := if m.filename.Some? then m.filename.value else DefaultName;
    if m.codec == Some("h263") then "recv_" + SplitExt(fname).root + ".avi"
    else "recv_" + fname
  }

  /** Every saved file is prefixed "recv_". The name is the sent one (or
      "received.bin" when none was given), except that an H.263 transfer
      trades its last extension for ".avi". */
  lemma SaveNameShape(m: Meta)
    ensures var r, fname := SaveName(m), if m.filename.Some? then m.filename.value else DefaultName;
      && |r| >= 5 && r[..5] == "recv_"
      && (m.codec != Some("h263") ==> r[5..] == fname)
      && (m.codec == Some("h263") ==> |r| >= 9 && r[|r| - 4..] == ".avi" && r[5..|r| - 4] + SplitExt(fname).ext == fname)
  {
    var fname := if m.filename.Some? then m.filename.value else DefaultName;
    var r := SaveName(m);
    if m.codec == Some("h263") {
      var root := SplitExt(fname).root;
      assert r == "recv_" + root + ".avi";
      assert r[5..|r| - 4] == root;
    } else {
      assert r == "recv_" + fname;
    }
  }

  /** An H.263 transfer is saved as an AVI container of the same root. */
  lemma SaveNameH263Example()
    ensures SaveName(Meta(Some("clip.mp4"), Some(10), Some("h263"))) == "recv_clip.avi"
  {
    var p := "clip.mp4";
    SplitExtExample(p);
    assert p[..4] == "clip";
  }

  lemma SplitExtExample(p: string)
    requires p == "clip.mp4"
    ensures SplitExt(p) == Split(p[..4], p[4..])
  {
    assert p[4] == '.' && p[0] != '.';
    assert RFind(p, '/') == -1 by {
      assert forall j :: 0 <= j < |p| ==> p[j] != '/';
    }
    assert RFind(p, '.') == 4 by {
      assert p[5] != '.' && p[6] != '.' && p[7] != '.';
    }
  }

  /** The last c in p + s is the last c in s when s has one, else the last
      c in p. */
  lemma {:induction false} RFindAppend(p: string, s: string, c: char)
    ensures RFind(p + s, c) == if RFind(s, c) >= 0 then |p| + RFind(s, c) else RFind(p, c)
    decreases |s|
  {
    if s == [] {
      assert p + s == p;
    } else if s[|s| - 1] != c {
      assert (p + s)[..|p + s| - 1] == p + s[..|s| - 1];
      RFindAppend(p, s[..|s| - 1], c);
    }
  }

  const VideoSuffix: string := ".h263.avi"

  lemma VideoSuffixMarks()
    ensures RFind(VideoSuffix, '/') == -1 && RFind(VideoSuffix, '.') == 5
  {
    var x := VideoSuffix;
    assert x == ['.', 'h', '2', '6', '3', '.', 'a', 'v', 'i'];
    assert x[5] == '.' && x[6] != '.' && x[7] != '.' && x[8] != '.';
    assert forall j :: 0 <= j < |x| ==> x[j] != '/';
  }

  /** The video sender names its file after the base name of the path with
      ".h263.avi" appended; the receiver's H.263 rule strips the last
      extension and adds ".avi" again, so the video is saved as
      "recv_" + base name + ".h263.avi". */
  lemma VideoSaveName(path: string, content: seq<byte>)
    ensures SaveName(VideoMeta(path, content)) == "recv_" + Basename(path) + VideoSuffix
  {
    var b := Basename(path);
    BasenameVideo(path);
    SplitVideoName(b);
    var root := SplitExt(b + VideoSuffix).root;
    assert SaveName(VideoMeta(path, content)) == "recv_" + root + ".avi";
    AppendAssoc("recv_", root, ".avi");
    AppendAssoc("recv_", b, VideoSuffix);
  }

  lemma BasenameVideo(path: string)
    ensures Basename(path + VideoSuffix) == Basename(path) + VideoSuffix
  {
    VideoSuffixMarks();
    var sep := RFind(path, '/');
    RFindAppend(path, VideoSuffix, '/');
    assert (path + VideoSuffix)[sep + 1..] == path[sep + 1..] + VideoSuffix;
  }

  lemma SplitVideoName(b: string)
    requires forall i :: 0 <= i < |b| ==> b[i] != '/'
    ensures SplitExt(b + VideoSuffix).root + ".avi" == b + VideoSuffix
  {
    VideoSuffixMarks();
    var q := b + VideoSuffix;
    RFindAppend(b, VideoSuffix, '/');
    assert RFind(b, '/') == -1;
    RFindAppend(b, VideoSuffix, '.');
    var dot := |b| + 5;
    assert q[|b| + 1] == 'h';
    assert q[..dot] == b + ".h263";
    assert b + ".h263" + ".avi" == b + VideoSuffix;
  }

  function StartNote(name: string, codec: Option<string>): string {
    if codec == Some("h263") then "[수신 시작] H.263 비디오: " + name else "[수신 시작] 파일: " + name
  }

  function DoneNote(name: string): string { "[수신 완료] " + name }

  function EndNote(name: string): string { "[수신 종료] " + name }

  /** ASCII lower case. */
  function Lower(s: string): (r: string)
    ensures |r| == |s|
    ensures forall i :: 0 <= i < |s| ==> r[i] == if 'A' <= s[i] <= 'Z' then (s[i] as int + 32) as char else s[i]
  {
    if s == [] then []
    else [if 'A' <= s[0] <= 'Z' then (s[0] as int + 32) as char else s[0]] + Lower(s[1..])
  }

  predicate EndsWith(s: string, suffix: string) {
    |suffix| <= |s| && s[|s| - |suffix|..] == suffix
  }

  /** The extensions of files the receiver shows as images. */
  const ImageExtensions: seq<string> := [".jpg", ".jpeg", ".png", ".bmp", ".webp"]

  predicate EndsWithAny(s: string, suffixes: seq<string>) {
    suffixes != [] && (EndsWith(s, suffixes[0]) || EndsWithAny(s, suffixes[1..]))
  }

  /** A saved file that the receiver shows as an image once complete. */
  predicate IsImageName(name: string) {
    EndsWithAny(Lower(name), ImageExtensions)
  }

  /** s ends with one of the suffixes. */
  lemma {:induction false} EndsWithAnySpec(s: string, suffixes: seq<string>)
    ensures EndsWithAny(s, suffixes) <==> exists k :: 0 <= k < |suffixes| && EndsWith(s, suffixes[k])
    decreases |suffixes|
  {
    if suffixes != [] {
      EndsWithAnySpec(s, suffixes[1..]);
      if EndsWithAny(s, suffixes[1..]) {
        var k :| 0 <= k < |suffixes| - 1 && EndsWith(s, suffixes[1..][k]);
        assert EndsWith(s, suffixes[k + 1]);
      }
      forall k | 1 <= k < |suffixes| && EndsWith(s, suffixes[k])
        ensures EndsWithAny(s, suffixes[1..])
      {
        assert suffixes[1..][k - 1] == suffixes[k];
      }
    }
  }

  /** A name is an image's exactly when, lower-cased, it ends with one of
      the image extensions. */
  lemma IsImageNameSpec(name: string)
    ensures IsImageName(name) <==>
      exists k :: 0 <= k < |ImageExtensions| && EndsWith(Lower(name), ImageExtensions[k])
  {
    EndsWithAnySpec(Lower(name), ImageExtensions);
  }

  /** FILE_HEADER. `meta` is None when the payload is not UTF-8 JSON;
      `writable` says whether a file of that name can be opened. */
  function OnHeader(rx: Rx, meta: Option<Meta>, writable: string -> bool): (e: Effect)
    ensures Wf(rx) ==> Wf(e.rx)
    ensures e.shown == []
  {
    if meta.None? then Quiet(rx)
    else
      var m := meta.value;
      var name := SaveName(m);
      if !writable(name) then Quiet(rx)
      else
        var codec := if m.codec == Some("h263") then Some("h263") else None;
        Effect(Rx(Some(Incoming(name, m.filesize, 0, |rx.files|, codec)), rx.files + [OutFile(name, [], false)]),
               [StartNote(name, codec)], [])
  }

  /** Whether a transfer that has now received `received` bytes is complete. */
  predicate Reached(size: Option<int>, received: nat) {
    size.Some? && received >= size.value
  }

  /** FILE_CHUNK. */
  function OnChunk(rx: Rx, payload: seq<byte>): (e: Effect)
    requires Wf(rx)
    ensures Wf(e.rx)
  {
    if rx.incoming.None? then Quiet(rx)
    else
      var inc := rx.incoming.value;
      var f := rx.files[inc.fp];
      var received := inc.received + |payload|;
      if Reached(inc.size, received) then
        Effect(Rx(None, rx.files[inc.fp := f.(data := f.data + payload, closed := true)]),
               [DoneNote(inc.name)], if IsImageName(inc.name) then [inc.name] else [])
      else
        Quiet(Rx(Some(inc.(received := received)), rx.files[inc.fp := f.(data := f.data + payload)]))
  }

  /** The H.263 chunk handler (which the receive loop never calls): appends
      to an active H.263 transfer without checking for completion. */
  function OnH263Chunk(rx: Rx, payload: seq<byte>): (e: Effect)
    requires Wf(rx)
    ensures Wf(e.rx) && e.rx.incoming.Some? == rx.incoming.Some?
    ensures |e.rx.files| == |rx.files| && e.notes == [] && e.shown == []
  {
    if rx.incoming.None? || rx.incoming.value.codec != Some("h263") then Quiet(rx)
    else
      var inc := rx.incoming.value;
      var f := rx.files[inc.fp];
      Quiet(Rx(Some(inc.(received := inc.received + |payload|)), rx.files[inc.fp := f.(data := f.data + payload)]))
  }

  /** FILE_END. */
  function OnEnd(rx: Rx): (e: Effect)
    requires Wf(rx)
    ensures Wf(e.rx) && e.rx.incoming.None?
    ensures |e.rx.files| == |rx.files| && e.shown == []
  {
    if rx.incoming.None? then Quiet(rx)
    else
      var inc := rx.incoming.value;
      var f := rx.files[inc.fp];
      Effect(Rx(None, rx.files[inc.fp := f.(closed := true)]), [EndNote(inc.name)], [])
  }

  /** A header that cannot be decoded, or whose file cannot be opened,
      leaves everything as it was. A good header installs a fresh transfer
      with nothing received, in a new empty open file; an earlier active
      transfer is dropped and its file left open. */
  lemma HeaderEffect(rx: Rx, meta: Option<Meta>, writable: string -> bool)
    requires Wf(rx)
    ensures var e := OnHeader(rx, meta, writable);
      && (meta.None? || !writable(SaveName(meta.value)) ==> e == Quiet(rx))
      && (meta.Some? && writable(SaveName(meta.value)) ==>
            && e.rx.incoming.Some?
            && e.rx.incoming.value.name == SaveName(meta.value)
            && e.rx.incoming.value.size == meta.value.filesize
            && e.rx.incoming.value.received == 0
            && e.rx.incoming.value.fp == |rx.files|
            && e.rx.incoming.value.codec == (if meta.value.codec == Some("h263") then Some("h263") else None)
            && e.rx.files == rx.files + [OutFile(SaveName(meta.value), [], false)]
            && e.notes == [StartNote(SaveName(meta.value), e.rx.incoming.value.codec)]
            && e.shown == []
            && (rx.incoming.Some? ==>
                  e.rx.incoming.value.fp != rx.incoming.value.fp &&
                  !e.rx.files[rx.incoming.value.fp].closed))
  {
  }

  /** A chunk with no active transfer changes nothing. Otherwise its bytes
      are appended to the transfer's file, and the transfer completes (file
      closed, transfer cleared, completion note, image shown when the name
      is an image's) exactly when the declared size is known and reached;
      else the count grows by the chunk's length. */
  lemma ChunkEffect(rx: Rx, payload: seq<byte>)
    requires Wf(rx)
    ensures var e := OnChunk(rx, payload);
      && (rx.incoming.None? ==> e == Quiet(rx))
      && (rx.incoming.Some? ==>
            var inc := rx.incoming.value;
            var done := Reached(inc.size, inc.received + |payload|);
            && |e.rx.files| == |rx.files|
            && e.rx.files[inc.fp].data == rx.files[inc.fp].data + payload
            && (forall i :: 0 <= i < |rx.files| && i != inc.fp ==> e.rx.files[i] == rx.files[i])
            && (e.rx.incoming.None? <==> done)
            && (done ==> e.rx.files[inc.fp].closed && e.notes == [DoneNote(inc.name)] &&
                         (e.shown == [inc.name] <==> IsImageName(inc.name)) &&
                         (e.shown == [] <==> !IsImageName(inc.name)))
            && (!done ==> e.rx.incoming == Some(inc.(received := inc.received + |payload|)) &&
                          e.notes == [] && e.shown == []))
  {
  }

  /** Without a declared size no chunk completes a transfer. */
  lemma NoSizeNeverCompletes(rx: Rx, payload: seq<byte>)
    requires Wf(rx) && rx.incoming.Some? && rx.incoming.value.size.None?
    ensures var e := OnChunk(rx, payload);
      e.rx.incoming.Some? && e.rx.incoming.value.size.None? &&
      e.rx.incoming.value.received == rx.incoming.value.received + |payload| && e.notes == []
  {
  }

  /** FILE_END closes and clears an active transfer with one end note; with
      none active it changes nothing, so a second FILE_END is a no-op. */
  lemma EndEffect(rx: Rx)
    requires Wf(rx)
    ensures var e := OnEnd(rx);
      && e.rx.incoming.None?
      && (rx.incoming.None? ==> e == Quiet(rx))
      && (rx.incoming.Some? ==>
            e.rx.files == rx.files[rx.incoming.value.fp := rx.files[rx.incoming.value.fp].(closed := true)] &&
            e.notes == [EndNote(rx.incoming.value.name)])
      && OnEnd(e.rx) == Quiet(e.rx)
  {
  }

  const ChunkSize: nat := 4096

  /** The pieces `jpeg_bytes[i:i+4096]` for i = 0, 4096, ... (and, the same
      thing, successive `f.read(4096)` calls until an empty read). */
  function Chunks(data: seq<byte>): (cs: seq<seq<byte>>)
    ensures forall i :: 0 <= i < |cs| ==> 1 <= |cs[i]| <= ChunkSize
    ensures Concat(cs) == data
    decreases |data|
  {
    if data == [] then []
    else if |data| <= ChunkSize then
      assert Concat([data]) == data + [];
      [data]
    else
      var cs := [data[..ChunkSize]] + Chunks(data[ChunkSize..]);
      assert cs[1..] == Chunks(data[ChunkSize..]);
      assert data == data[..ChunkSize] + data[ChunkSize..];
      cs
  }

  function Concat(cs: seq<seq<byte>>): seq<byte> {
    if cs == [] then [] else cs[0] + Concat(cs[1..])
  }

  /** Chunk k is the slice starting at k * 4096; every chunk but the last is full. */
  lemma {:induction false} ChunkAt(data: seq<byte>, k: nat)
    requires k < |Chunks(data)|
    ensures k * ChunkSize < |data|
    ensures Chunks(data)[k] ==
      data[k * ChunkSize .. if (k + 1) * ChunkSize <= |data| then (k + 1) * ChunkSize else |data|]
    ensures k < |Chunks(data)| - 1 ==> |Chunks(data)[k]| == ChunkSize
    decreases |data|
  {
    if |data| > ChunkSize && k > 0 {
      var tail := data[ChunkSize..];
      assert Chunks(data)[k] == Chunks(tail)[k - 1];
      ChunkAt(tail, k - 1);
      assert (k - 1) * ChunkSize + ChunkSize == k * ChunkSize;
      assert k * ChunkSize + ChunkSize == (k + 1) * ChunkSize;
      assert tail[(k - 1) * ChunkSize..] == data[k * ChunkSize..];
    }
  }

  /** FILE_CHUNK frames carrying the given pieces, in order. */
  function Framed(cs: seq<seq<byte>>): (fs: seq<Frame>)
    requires forall i :: 0 <= i < |cs| ==> |cs[i]| <= ChunkSize
    ensures |fs| == |cs|
    ensures forall i :: 0 <= i < |fs| ==> fs[i] == Frame(Tag(FileChunk), cs[i]) && Sendable(fs[i])
  {
    if cs == [] then [] else [Frame(Tag(FileChunk), cs[0])] + Framed(cs[1..])
  }

  /** The chunk frames a sender emits for data. */
  function ChunkFrames(data: seq<byte>): (fs: seq<Frame>)
    ensures |fs| == |Chunks(data)|
    ensures forall i :: 0 <= i < |fs| ==> fs[i] == Frame(Tag(FileChunk), Chunks(data)[i]) && Sendable(fs[i])
  {
    Framed(Chunks(data))
  }

  /** What is left of data from position i on. */
  function From(data: seq<byte>, i: nat): seq<byte> {
    if i < |data| then data[i..] else []
  }

  lemma ChunkFramesStep(data: seq<byte>, i: nat)
    requires i < |data|
    ensures var end := if i + ChunkSize <= |data| then i + ChunkSize else |data|;
      ChunkFrames(From(data, i)) == [Frame(Tag(FileChunk), data[i..end])] + ChunkFrames(From(data, i + ChunkSize))
  {
    var rest := data[i..];
    var end := if i + ChunkSize <= |data| then i + ChunkSize else |data|;
    var cs := Chunks(rest);
    if |rest| > ChunkSize {
      assert rest[ChunkSize..] == data[i + ChunkSize..];
      assert cs == [rest[..ChunkSize]] + Chunks(From(data, i + ChunkSize));
    } else {
      assert cs == [rest] + Chunks(From(data, i + ChunkSize));
    }
    assert rest[..end - i] == data[i..end];
    assert cs[1..] == Chunks(From(data, i + ChunkSize));
  }

  /** The frames of one file transfer, as both senders emit them: a header,
      the chunks, and an empty end frame. */
  function FileFrames(header: seq<byte>, data: seq<byte>): (fs: seq<Frame>)
    ensures |fs| == |Chunks(data)| + 2
    ensures |header| < U64Limit ==> forall i :: 0 <= i < |fs| ==> Sendable(fs[i])
  {
    [Frame(Tag(FileHeader), header)] + ChunkFrames(data) + [Frame(Tag(FileEnd), [])]
  }

  /** The image sender's frames: the file transfer, then the whole image once
      more for immediate display. */
  function ImageFrames(header: seq<byte>, jpeg: seq<byte>): (fs: seq<Frame>)
    ensures |fs| == |Chunks(jpeg)| + 3
    ensures |header| < U64Limit && |jpeg| < U64Limit ==> forall i :: 0 <= i < |fs| ==> Sendable(fs[i])
  {
    FileFrames(header, jpeg) + [Frame(Tag(Image), jpeg)]
  }

  /** What the image sender's header declares. */
  function ImageMeta(path: string, jpeg: seq<byte>): Meta {
    Meta(Some(Basename(path)), Some(|jpeg|), None)
  }

  /** What the video sender's header declares (its quality figures are not
      read by the receiver and are left out). */
  function VideoMeta(path: string, content: seq<byte>): Meta {
    Meta(Some(Basename(path + ".h263.avi")), Some(|content|), Some("h263"))
  }

  class FileTransfer {
    var incoming: Option<Incoming>
    /** Every file a header has opened, in order. */
    var files: seq<OutFile>
    /** Where system messages go (`app.system_msg`). */
    const chat: ChatManager
    /** `json.loads(payload.decode("utf-8"))`, None when either raises. */
    const decodeMeta: seq<byte> -> Option<Meta>
    /** Whether `open(name, "wb")` succeeds. */
    const writable: string -> bool

    function State(): Rx
      reads this
    {
      Rx(incoming, files)
    }

    predicate Valid()
      reads this
    {
      Wf(State())
    }

    constructor (c: ChatManager, decode: seq<byte> -> Option<Meta>, canOpen: string -> bool)
      ensures Valid() && incoming == None && files == []
      ensures chat == c && decodeMeta == decode && writable == canOpen
    {
      incoming, files := None, [];
      chat, decodeMeta, writable := c, decode, canOpen;
    }

    /** Notes and image requests of a step, as they reach the screen. */
    ghost predicate Shows(e: Effect, box0: seq<string>, remote0: seq<Shown>)
      reads chat.ui
    {
      chat.ui.box == box0 + SystemLines(e.notes) &&
      chat.ui.remote == remote0 + StoredImages(e.shown)
    }

    /** `handle_file_header`. */
    method HandleFileHeader(payload: seq<byte>)
      requires Valid()
      modifies this`incoming, this`files, chat.ui`box
      ensures Valid()
      ensures var e := OnHeader(old(State()), decodeMeta(payload), writable);
        State() == e.rx && Shows(e, old(chat.ui.box), old(chat.ui.remote))
    {
      var meta := decodeMeta(payload);
      HeaderEffect(State(), meta, writable);
      if meta.None? {
        assert SystemLines([]) == [] && StoredImages([]) == [];
        return;
      }
      var m := meta.value;
      var fname := if m.filename.Some? then m.filename.value else DefaultName;
      if m.codec == Some("h263") {
        var saveName := "recv_" + SplitExt(fname).root + ".avi";
        assert saveName == SaveName(m);
        if !writable(saveName) {
          assert SystemLines([]) == [] && StoredImages([]) == [];
          return;
        }
        files := files + [OutFile(saveName, [], false)];
        incoming := Some(Incoming(saveName, m.filesize, 0, |files| - 1, Some("h263")));
        chat.AppendSystem("[수신 시작] H.263 비디오: " + saveName);
        assert SystemLines([StartNote(saveName, Some("h263"))]) == [SystemLine(StartNote(saveName, Some("h263")))];
      } else {
        var saveName := "recv_" + fname;
        assert saveName == SaveName(m);
        if !writable(saveName) {
          assert SystemLines([]) == [] && StoredImages([]) == [];
          return;
        }
        files := files + [OutFile(saveName, [], false)];
        incoming := Some(Incoming(saveName, m.filesize, 0, |files| - 1, None));
        chat.AppendSystem("[수신 시작] 파일: " + saveName);
        assert SystemLines([StartNote(saveName, None)]) == [SystemLine(StartNote(saveName, None))];
      }
    }

    /** `handle_file_chunk`. */
    method HandleFileChunk(payload: seq<byte>)
      requires Valid()
      modifies this`incoming, this`files, chat.ui`box, chat.ui`remote
      ensures Valid()
      ensures var e := OnChunk(old(State()), payload);
        State() == e.rx && Shows(e, old(chat.ui.box), old(chat.ui.remote))
    {
      ghost var e := OnChunk(State(), payload);
      if incoming.None? {
        assert SystemLines([]) == [] && StoredImages([]) == [];
        return;
      }
      var info := incoming.value;
      files := files[info.fp := files[info.fp].(data := files[info.fp].data + payload)];
      info := info.(received := info.received + |payload|);
      incoming := Some(info);
      if info.size.Some? && info.received >= info.size.value {
        files := files[info.fp := files[info.fp].(closed := true)];
        var name := info.name;
        incoming := None;
        chat.AppendSystem("[수신 완료] " + name);
        assert e.notes == [DoneNote(name)] && SystemLines(e.notes) == [SystemLine(DoneNote(name))];
        if IsImageName(name) {
          chat.ui.remote := chat.ui.remote + [StoredImage(name)];
          assert StoredImages(e.shown) == [StoredImage(name)];
        } else {
          assert StoredImages(e.shown) == [];
        }
      } else {
        assert SystemLines([]) == [] && StoredImages([]) == [];
      }
    }

    /** `handle_h263_chunk`. */
    method HandleH263Chunk(payload: seq<byte>)
      requires Valid()
      modifies this`incoming, this`files
      ensures Valid()
      ensures State() == OnH263Chunk(old(State()), payload).rx
    {
      if incoming.None? || incoming.value.codec != Some("h263") {
        return;
      }
      var info := incoming.value;
      files := files[info.fp := files[info.fp].(data := files[info.fp].data + payload)];
      incoming := Some(info.(received := info.received + |payload|));
    }

    /** `handle_file_end`. */
    method HandleFileEnd()
      requires Valid()
      modifies this`incoming, this`files, chat.ui`box
      ensures Valid()
      ensures var e := OnEnd(old(State()));
        State() == e.rx && Shows(e, old(chat.ui.box), old(chat.ui.remote))
    {
      if incoming.Some? {
        var name := incoming.value.name;
        var fp := incoming.value.fp;
        files := files[fp := files[fp].(closed := true)];
        incoming := None;
        chat.AppendSystem("[수신 종료] " + name);
      }
    }

    /** The framing part of `compress_and_send_with_quality`: `path` is the
        chosen file ("" when the dialog was cancelled), `jpeg` the encoded
        image (None when loading or encoding failed), `toJson` the header
        serialiser. Nothing is sent without a socket; a header the packer
        refuses raises before anything is written. Otherwise the frames go
        out one write each until the connection breaks; an image too long
        for the packer raises at its IMAGE frame, after the transfer. */
    method SendImage(path: string, jpeg: Option<seq<byte>>, sock: Socket?, toJson: Meta -> seq<byte>)
      modifies sock
      ensures sock != null ==> sock.inbox == old(sock.inbox) && sock.closed == old(sock.closed)
      ensures sock != null && (path == "" || jpeg.None? || |toJson(ImageMeta(path, jpeg.value))| >= U64Limit) ==>
        sock.outbox == old(sock.outbox) && sock.sendsLeft == old(sock.sendsLeft)
      ensures sock != null && path != "" && jpeg.Some? && |toJson(ImageMeta(path, jpeg.value))| < U64Limit ==>
        var header := toJson(ImageMeta(path, jpeg.value));
        var d := if |jpeg.value| < U64Limit then Deliver(ImageFrames(header, jpeg.value), old(sock.Budget()))
                 else Deliver(FileFrames(header, jpeg.value), old(sock.Budget()));
        sock.outbox == old(sock.outbox) + d.bytes && sock.sendsLeft == (if sock.closed then old(sock.sendsLeft) else d.left)
    {
      if path == "" || jpeg.None? || sock == null {
        return;
      }
      var data := jpeg.value;
      var header := toJson(ImageMeta(path, data));
      ghost var n, o := sock.Budget(), sock.outbox;
      var raised := SendFileByRange(sock, header, data);
      if raised {
        return;
      }
      ghost var d1 := Deliver(FileFrames(header, data), n);
      assert sock.outbox == o + d1.bytes && sock.Budget() == d1.left;
      var _ := SendPacket(sock, Tag(Image), data);
      if |data| < U64Limit {
        DeliverImageSplit(header, data, n);
        AppendAssoc(o, d1.bytes, if d1.left == 0 then [] else Encode(Frame(Tag(Image), data)));
      } else {
        assert sock.outbox == o + d1.bytes && sock.sendsLeft == old(sock.sendsLeft) - (n - d1.left);
      }
    }

    /** The framing part of `send_h263_video`: `path` is the chosen video
        ("" when cancelled), `encoded` the bytes of the H.263 file written
        beside it (None when the encoder failed). The socket is checked
        before encoding. */
    method SendH263Video(path: string, encoded: Option<seq<byte>>, sock: Socket?, toJson: Meta -> seq<byte>)
      modifies sock
      ensures sock != null ==> sock.inbox == old(sock.inbox) && sock.closed == old(sock.closed)
      ensures sock != null && (path == "" || encoded.None? || |toJson(VideoMeta(path, encoded.value))| >= U64Limit) ==>
        sock.outbox == old(sock.outbox) && sock.sendsLeft == old(sock.sendsLeft)
      ensures sock != null && path != "" && encoded.Some? && |toJson(VideoMeta(path, encoded.value))| < U64Limit ==>
        var d := Deliver(FileFrames(toJson(VideoMeta(path, encoded.value)), encoded.value), old(sock.Budget()));
        sock.outbox == old(sock.outbox) + d.bytes && sock.sendsLeft == (if sock.closed then old(sock.sendsLeft) else d.left)
    {
      if path == "" || sock == null || encoded.None? {
        return;
      }
      var _ := SendFileByRead(sock, toJson(VideoMeta(path, encoded.value)), encoded.value);
    }
  }

  /** The image sender delivers the file transfer, then its IMAGE frame
      when a write is left for it. */
  lemma DeliverImageSplit(header: seq<byte>, jpeg: seq<byte>, n: nat)
    requires |header| < U64Limit && |jpeg| < U64Limit
    ensures var d1 := Deliver(FileFrames(header, jpeg), n);
      Deliver(ImageFrames(header, jpeg), n) ==
        if d1.left == 0 then d1 else Delivery(d1.bytes + Encode(Frame(Tag(Image), jpeg)), d1.left - 1)
  {
    var img := Frame(Tag(Image), jpeg);
    var d1 := Deliver(FileFrames(header, jpeg), n);
    DeliverOne(img, d1.left);
    DeliverAppend(FileFrames(header, jpeg), [img], n);
    assert ImageFrames(header, jpeg) == FileFrames(header, jpeg) + [img];
    assert d1.bytes + [] == d1.bytes;
  }

  /** Header, chunks by `range` stepping, end frame, one write each. A
      header the packer refuses raises before anything is written. */
  method SendFileByRange(sock: Socket, header: seq<byte>, data: seq<byte>) returns (raised: bool)
    modifies sock
    ensures sock.inbox == old(sock.inbox) && sock.closed == old(sock.closed)
    ensures raised <==> |header| >= U64Limit
    ensures raised ==> sock.outbox == old(sock.outbox) && sock.sendsLeft == old(sock.sendsLeft)
    ensures !raised ==> var d := Deliver(FileFrames(header, data), old(sock.Budget()));
      sock.outbox == old(sock.outbox) + d.bytes && sock.sendsLeft == (if sock.closed then old(sock.sendsLeft) else d.left)
  {
    if |header| >= U64Limit {
      var _ := SendPacket(sock, Tag(FileHeader), header);
      return true;
    }
    ghost var n, o := sock.Budget(), sock.outbox;
    var _ := SendPacket(sock, Tag(FileHeader), header);
    ghost var d1 := Deliver([Frame(Tag(FileHeader), header)], n);
    DeliverOne(Frame(Tag(FileHeader), header), n);
    SendChunksByRange(sock, data);
    ghost var d2 := Deliver(ChunkFrames(data), d1.left);
    var _ := SendPacket(sock, Tag(FileEnd), []);
    ghost var d3 := Deliver([Frame(Tag(FileEnd), [])], d2.left);
    DeliverOne(Frame(Tag(FileEnd), []), d2.left);
    DeliverFileSplit(header, data, n);
    AppendAssoc(o, d1.bytes, d2.bytes);
    AppendAssoc(o, d1.bytes + d2.bytes, d3.bytes);
    return false;
  }

  /** Header, chunks by reading until an empty read, end frame. */
  method SendFileByRead(sock: Socket, header: seq<byte>, content: seq<byte>) returns (raised: bool)
    modifies sock
    ensures sock.inbox == old(sock.inbox) && sock.closed == old(sock.closed)
    ensures raised <==> |header| >= U64Limit
    ensures raised ==> sock.outbox == old(sock.outbox) && sock.sendsLeft == old(sock.sendsLeft)
    ensures !raised ==> var d := Deliver(FileFrames(header, content), old(sock.Budget()));
      sock.outbox == old(sock.outbox) + d.bytes && sock.sendsLeft == (if sock.closed then old(sock.sendsLeft) else d.left)
  {
    if |header| >= U64Limit {
      var _ := SendPacket(sock, Tag(FileHeader), header);
      return true;
    }
    ghost var n, o := sock.Budget(), sock.outbox;
    var _ := SendPacket(sock, Tag(FileHeader), header);
    ghost var d1 := Deliver([Frame(Tag(FileHeader), header)], n);
    DeliverOne(Frame(Tag(FileHeader), header), n);
    SendChunksByRead(sock, content);
    ghost var d2 := Deliver(ChunkFrames(content), d1.left);
    var _ := SendPacket(sock, Tag(FileEnd), []);
    ghost var d3 := Deliver([Frame(Tag(FileEnd), [])], d2.left);
    DeliverOne(Frame(Tag(FileEnd), []), d2.left);
    DeliverFileSplit(header, content, n);
    AppendAssoc(o, d1.bytes, d2.bytes);
    AppendAssoc(o, d1.bytes + d2.bytes, d3.bytes);
    return false;
  }

  /** A file transfer over a connection with n writes left delivers its
      header, then its chunks, then its end frame, each with the writes the
      one before left over. */
  lemma DeliverFileSplit(header: seq<byte>, data: seq<byte>, n: nat)
    requires |header| < U64Limit
    ensures var hd, cs, tl := [Frame(Tag(FileHeader), header)], ChunkFrames(data), [Frame(Tag(FileEnd), [])];
      var d1 := Deliver(hd, n); var d2 := Deliver(cs, d1.left); var d3 := Deliver(tl, d2.left);
      Deliver(FileFrames(header, data), n) == Delivery(d1.bytes + d2.bytes + d3.bytes, d3.left)
  {
    var hd, cs, tl := [Frame(Tag(FileHeader), header)], ChunkFrames(data), [Frame(Tag(FileEnd), [])];
    assert FileFrames(header, data) == hd + cs + tl;
    DeliverAppend(hd, cs, n);
    DeliverAppend(hd + cs, tl, n);
  }

  /** The bytes of one file transfer: header frame, chunk frames, end frame. */
  function EncodeFile(header: seq<byte>, data: seq<byte>): seq<byte>
    requires |header| < U64Limit
  {
    Encode(Frame(Tag(FileHeader), header)) + EncodeAll(ChunkFrames(data)) + Encode(Frame(Tag(FileEnd), []))
  }

  /** The bytes the image sender writes. */
  function EncodeImage(header: seq<byte>, jpeg: seq<byte>): seq<byte>
    requires |header| < U64Limit && |jpeg| < U64Limit
  {
    EncodeFile(header, jpeg) + Encode(Frame(Tag(Image), jpeg))
  }

  /** What a file sender writes is exactly the encoding of its frame
      sequence, every frame of which can be sent. */
  lemma {:induction false} EncodeFileFrames(header: seq<byte>, data: seq<byte>)
    requires |header| < U64Limit
    ensures forall i :: 0 <= i < |FileFrames(header, data)| ==> Sendable(FileFrames(header, data)[i])
    ensures EncodeFile(header, data) == EncodeAll(FileFrames(header, data))
  {
    var hd, cs, tl := [Frame(Tag(FileHeader), header)], ChunkFrames(data), [Frame(Tag(FileEnd), [])];
    assert FileFrames(header, data) == hd + cs + tl;
    assert hd[1..] == [] && tl[1..] == [];
    assert EncodeAll(hd) == Encode(hd[0]);
    assert EncodeAll(tl) == Encode(tl[0]);
    EncodeAllAppend(hd, cs);
    EncodeAllAppend(hd + cs, tl);
  }

  /** The same for the image sender. */
  lemma {:induction false} EncodeImageFrames(header: seq<byte>, jpeg: seq<byte>)
    requires |header| < U64Limit && |jpeg| < U64Limit
    ensures forall i :: 0 <= i < |ImageFrames(header, jpeg)| ==> Sendable(ImageFrames(header, jpeg)[i])
    ensures EncodeImage(header, jpeg) == EncodeAll(ImageFrames(header, jpeg))
  {
    var tl := [Frame(Tag(Image), jpeg)];
    EncodeFileFrames(header, jpeg);
    assert tl[1..] == [];
    assert EncodeAll(tl) == Encode(tl[0]);
    EncodeAllAppend(FileFrames(header, jpeg), tl);
  }

  /** A connection that carries a write for every frame receives the whole
      file transfer. */
  lemma DeliverFileAll(header: seq<byte>, data: seq<byte>, n: nat)
    requires |header| < U64Limit && n >= |Chunks(data)| + 2
    ensures Deliver(FileFrames(header, data), n) == Delivery(EncodeFile(header, data), n - (|Chunks(data)| + 2))
  {
    EncodeFileFrames(header, data);
    DeliverAll(FileFrames(header, data), n);
  }

  /** The same for the image sender, which needs one write more. */
  lemma DeliverImageAll(header: seq<byte>, jpeg: seq<byte>, n: nat)
    requires |header| < U64Limit && |jpeg| < U64Limit && n >= |Chunks(jpeg)| + 3
    ensures Deliver(ImageFrames(header, jpeg), n) == Delivery(EncodeImage(header, jpeg), n - (|Chunks(jpeg)| + 3))
  {
    EncodeImageFrames(header, jpeg);
    DeliverAll(ImageFrames(header, jpeg), n);
  }

  /** Sending the next chunk over a connection with n writes left: none
      left sends nothing; otherwise the first remaining chunk frame goes out
      and the rest follow with one write fewer. */
  lemma {:induction false} DeliverChunkStep(data: seq<byte>, i: nat, n: nat)
    requires i < |data|
    ensures n == 0 ==> Deliver(ChunkFrames(From(data, i)), n) == Delivery([], 0)
    ensures n == 0 ==> Deliver(ChunkFrames(From(data, i + ChunkSize)), n) == Delivery([], 0)
    ensures n > 0 ==>
      var end := if i + ChunkSize <= |data| then i + ChunkSize else |data|;
      var r := Deliver(ChunkFrames(From(data, i + ChunkSize)), n - 1);
      Deliver(ChunkFrames(From(data, i)), n) == Delivery(Encode(Frame(Tag(FileChunk), data[i..end])) + r.bytes, r.left)
  {
    var end := if i + ChunkSize <= |data| then i + ChunkSize else |data|;
    var fs := ChunkFrames(From(data, i));
    ChunkFramesStep(data, i);
    assert fs[0] == Frame(Tag(FileChunk), data[i..end]) && fs[1..] == ChunkFrames(From(data, i + ChunkSize));
  }

  /** What the chunk loops keep: the bytes written so far (`out`) followed
      by what the chunks from i on will deliver with the writes left (n)
      are what the whole loop delivers after the bytes it started from. */
  ghost predicate ChunkProgress(data: seq<byte>, i: nat, n: nat, out: seq<byte>, start: seq<byte>, goal: Delivery) {
    var d := Deliver(ChunkFrames(From(data, i)), n);
    start + goal.bytes == out + d.bytes && goal.left == d.left
  }

  /** One pass of a chunk loop keeps ChunkProgress: with writes left, the
      chunk's frame is appended and one write is used; without, nothing
      changes. */
  lemma ChunkProgressStep(data: seq<byte>, i: nat, n: nat, out: seq<byte>, start: seq<byte>, goal: Delivery)
    requires i < |data| && ChunkProgress(data, i, n, out, start, goal)
    ensures var end := if i + ChunkSize <= |data| then i + ChunkSize else |data|;
      if n > 0 then ChunkProgress(data, i + ChunkSize, n - 1, out + Encode(Frame(Tag(FileChunk), data[i..end])), start, goal)
      else ChunkProgress(data, i + ChunkSize, 0, out, start, goal)
  {
    var end := if i + ChunkSize <= |data| then i + ChunkSize else |data|;
    DeliverChunkStep(data, i, n);
    if n > 0 {
      AppendAssoc(out, Encode(Frame(Tag(FileChunk), data[i..end])), Deliver(ChunkFrames(From(data, i + ChunkSize)), n - 1).bytes);
    }
  }

  /** Once the data is used up, the bytes written are all the loop
      delivers and the writes left are what it leaves. */
  lemma ChunkProgressDone(data: seq<byte>, i: nat, n: nat, out: seq<byte>, start: seq<byte>, goal: Delivery)
    requires i >= |data| && ChunkProgress(data, i, n, out, start, goal)
    ensures start + goal.bytes == out && goal.left == n
  {
    assert From(data, i) == [] && ChunkFrames([]) == [];
    assert out + [] == out;
  }

  /** The chunk loop of the image sender: `for i in range(0, len, 4096)`
      sends `data[i:i+4096]`, one write each. */
  method SendChunksByRange(sock: Socket, data: seq<byte>)
    modifies sock
    ensures sock.inbox == old(sock.inbox) && sock.closed == old(sock.closed)
    ensures var d := Deliver(ChunkFrames(data), old(sock.Budget()));
      sock.outbox == old(sock.outbox) + d.bytes && sock.sendsLeft == (if sock.closed then old(sock.sendsLeft) else d.left)
  {
    ghost var goal := Deliver(ChunkFrames(data), sock.Budget());
    var i: nat := 0;
    assert From(data, 0) == data;
    while i < |data|
      invariant sock.inbox == old(sock.inbox) && sock.closed == old(sock.closed)
      invariant sock.closed ==> sock.sendsLeft == old(sock.sendsLeft)
      invariant ChunkProgress(data, i, sock.Budget(), sock.outbox, old(sock.outbox), goal)
      decreases |data| - i
    {
      var end := if i + ChunkSize <= |data| then i + ChunkSize else |data|;
      ghost var n := sock.Budget();
      ChunkProgressStep(data, i, n, sock.outbox, old(sock.outbox), goal);
      assert |data[i..end]| < U64Limit;
      var _ := SendPacket(sock, Tag(FileChunk), data[i..end]);
      assert sock.Budget() == if n > 0 then n - 1 else 0;
      i := i + ChunkSize;
    }
    ChunkProgressDone(data, i, sock.Budget(), sock.outbox, old(sock.outbox), goal);
  }

  /** The chunk loop of the video sender: `f.read(4096)` until it returns
      nothing, each piece sent as it is read, one write each. */
  method SendChunksByRead(sock: Socket, content: seq<byte>)
    modifies sock
    ensures sock.inbox == old(sock.inbox) && sock.closed == old(sock.closed)
    ensures var d := Deliver(ChunkFrames(content), old(sock.Budget()));
      sock.outbox == old(sock.outbox) + d.bytes && sock.sendsLeft == (if sock.closed then old(sock.sendsLeft) else d.left)
  {
    ghost var goal := Deliver(ChunkFrames(content), sock.Budget());
    var pos := 0;
    assert From(content, 0) == content;
    while true
      invariant pos <= |content|
      invariant sock.inbox == old(sock.inbox) && sock.closed == old(sock.closed)
      invariant sock.closed ==> sock.sendsLeft == old(sock.sendsLeft)
      invariant ChunkProgress(content, pos, sock.Budget(), sock.outbox, old(sock.outbox), goal)
      decreases |content| - pos
    {
      var end := if pos + ChunkSize <= |content| then pos + ChunkSize else |content|;
      var chunk := content[pos..end];
      if chunk == [] {
        break;
      }
      ghost var n := sock.Budget();
      ChunkProgressStep(content, pos, n, sock.outbox, old(sock.outbox), goal);
      assert |chunk| < U64Limit;
      var _ := SendPacket(sock, Tag(FileChunk), chunk);
      assert sock.Budget() == if n > 0 then n - 1 else 0;
      assert From(content, end) == From(content, pos + ChunkSize);
      pos := end;
    }
    ChunkProgressDone(content, pos, sock.Budget(), sock.outbox, old(sock.outbox), goal);
  }

  /** The remote-view requests for saved images. */
  function StoredImages(names: seq<string>): (r: seq<Shown>)
    ensures |r| == |names|
    ensures forall i :: 0 <= i < |names| ==> r[i] == StoredImage(names[i])
  {
    if names == [] then [] else [StoredImage(names[0])] + StoredImages(names[1..])
  }
}
