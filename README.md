# P2P session client: framing, reassembly and receive dispatch

A Dafny model of the transport core of a peer-to-peer session client. The
client exchanges video frames, audio blocks, chat text and whole files over
one TCP stream. The stream is split into tagged frames.

- `wire.dfy` (module `Wire`) models the frame format of `config.py`:
  - a 12-byte `'!4sQ'` header, made of a 4-byte ASCII tag and the payload
    length as an unsigned 64-bit big-endian integer, then the payload;
  - the eight tags and their classification.
- `network.dfy` (module `Network`) models a stream socket as a class.
  - Its peer data arrives as a sequence of segments, which fragment the byte
    stream in any way. A read can also fail.
  - It carries a number of writes before the connection breaks. After that
    every `sendall` raises, so a sender's frames reach the wire up to the
    break, which falls on a frame boundary (`Deliver`).
  - It models `safe_send_all`, `send_packet`, `recv_all` and `recv_packet`.
    `recv_all` is a `while` loop proved against the specification function
    `ReadExact`.
- `transfer.dfy` (module `Transfer`) models incoming-file reassembly.
  - The functions `OnHeader`, `OnChunk`, `OnH263Chunk` and `OnEnd` act on the
    active transfer and the files it has opened.
  - The `FileTransfer` class updates its fields step by step, and is proved to
    follow those functions.
  - It also models the chunking and framing done by the image and H.263
    video senders.
- `chat.dfy` (modules `Display`, `Chat`) models the screen as logs: the chat
  box, the entry fields, the remote view, the audio queue and the quality
  widgets. It also models the chat manager's `append`, `append_system`,
  `send` and `handle_incoming`.
- `session.dfy` (module `Session`) models the `App` class:
  - `connect_server`, `disconnect_server`, `send_bytes` and `send_chat`;
  - the quality handlers;
  - `recv_loop`.

  The loop is proved to apply the function `Dispatch` (the loop's branch
  chain) to exactly the frames the peer's bytes contain, in order.
- `text.dfy` (module `Text`) models `str.strip()` and `str(n)`.
- `decoder.dfy` (module `Decoder`) models the frame-size search of
  `decode_h263_bytes_to_bgr`.

End-to-end lemmas join these parts. However the network fragments the bytes
of an image or video transfer, the receive loop reads back the sender's
frames. The receiver then saves exactly the sent bytes to a new closed file.
A non-empty transfer completes by size on its last chunk, so the trailing
end frame finds nothing to do; an empty one is closed by the end frame. When
the connection breaks part-way, the receiver reads back exactly the frames
sent before the break.

In four places the code does less than a reader might expect, and the model
follows the code:

- A new connection does not close the socket it replaces.
- A failed send does not close the connection: later sends are tried, and
  fail the same way.
- A header whose file cannot be opened leaves the earlier active transfer in
  place; it does not clear it.
- No lock serialises sends.

`on_quality_progress_changed` reads `self.ui.progress_var`, which `ui.py`
never defines. In the program as given, the handler therefore always ends
in its `except` and changes nothing. The model's branch for a readable
progress value says what the handler would do if the variable existed.

## Model

| member | source | states |
|---|---|---|
| Wire.Tag | config.py:20-27 | every tag is exactly four ASCII bytes |
| Wire.TagSpelling | config.py:20-27 | each tag is the ASCII spelling of its configured name (`VID0`, `VH26`, `FHD0`, `FCH0`, `FEND`, `TEX0`, `IMG0`, `AUD0`) |
| Wire.TagsDistinct | config.py:20-27 | two tags are equal exactly when they name the same kind, so tag comparison is unambiguous |
| Wire.KindOf | config.py:20-27 | a recognised tag is the tag of the kind returned |
| Wire.KindOfTag | config.py:20-27 | classifying a kind's tag gives back that kind |
| Wire.U64LimitIsPow | config.py:14 | the first length the `Q` field cannot hold is 256^8 |
| Wire.PackTag | config.py:14 | the `4s` field is four bytes: a 4-byte tag unchanged, a shorter one padded with zero bytes, a longer one cut |
| Wire.EncodeHeader | config.py:14-15 | a packed header is 12 bytes (4 + 8, no padding) and starts with the packed tag |
| Wire.HeaderLengthDigits | config.py:14 | header byte i (4 <= i < 12) is the base-256 digit of the length with weight 256^(11-i): network byte order |
| Wire.DecodeHeader | config.py:14-15 | unpacking yields a 4-byte tag and a length below 2^64 |
| Wire.HeaderRoundTrip | config.py:14-15 | unpacking a packed header gives back tag and length |
| Wire.HeaderInverse | config.py:14-15 | packing an unpacked header gives back the same 12 bytes |
| Wire.BigEndianRoundTrip | config.py:14 | the big-endian length digits decode to the length for every value below 256^width |
| Wire.FromBigEndianInverse | config.py:14 | every digit string is the encoding of the value it denotes |
| Wire.BigEndianDigit | config.py:14 | digit i of the big-endian encoding is (n / 256^(width-1-i)) % 256 |
| Wire.Encode | network.py:19-20 | the buffer `send_packet` sends is 12 + len(payload) bytes and ends with the payload |
| Wire.EncodeAllAppend | network.py:16-20 | sending two frame sequences one after the other sends their encodings back to back |
| Network.Socket.constructor | main.py:101-104 | a freshly connected socket has the peer's data pending, nothing sent, the given number of writes before the connection breaks, and is open |
| Network.Socket.Recv | network.py:26 | `recv(k)` raises on a closed socket or a failing read, returns empty at end of stream, else at most k bytes of the next segment, keeping the rest |
| Network.Socket.SendAll | network.py:10 | `sendall` raises, sending nothing, exactly when the socket is closed or the connection has broken; otherwise all the data goes out and one write is used |
| Network.Socket.Close | main.py:119 | closing leaves the socket closed, and repeating it is harmless |
| Network.SafeSendAll | network.py:8-14 | True exactly when a write was left; then the data went out and one write is used, otherwise nothing changed |
| Network.SendPacket | network.py:16-20 | no socket gives False and sends nothing; a length of 2^64 or more raises and sends nothing; otherwise the result is True exactly when a write was left, and then exactly header ‖ payload went out |
| Network.ReadExact | network.py:22-33 | a successful `recv_all(n)` yields exactly n bytes and consumes input |
| Network.ReadExactStep | network.py:24-31 | each read asks for exactly the outstanding count |
| Network.ReadExactClean | network.py:22-33 | on an intact stream, `recv_all(n)` returns the first n bytes of the stream however it is fragmented, and leaves exactly the bytes after them; it returns None when the peer closes first |
| Network.ReadExactBroken | network.py:24-31 | a read that fails or comes back empty before n bytes have arrived makes `recv_all(n)` return None, whatever the stream holds after it |
| Network.RecvAll | network.py:22-33 | the loop's result and the socket's remaining input are `ReadExact` of the input; `recv_all(0)` returns empty without reading; a closed socket gives None |
| Network.NextFrame | network.py:35-47 | a frame read has a 4-byte tag and consumes input |
| Network.RecvPacket | network.py:35-47 | `recv_packet` reads a header, then exactly the declared number of payload bytes; a truncated header or payload gives None |
| Network.NextFrameOfEncoded | network.py:16-20 | round trip: reading the bytes `send_packet` produced gives back the frame, an empty payload included, and leaves exactly the following bytes |
| Network.TruncatedFrame | network.py:40-46 | a stream cut inside a frame's header or payload yields no frame |
| Network.FramesOfEncoded | network.py:35-47 | any fragmentation of several sent frames is read back as exactly those frames, in order |
| Network.Deliver | network.py:8-20 | frames sent one `send_packet` each over a connection with n writes left leave n − (number of frames) writes, or none once the connection breaks |
| Network.DeliverPrefix | network.py:8-20 | the bytes on the wire are the encoding of the first min(n, number of frames) frames: a broken connection cuts the stream on a frame boundary |
| Network.DeliverAll | network.py:8-20 | with a write for every frame, every frame is sent, in order |
| Network.DeliverOne | network.py:16-20 | one frame goes out exactly when a write is left |
| Network.DeliverAppend | network.py:8-20 | sending a then b is sending a, then b with the writes a left over |
| Network.BrokenConnectionFrames | network.py:35-47 | however the delivered bytes are fragmented, the receiver reads back exactly the frames sent before the break |
| Display.Ui.constructor | main.py:41 | the screen starts with empty logs, the quality slider at 50, the status bar reading `Ready.` (ui.py:140) and the address field holding the default server host `192.168.50.176` (ui.py:30, config.py:8) |
| Chat.Line | chat.py:13 | each append inserts the text followed by one newline |
| Chat.SystemLines | chat.py:19-20 | system messages become `[SYSTEM] ` lines, one per message, in order |
| Chat.Utf8Char | chat.py:29 | UTF-8 encodes a character in one to four bytes, and in one byte exactly for ASCII |
| Chat.Utf8 | chat.py:29 | the encoding of a text is empty exactly when the text is |
| Chat.Utf8CharRoundTrip | chat.py:29 | each character's encoding starts with a byte that announces its length, and decodes back to the character |
| Chat.Utf8RoundTrip | chat.py:29 | decoding the encoded text sequence by sequence gives back every character in order, which is what the peer's `decode("utf-8")` (main.py:141) relies on |
| Chat.Utf8Injective | chat.py:29 | two texts with the same encoding are the same text |
| Chat.ChatManager.constructor | chat.py:5-6 | the manager writes to the given screen |
| Chat.ChatManager.Append | chat.py:9-17 | the chat box gains exactly the text followed by a newline |
| Chat.ChatManager.AppendSystem | chat.py:19-20 | the chat box gains `[SYSTEM] ` + text |
| Chat.ChatManager.Send | chat.py:22-32 | empty text: no line, no frame; otherwise `You: ` + text is logged and the entry cleared; with a socket, a packer failure sends nothing and adds `Failed to send chat`; otherwise exactly one TEXT frame carrying the UTF-8 bytes is sent when a write is left, and nothing when the connection has broken |
| Chat.ChatManager.HandleIncoming | chat.py:34-35 | the chat box gains `Peer: ` + text |
| Text.TrimStartSpec | main.py:95 | what leading-strip drops is white space, and the rest does not start with white space |
| Text.TrimEndSpec | main.py:95 | what trailing-strip drops is white space, and the rest does not end with white space |
| Text.StripSlice | main.py:95 | `strip()` returns the slice between the leading and trailing white space, and neither end of it is white space |
| Text.StripBlank | main.py:95-96 | a text strips to empty exactly when it is all white space; stripping twice is stripping once |
| Text.Strip | main.py:95 | `strip()` is no longer than the text, and a non-empty result neither starts nor ends with white space |
| Text.Digits | main.py:105 | `str(n)` is decimal digits without leading zeros |
| Text.DecimalRoundTrip | main.py:105 | `int(str(n)) == n` for every integer |
| Text.Decimal | main.py:105 | `str(n)` is non-empty, starts with `-` exactly for negative n, and is otherwise decimal digits |
| Transfer.RFind | file_transfer.py:36 | the last index of the character, or -1, with no later occurrence |
| Transfer.SplitExt | file_transfer.py:36 | `splitext` splits the name into root ‖ ext; a non-empty ext is one dot followed by no dot or slash, and ext is non-empty exactly when the last component has a dot preceded by a character other than a dot |
| Transfer.Basename | file_transfer.py:173 | `basename` is the suffix after the last slash: it holds no slash, and it is the whole path or follows a slash |
| Transfer.SaveNameH263Example | file_transfer.py:35-37 | an H.263 header naming `clip.mp4` is saved as `recv_clip.avi` |
| Transfer.VideoSaveName | file_transfer.py:240 | the video sender's file arrives as `recv_` + base name + `.h263.avi`: the receiver strips only the `.avi` it added |
| Transfer.SaveNameShape | file_transfer.py:29-51 | every save name starts with `recv_`; it is `recv_` + the sent name (`received.bin` when none is given), except that an H.263 transfer replaces the last extension with `.avi` |
| Transfer.Lower | file_transfer.py:83 | ASCII upper-case letters become lower case, and every other character is kept |
| Transfer.IsImageNameSpec | file_transfer.py:83 | a name is shown as an image exactly when, lower-cased, it ends with `.jpg`, `.jpeg`, `.png`, `.bmp` or `.webp` |
| Transfer.OnHeader | file_transfer.py:29-59 | `handle_file_header` keeps the active transfer's file open and its count exact, and shows no image |
| Transfer.OnChunk | file_transfer.py:65-86 | `handle_file_chunk` keeps the active transfer's file open and its count exact |
| Transfer.OnH263Chunk | file_transfer.py:92-98 | `handle_h263_chunk` keeps the file open and its count exact, keeps the transfer active if it was, opens and closes nothing, and emits no message |
| Transfer.OnEnd | file_transfer.py:104-113 | `handle_file_end` leaves no active transfer, opens no file and shows no image |
| Transfer.HeaderEffect | file_transfer.py:29-59 | an undecodable header, or one whose file cannot be opened, changes nothing; otherwise a fresh transfer of the declared size (possibly None) with 0 received, the codec stored only when it is `h263`, a new empty open file at the end of the list, one start note and no image; an abandoned earlier file stays open |
| Transfer.ChunkEffect | file_transfer.py:65-86 | no active transfer: a no-op; otherwise the bytes are appended, other files are untouched, and completion (file closed, transfer cleared, `[수신 완료]` note, image request exactly for image names) happens if and only if a size is declared and reached |
| Transfer.NoSizeNeverCompletes | file_transfer.py:76 | with no declared size a chunk never completes; it only counts bytes |
| Transfer.EndEffect | file_transfer.py:104-113 | FILE_END closes and clears an active transfer with one `[수신 종료]` note; with none active it is a no-op, so a second one changes nothing |
| Transfer.Chunks | file_transfer.py:177-178 | the pieces are 1..4096 bytes each and concatenate to the data |
| Transfer.ChunkAt | file_transfer.py:177-178 | piece k is `data[k*4096 : k*4096+4096]`, and every piece but the last is full |
| Transfer.ChunkFrames | file_transfer.py:177-179 | the chunk frames are FILE_CHUNK frames carrying the pieces, one each, all sendable |
| Transfer.Framed | file_transfer.py:179 | each piece is wrapped in one FILE_CHUNK frame |
| Transfer.ChunkFramesStep | file_transfer.py:177-179 | sending the piece at offset i leaves the frames of the data from i + 4096 |
| Transfer.FileTransfer.constructor | file_transfer.py:21-23 | no active transfer and no file opened |
| Transfer.FileTransfer.HandleFileHeader | file_transfer.py:29-59 | the new state, chat lines and display requests are those of `OnHeader` |
| Transfer.FileTransfer.HandleFileChunk | file_transfer.py:65-86 | the new state, chat lines and display requests are those of `OnChunk` |
| Transfer.FileTransfer.HandleH263Chunk | file_transfer.py:92-98 | appends to an active H.263 transfer only, without a completion check |
| Transfer.FileTransfer.HandleFileEnd | file_transfer.py:104-113 | the new state and chat lines are those of `OnEnd` |
| Transfer.FileTransfer.SendImage | file_transfer.py:119-193 | nothing is sent without a path, an image or a socket, nor when the header is too long to pack; otherwise header frame, chunk frames, an empty FILE_END and an IMAGE frame with the whole JPEG go out one write each until the connection breaks |
| Transfer.FileTransfer.SendH263Video | file_transfer.py:225-318 | nothing is sent without a path, a socket or an encoded file, nor when the header is too long to pack; otherwise header frame, chunk frames and an empty FILE_END go out one write each until the connection breaks |
| Transfer.SendFileByRange | file_transfer.py:173-190 | a header the packer refuses raises before anything is written; otherwise the file's frames reach the wire up to the break, and the writes left are those `Deliver` says |
| Transfer.SendFileByRead | file_transfer.py:284-318 | the same for the reading sender |
| Transfer.SendChunksByRange | file_transfer.py:177-180 | the `range` loop sends the chunk frames of the data up to the break, one write each |
| Transfer.SendChunksByRead | file_transfer.py:303-310 | the read-until-empty loop sends the chunk frames of the content up to the break, one write each |
| Transfer.EncodeFileFrames | file_transfer.py:173-190 | a file sender's bytes are the encoding of header, chunk and end frames |
| Transfer.EncodeImageFrames | file_transfer.py:173-193 | the image sender's bytes are the encoding of its frames, ending with the IMAGE frame |
| Transfer.FileFrames | file_transfer.py:173-190 | a file transfer is its chunks plus two frames, all of which the packer accepts when the header is short enough |
| Transfer.ImageFrames | file_transfer.py:173-193 | the image sender adds one frame more, all accepted when header and JPEG are short enough |
| Transfer.DeliverFileAll | file_transfer.py:173-190 | with a write for every frame, a file sender puts its whole encoding on the wire |
| Transfer.DeliverImageAll | file_transfer.py:173-193 | with a write for every frame, the image sender puts its whole encoding on the wire |
| Transfer.DeliverFileSplit | file_transfer.py:173-190 | a transfer delivers its header, then its chunks, then its end frame, each with the writes the one before left |
| Transfer.DeliverImageSplit | file_transfer.py:192-193 | the IMAGE frame follows the transfer exactly when a write is left for it |
| Transfer.DeliverChunkStep | file_transfer.py:177-179 | with no write left a chunk sends nothing; otherwise it sends its frame and the rest follow with one write fewer |
| Transfer.StoredImages | file_transfer.py:83-86 | one display request per saved image name |
| Decoder.FirstFit | video_decoder.py:28-33 | the first candidate in list order whose w·h·3 equals the length, or None exactly when no candidate does |
| Decoder.CandidateBytes | video_decoder.py:28-29 | the candidate lengths are 921600, 230400, 2764800 and 518400, pairwise distinct |
| Decoder.DecodeSpec | video_decoder.py:13-36 | a picture comes back exactly when ffmpeg is available, produced output, and its length fits a candidate; it is then h × w × 3 with the output unchanged |
| Decoder.Decode | video_decoder.py:13-36 | a picture needs an available decoder and non-empty output, and carries that output unchanged with three channels |
| Decoder.FitIsUnique | video_decoder.py:28-31 | whichever candidate fits is the one found |
| Decoder.DecodeExamples | video_decoder.py:13-33 | 921600 bytes decode as 480 × 640 × 3; 1000 bytes, or no ffmpeg, give None |
| Session.Dispatch | main.py:136-158 | one pass of the branch chain keeps the reassembly state well formed |
| Session.DispatchAll | main.py:131-158 | frames handled in arrival order keep it well formed |
| Session.DispatchAllAppend | main.py:131-158 | handling a + b is handling a, then b |
| Session.DispatchRoutes | main.py:136-158 | TEXT goes only to the chat box, VIDEO and IMAGE to the remote view, AUDIO to the audio queue, the three file tags to their handlers; `VH26` and unknown tags change nothing |
| Session.FileDispatch | main.py:148-155 | FILE_HEADER, FILE_CHUNK and FILE_END reach the header, chunk and end handlers |
| Session.FeedChunks | file_transfer.py:65-86 | a transfer's chunk frames append its data and complete on the last chunk, with one completion note |
| Session.FeedPieces | file_transfer.py:73-80 | non-empty pieces totalling what is still expected complete the transfer on the last piece and not before |
| Session.HeaderStarts | main.py:148-149 | a decodable header with an openable file starts a transfer of the declared size in a new empty file |
| Session.FileDelivered | file_transfer.py:29-113 | header, chunks and end frame with a true size save exactly the data in a new closed file; a non-empty transfer completes by size, so the end frame does nothing; an empty one is closed by the end frame |
| Session.EndIdle | file_transfer.py:105 | an end frame with nothing active changes nothing |
| Session.ImageDelivered | file_transfer.py:173-193 | the image sender's frames save the image as `recv_` + base name and then show the JPEG |
| Session.ImageOverTheWire | network.py:35-47 | for any fragmentation of the image sender's bytes, the loop reads back its frames and the image is saved |
| Session.VideoOverTheWire | file_transfer.py:284-318 | for any fragmentation of the video sender's bytes, the loop reads back its frames and the video is saved as `recv_` + base name + `.h263.avi` |
| Session.ReadOneFrame | main.py:132 | reading and handling one frame leaves the rest of the stream's frames to handle |
| Session.Clamp | main.py:267 | the value is clamped into [10, 95], and values inside are kept |
| Session.ClampMonotone | main.py:267 | the clamp is monotone and idempotent |
| Session.App.constructor | main.py:34-55 | no socket, not running, quality 50, the status bar reading `Ready.` (ui.py:140), the address field holding `192.168.50.176` (ui.py:30), and the ffmpeg notice exactly when ffmpeg is missing |
| Session.App.ConnectServer | main.py:94-112 | a blank address changes nothing; a failed connect leaves no socket and starts no loop; a successful one installs a fresh socket with the given number of writes before it breaks, logs the connection, sets running and starts one loop |
| Session.App.DisconnectServer | main.py:114-122 | always ends with no socket and not running, closing a socket that was there; each call adds only `Disconnecting...` |
| Session.App.SendBytes | main.py:124-127 | no socket gives False and sends nothing; otherwise `send_packet`: a length of 2^64 or more raises and sends nothing, else one frame goes out exactly when a write is left |
| Session.App.SendChat | main.py:255-257 | the stripped entry text goes through the chat sender's rules: empty text changes nothing, a packer failure sends nothing, and one TEXT frame goes out exactly when a write is left |
| Session.App.OnQualityProgressChanged | main.py:264-272 | the progress value clamped to [10, 95] becomes quality, slider position and status; a value `int()` rejects changes nothing |
| Session.App.UpdateQuality | main.py:274-279 | the value becomes the quality unclamped; a value `int()` rejects changes nothing |
| Session.App.Handle | main.py:136-158 | handling one frame changes the screen and the reassembly state as `Dispatch` says |
| Session.App.Drain | main.py:131-158 | on a live socket the handlers see exactly the stream's frames in order until it closes or is cut; only the socket's unread input, the screen and the reassembly state change |
| Session.App.RecvLoop | main.py:129-171 | the loop as in `Drain`, then the socket is closed and cleared with its output and write budget untouched, running is false, and exactly one `Disconnected from server` line is added; no handler raises here (see "## Left out") |

## Left out

- Widgets, message boxes, file dialogs, `root.after` marshalling and the
  console prints. What the handlers write to the screen is kept as logs.
- Showing an image needs the saved file to read back. `imread_unicode` may
  fail, so only the request to show the image is modelled.
- Camera, microphone, ffmpeg and OpenCV: capture, JPEG encoding, H.263
  encoding, PSNR/SSIM, the Mbps figures, the plots and the sender completion
  messages that print them.
  - The JPEG bytes and the encoded video file are inputs to the senders.
  - The decoder's output is an input to `Decoder.Decode`.
- Threads:
  - the receive loop runs in its own thread, but here it runs synchronously;
  - the 5-second connect timeout, `App.close` and the join are not modelled;
  - no lock serialises senders, so frames from concurrent producers may
    interleave on the wire. No property claims otherwise.
- JSON parsing and serialisation, and UTF-8 decoding with `errors="replace"`,
  are given as functions. Whether a file can be opened is also a function.
  - Headers whose filename is null or not a string are not modelled. A null
    name would be saved as `recv_None`, or raise in `splitext` for H.263.
  - A filesize that is not a number makes the chunk handler raise after it
    has written the chunk and counted it, and the raise ends the receive
    loop. Here a size is an integer or absent, and a float size is not
    modelled.
- A payload of 2^64 bytes or more cannot occur in practice, because memory
  is finite. The model keeps the packer's refusal in `Network.SendPacket`.
- A connection breaks between writes: a `sendall` sends all its bytes or
  none. Partial writes inside one `sendall`, and exceptions from `recv`
  other than a failing read, are not modelled.
- Session.App.RecvLoop: a handler that raises (a failing `fp.write`, a
  non-numeric filesize, the audio output stream that `play` opens) ends the
  loop at that frame and goes straight to the same cleanup. No handler in the
  model can fail, so the model always handles every frame up to the end or
  the cut of the stream.
- Files are logs of what was written, not a file system. A second header
  with the same name opens a second entry instead of truncating the first.
- Transfer.Lower: lower-cases ASCII letters only, not every Unicode letter
  as `str.lower` does.
- Chat.Utf8Char: takes characters as Unicode scalar values, so surrogate
  code points, which `encode` rejects, do not arise.
- `handle_h263_chunk` is modelled, but `recv_loop` never calls it. H.263
  transfers arrive through the ordinary chunk handler, and a `VH26` frame is
  ignored.
- The rest of the application is not part of this model: `video_stream.py`,
  `audio_player.py`, `video_encoder.py`, `utils.py`, `ui.py`, the filter
  mode, `load_file` and the camera and microphone callbacks.
