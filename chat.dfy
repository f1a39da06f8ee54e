/** What the session shows the user, kept as logs: the chat box, the chat
    and address entry fields, the remote view, the audio player's queue and
    the quality widgets. Widgets are out of scope; only what is written to
    them is kept. */
module Display {
  import opened Wire

  /** The address the entry field starts with; the user may edit it. */
  const DefaultServerHost: string := "192.168.50.176"

  /** One request to show something in the remote view: JPEG bytes as
      received, or an image file just saved to disk (read back by name). */
  datatype Shown = Jpeg(bytes: seq<byte>) | StoredImage(name: string)

  class Ui {
    /** Every string inserted at the end of the chat box, in order. */
    var box: seq<string>
    /** The chat entry field. */
    var entry: string
    /** The server address entry field. */
    var address: string
    var remote: seq<Shown>
    /** Audio blocks handed to the player, in order. */
    var audio: seq<seq<byte>>
    /** The quality slider and the status bar. */
    var scale: int
    var status: string

    /** The widgets as built: empty logs and entry, the address entry
        holding the default server host, the slider at the initial quality
        and the status bar reading "Ready.". */
    constructor ()
      ensures box == [] && entry == "" && address == DefaultServerHost && remote == [] && audio == []
      ensures scale == 50 && status == "Ready."
    {
      box, entry, address, remote, audio := [], "", DefaultServerHost, [], [];
      scale, status := 50, "Ready.";
    }
  }
}

/** The chat manager: the chat box rules and the chat sender. */
module Chat {
  import opened Wire
  import opened Network
  import opened Display

  /** What one append inserts into the chat box. */
  function Line(text: string): (r: string)
    ensures |r| == |text| + 1 && r[..|text|] == text && r[|text|] == '\n'
  {
    text + "\n"
  }

  /** What `append_system` inserts. */
  function SystemLine(text: string): string {
    Line("[SYSTEM] " + text)
  }

  /** The chat-box lines for several system messages. */
  function SystemLines(texts: seq<string>): (r: seq<string>)
    ensures |r| == |texts|
    ensures forall i :: 0 <= i < |texts| ==> r[i] == SystemLine(texts[i])
  {
    if texts == [] then [] else [SystemLine(texts[0])] + SystemLines(texts[1..])
  }

  /** UTF-8, as `str.encode('utf-8')` produces it for a Unicode scalar value. */
  function Utf8Char(c: char): (r: seq<byte>)
    ensures 1 <= |r| <= 4
    ensures (c as int < 0x80) <==> |r| == 1
  {
    var n := c as int;
    if n < 0x80 then [n]
    else if n < 0x800 then [0xC0 + n / 0x40, 0x80 + n % 0x40]
    else if n < 0x1_0000 then [0xE0 + n / 0x1000, 0x80 + (n / 0x40) % 0x40, 0x80 + n % 0x40]
    else [0xF0 + n / 0x4_0000, 0x80 + (n / 0x1000) % 0x40, 0x80 + (n / 0x40) % 0x40, 0x80 + n % 0x40]
  }

  function Utf8(s: string): (r: seq<byte>)
    ensures |r| >= |s|
    ensures s == [] <==> r == []
  {
    if s == [] then [] else Utf8Char(s[0]) + Utf8(s[1..])
  }

  /** How many bytes a UTF-8 sequence takes, read off its leading byte. */
  function Utf8Width(b: byte): (w: nat)
    ensures 1 <= w <= 4
  {
    if b < 0xC0 then 1 else if b < 0xE0 then 2 else if b < 0xF0 then 3 else 4
  }

  /** The code point one UTF-8 sequence stands for: the leading byte's
      payload bits followed by six bits from each continuation byte. */
  function CodePoint(bs: seq<byte>): int
    requires 1 <= |bs| <= 4
  {
    var six := (i: int) requires 0 <= i < |bs| => bs[i] as int - 0x80;
    if |bs| == 1 then bs[0]
    else if |bs| == 2 then (bs[0] as int - 0xC0) * 0x40 + six(1)
    else if |bs| == 3 then (bs[0] as int - 0xE0) * 0x1000 + six(1) * 0x40 + six(2)
    else (bs[0] as int - 0xF0) * 0x4_0000 + six(1) * 0x1000 + six(2) * 0x40 + six(3)
  }

  /** A UTF-8 decoder for well-formed input, the reference the encoder is
      checked against: sequence by sequence, each as long as its leading
      byte says. */
  function CodePoints(bs: seq<byte>): seq<int>
    decreases |bs|
  {
    if bs == [] then []
    else
      var w := Utf8Width(bs[0]);
      if |bs| < w then [] else [CodePoint(bs[..w])] + CodePoints(bs[w..])
  }

  lemma SixBits(n: nat)
    ensures n == (n / 0x40) * 0x40 + n % 0x40
    ensures (n / 0x40) / 0x40 == n / 0x1000
    ensures (n / 0x1000) / 0x40 == n / 0x4_0000
  {
  }

  /** The leading byte of a character's encoding announces its length, and
      the sequence decodes back to the character. */
  lemma Utf8CharRoundTrip(c: char)
    ensures var r := Utf8Char(c); Utf8Width(r[0]) == |r| && CodePoint(r) == c as int
  {
    var n := c as int;
    SixBits(n);
    SixBits(n / 0x40);
    SixBits(n / 0x1000);
  }

  /** Decoding what `encode('utf-8')` produced gives back every character,
      in order. */
  lemma {:induction false} Utf8RoundTrip(s: string)
    ensures var d := CodePoints(Utf8(s));
      |d| == |s| && forall i :: 0 <= i < |s| ==> d[i] == s[i] as int
  {
    if s != [] {
      var r, t := Utf8Char(s[0]), Utf8(s[1..]);
      var bs := r + t;
      assert Utf8(s) == bs;
      Utf8CharRoundTrip(s[0]);
      assert bs[0] == r[0];
      assert bs[..|r|] == r && bs[|r|..] == t;
      Utf8RoundTrip(s[1..]);
      assert CodePoints(bs) == [s[0] as int] + CodePoints(t);
    }
  }

  /** Two texts with the same encoding are the same text. */
  lemma Utf8Injective(s: string, t: string)
    requires Utf8(s) == Utf8(t)
    ensures s == t
  {
    Utf8RoundTrip(s);
    Utf8RoundTrip(t);
    assert forall i :: 0 <= i < |s| ==> s[i] as int == t[i] as int;
  }

  class ChatManager {
    const ui: Ui

    constructor (u: Ui)
      ensures ui == u
    {
      ui := u;
    }

    /** `append`: the text and a newline go at the end of the chat box. */
    method Append(text: string)
      modifies ui`box
      ensures ui.box == old(ui.box) + [Line(text)]
    {
      ui.box := ui.box + [Line(text)];
    }

    /** `append_system`. */
    method AppendSystem(text: string)
      modifies ui`box
      ensures ui.box == old(ui.box) + [SystemLine(text)]
    {
      Append("[SYSTEM] " + text);
    }

    /** `send`: an empty text does nothing. Otherwise the text is logged as
        sent and the entry cleared; when connected, one TEXT frame carrying
        its UTF-8 bytes goes out if the connection still takes writes. Only
        a header the packer refuses raises, and that is reported in the
        chat box. */
    method Send(text: string, sock: Socket?)
      modifies ui`box, ui`entry, sock
      ensures text == "" ==> ui.box == old(ui.box) && ui.entry == old(ui.entry)
      ensures sock != null ==> sock.inbox == old(sock.inbox) && sock.closed == old(sock.closed)
      ensures sock != null && (text == "" || |Utf8(text)| >= U64Limit) ==>
        sock.outbox == old(sock.outbox) && sock.sendsLeft == old(sock.sendsLeft)
      ensures text != "" ==> ui.entry == ""
      ensures text != "" ==>
        (ui.box == old(ui.box) + [Line("You: " + text)] +
           (if sock != null && |Utf8(text)| >= U64Limit then [SystemLine("Failed to send chat")] else []))
      ensures text != "" && sock != null && |Utf8(text)| < U64Limit ==>
        var sent := old(sock.Budget()) > 0;
        && sock.outbox == old(sock.outbox) + (if sent then Encode(Frame(Tag(Text), Utf8(text))) else [])
        && sock.sendsLeft == (if sent then old(sock.sendsLeft) - 1 else old(sock.sendsLeft))
    {
      if text == "" {
        return;
      }
      Append("You: " + text);
      ui.entry := "";
      if sock != null {
        var r := SendPacket(sock, Tag(Text), Utf8(text));
        if r.Raised? {
          AppendSystem("Failed to send chat");
        }
      }
    }

    /** `handle_incoming`. */
    method HandleIncoming(text: string)
      modifies ui`box
      ensures ui.box == old(ui.box) + [Line("Peer: " + text)]
    {
      Append("Peer: " + text);
    }
  }
}
