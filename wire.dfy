/** The wire format shared by both peers: a 12-byte header (a 4-byte ASCII
    tag, then the payload length as an unsigned 64-bit big-endian integer)
    followed by exactly that many payload bytes. This is the `'!4sQ'` struct
    layout: network byte order, no padding. */
module Wire {

  /** One octet. */
  type byte = b: int | 0 <= b < 256

  /** Bytes of an ASCII string, one per character. */
  function Ascii(s: string): (r: seq<byte>)
    requires forall i :: 0 <= i < |s| ==> s[i] as int < 128
    ensures |r| == |s|
    ensures forall i :: 0 <= i < |s| ==> r[i] == s[i] as int
  {
    seq(|s|, i requires 0 <= i < |s| => s[i] as int)
  }

  predicate IsAscii(t: seq<byte>) {
    forall i :: 0 <= i < |t| ==> t[i] < 128
  }

  /** The eight frame kinds, in the order the configuration lists them. */
  datatype Kind = Video | VideoH263 | FileHeader | FileChunk | FileEnd | Text | Image | Audio

  /** The name of the tag a kind travels under, as the configuration spells it. */
  function TagName(k: Kind): string {
    match k
    case Video => "VID0"
    case VideoH263 => "VH26"
    case FileHeader => "FHD0"
    case FileChunk => "FCH0"
    case FileEnd => "FEND"
    case Text => "TEX0"
    case Image => "IMG0"
    case Audio => "AUD0"
  }

  /** The tag a kind travels under: the ASCII bytes of its name. */
  function Tag(k: Kind): (t: seq<byte>)
    ensures |t| == TagSize && IsAscii(t)
  {
    match k
    case Video => [0x56, 0x49, 0x44, 0x30]
    case VideoH263 => [0x56, 0x48, 0x32, 0x36]
    case FileHeader => [0x46, 0x48, 0x44, 0x30]
    case FileChunk => [0x46, 0x43, 0x48, 0x30]
    case FileEnd => [0x46, 0x45, 0x4E, 0x44]
    case Text => [0x54, 0x45, 0x58, 0x30]
    case Image => [0x49, 0x4D, 0x47, 0x30]
    case Audio => [0x41, 0x55, 0x44, 0x30]
  }

  /** Each tag is its name in ASCII. */
  lemma TagSpelling(k: Kind)
    ensures Tag(k) == Ascii(TagName(k))
  {
    var t, a := Tag(k), Ascii(TagName(k));
    assert t[0] == a[0] && t[1] == a[1] && t[2] == a[2] && t[3] == a[3];
  }

  /** The kind a received tag names, if any. */
  function KindOf(t: seq<byte>): (k: Option<Kind>)
    ensures k.Some? ==> Tag(k.value) == t
  {
    if t == Tag(Video) then Some(Video)
    else if t == Tag(VideoH263) then Some(VideoH263)
    else if t == Tag(FileHeader) then Some(FileHeader)
    else if t == Tag(FileChunk) then Some(FileChunk)
    else if t == Tag(FileEnd) then Some(FileEnd)
    else if t == Tag(Text) then Some(Text)
    else if t == Tag(Image) then Some(Image)
    else if t == Tag(Audio) then Some(Audio)
    else None
  }

  datatype Option<T> = None | Some(value: T)

  /** The eight tags are pairwise distinct: a tag names exactly one kind. */
  lemma TagsDistinct(j: Kind, k: Kind)
    ensures Tag(j) == Tag(k) <==> j == k
  {
    if j != k {
      // any two tags differ in their first or their third character
      assert Tag(j)[0] != Tag(k)[0] || Tag(j)[2] != Tag(k)[2];
    }
  }

  /** Classifying a kind's own tag gives back that kind. */
  lemma KindOfTag(k: Kind)
    ensures KindOf(Tag(k)) == Some(k)
  {
    var r := KindOf(Tag(k));
    TagsDistinct(r.value, k);
  }

  const TagSize: nat := 4
  const LengthSize: nat := 8
  /** `struct.calcsize('!4sQ')`: no alignment padding in network order. */
  const HeaderSize: nat := TagSize + LengthSize

  /** 256 to the power k. */
  function Pow256(k: nat): (p: nat)
    ensures p > 0
  {
    if k == 0 then 1 else 256 * Pow256(k - 1)
  }

  /** The first length that no longer fits the unsigned 64-bit field. */
  const U64Limit: nat := 0x1_0000_0000_0000_0000

  lemma U64LimitIsPow()
    ensures U64Limit == Pow256(LengthSize)
  {
    assert Pow256(2) == 0x1_0000;
    assert Pow256(4) == 0x1_0000_0000;
    assert Pow256(6) == 0x1_0000_0000_0000;
  }

  /** The `width` low-order base-256 digits of n, most significant first. */
  function BigEndian(n: nat, width: nat): (r: seq<byte>)
    ensures |r| == width
  {
    if width == 0 then [] else BigEndian(n / 256, width - 1) + [n % 256]
  }

  /** The number a big-endian digit string denotes. */
  function FromBigEndian(s: seq<byte>): (n: nat)
    ensures n < Pow256(|s|)
  {
    if s == [] then 0
    else
      var hi := FromBigEndian(s[..|s| - 1]);
      assert hi <= Pow256(|s| - 1) - 1;
      assert hi * 256 <= Pow256(|s|) - 256;
      hi * 256 + s[|s| - 1]
  }

  /** Digit i of the big-endian encoding has weight 256^(width-1-i). */
  lemma {:induction false} BigEndianDigit(n: nat, width: nat, i: nat)
    requires i < width
    ensures BigEndian(n, width)[i] == (n / Pow256(width - 1 - i)) % 256
  {
    if i < width - 1 {
      BigEndianDigit(n / 256, width - 1, i);
      DivDiv(n, Pow256(width - 2 - i));
    }
  }

  lemma DivDiv(n: nat, p: nat)
    requires p > 0
    ensures n / 256 / p == n / (256 * p)
  {
    var q, r := n / 256, n % 256;
    var q2, r2 := q / p, q % p;
    assert n == 256 * q + r;
    assert q == p * q2 + r2;
    assert 256 * q == 256 * (p * q2) + 256 * r2;
    assert 256 * (p * q2) == (256 * p) * q2;
    assert n == (256 * p) * q2 + (256 * r2 + r);
    assert 256 * r2 + r < 256 * p by {
      assert r2 + 1 <= p;
      assert 256 * (r2 + 1) <= 256 * p;
    }
    DivUnique(n, 256 * p, q2, 256 * r2 + r);
  }

  lemma DivUnique(n: nat, d: nat, q: nat, r: nat)
    requires d > 0 && r < d && n == d * q + r
    ensures n / d == q
  {
    var q', r' := n / d, n % d;
    assert d * q' + r' == d * q + r;
    if q' < q {
      assert d * (q - q') == d * q - d * q';
      MulAtLeast(d, q - q');
    } else if q' > q {
      assert d * (q' - q) == d * q' - d * q;
      MulAtLeast(d, q' - q);
    }
  }

  lemma MulAtLeast(d: nat, k: nat)
    requires k >= 1
    ensures d * k >= d
  {
    assert d * k == d + d * (k - 1);
  }

  /** Decoding undoes encoding for every value that fits. */
  lemma {:induction false} BigEndianRoundTrip(n: nat, width: nat)
    requires n < Pow256(width)
    ensures FromBigEndian(BigEndian(n, width)) == n
  {
    if width > 0 {
      var s := BigEndian(n, width);
      var q := n / 256;
      assert q < Pow256(width - 1);
      assert s[..width - 1] == BigEndian(q, width - 1);
      assert s[width - 1] == n % 256;
      BigEndianRoundTrip(q, width - 1);
      assert FromBigEndian(s) == q * 256 + n % 256;
    }
  }

  /** Encoding undoes decoding: every digit string is some value's encoding. */
  lemma {:induction false} FromBigEndianInverse(s: seq<byte>)
    ensures BigEndian(FromBigEndian(s), |s|) == s
  {
    if s != [] {
      var init := s[..|s| - 1];
      FromBigEndianInverse(init);
      var n := FromBigEndian(s);
      assert n / 256 == FromBigEndian(init);
      assert n % 256 == s[|s| - 1];
      assert s == init + [s[|s| - 1]];
    }
  }

  /** The `4s` field: a tag shorter than four bytes is padded with zero
      bytes, a longer one is cut to its first four. */
  function PackTag(tag: seq<byte>): (r: seq<byte>)
    ensures |r| == TagSize
    ensures |tag| == TagSize ==> r == tag
    ensures forall i :: 0 <= i < TagSize ==> r[i] == if i < |tag| then tag[i] else 0
  {
    if |tag| >= TagSize then tag[..TagSize]
    else tag + seq(TagSize - |tag|, _ => 0)
  }

  /** `pack('!4sQ', tag, size)`; the packer refuses sizes of 2^64 and more. */
  function EncodeHeader(tag: seq<byte>, size: nat): (h: seq<byte>)
    requires size < U64Limit
    ensures |h| == HeaderSize
    ensures h[..TagSize] == PackTag(tag)
  {
    PackTag(tag) + BigEndian(size, LengthSize)
  }

  /** The length field holds the size in network byte order: byte i of the
      header is the base-256 digit of weight 256^(11-i). */
  lemma HeaderLengthDigits(tag: seq<byte>, size: nat)
    requires size < U64Limit
    ensures forall i :: TagSize <= i < HeaderSize ==>
      EncodeHeader(tag, size)[i] == (size / Pow256(HeaderSize - 1 - i)) % 256
  {
    forall i | TagSize <= i < HeaderSize
      ensures EncodeHeader(tag, size)[i] == (size / Pow256(HeaderSize - 1 - i)) % 256
    {
      BigEndianDigit(size, LengthSize, i - TagSize);
    }
  }

  /** `unpack('!4sQ', header)`: the tag and the declared payload length. */
  datatype Header = Header(tag: seq<byte>, size: nat)

  function DecodeHeader(h: seq<byte>): (r: Header)
    requires |h| == HeaderSize
    ensures |r.tag| == TagSize && r.size < U64Limit
  {
    U64LimitIsPow();
    Header(h[..TagSize], FromBigEndian(h[TagSize..]))
  }

  /** Unpacking a packed header gives back the tag and the size. */
  lemma HeaderRoundTrip(tag: seq<byte>, size: nat)
    requires |tag| == TagSize && size < U64Limit
    ensures DecodeHeader(EncodeHeader(tag, size)) == Header(tag, size)
  {
    var h := EncodeHeader(tag, size);
    assert h[TagSize..] == BigEndian(size, LengthSize);
    U64LimitIsPow();
    BigEndianRoundTrip(size, LengthSize);
  }

  /** Packing an unpacked header gives back the same twelve bytes. */
  lemma HeaderInverse(h: seq<byte>)
    requires |h| == HeaderSize
    ensures var d := DecodeHeader(h); EncodeHeader(d.tag, d.size) == h
  {
    FromBigEndianInverse(h[TagSize..]);
    assert h == h[..TagSize] + h[TagSize..];
  }

  /** Regrouping a concatenation (stated once, so that callers need not
      prove it by extensionality). */
  lemma AppendAssoc<T>(a: seq<T>, b: seq<T>, c: seq<T>)
    ensures a + b + c == a + (b + c)
  {
  }

  /** One frame as the peers exchange it. */
  datatype Frame = Frame(tag: seq<byte>, payload: seq<byte>)

  /** A frame whose bytes `send_packet` can produce and `recv_packet` can read back. */
  predicate Sendable(f: Frame) {
    |f.tag| == TagSize && |f.payload| < U64Limit
  }

  /** header ‖ payload, the single buffer `send_packet` hands to the socket. */
  function Encode(f: Frame): (r: seq<byte>)
    requires |f.payload| < U64Limit
    ensures |r| == HeaderSize + |f.payload|
    ensures r[HeaderSize..] == f.payload
  {
    EncodeHeader(f.tag, |f.payload|) + f.payload
  }

  /** The bytes of several frames sent one after another. */
  function EncodeAll(fs: seq<Frame>): (r: seq<byte>)
    requires forall i :: 0 <= i < |fs| ==> Sendable(fs[i])
  {
    if fs == [] then []
    else
      assert Sendable(fs[0]);
      Encode(fs[0]) + EncodeAll(fs[1..])
  }

  /** Sending frames one after another sends their encodings back to back. */
  lemma {:induction false} EncodeAllAppend(a: seq<Frame>, b: seq<Frame>)
    requires forall i :: 0 <= i < |a| ==> Sendable(a[i])
    requires forall i :: 0 <= i < |b| ==> Sendable(b[i])
    ensures forall i :: 0 <= i < |a + b| ==> Sendable((a + b)[i])
    ensures EncodeAll(a + b) == EncodeAll(a) + EncodeAll(b)
    decreases |a|
  {
    if a != [] {
      assert (a + b)[1..] == a[1..] + b;
      EncodeAllAppend(a[1..], b);
    } else {
      assert a + b == b;
    }
  }
}
