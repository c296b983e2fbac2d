/** The SER astronomical video container as `SERFile::new` reads it: a
    178-byte header that starts with the text "LUCAM-RECORDER", a payload of
    frame_count frames of frame_bytes bytes each, and a trailer of one
    little-endian 64-bit time stamp per frame (in 100 ns ticks since
    0001-01-01T00:00:00). The file is an in-memory byte sequence; opening it
    on disk is not modelled. */
module SerFiles {
  import opened Wrappers
  import opened Bytes
  import opened Utf8
  import CameraFrames

  /** Why opening a SER file fails. UnexpectedEof is the error `read_exact`
      returns when the file ends early, Utf8Error the one `from_utf8` returns,
      ZeroFrameSizePanic stands for the panic of `chunks_exact(0)` and
      SizeOverflowPanic for the overflow panic of the usize frame size
      arithmetic. */
  datatype SerError =
    | InvalidHeader
    | InvalidColorID(v: nat)
    | InvalidEndian(v: nat)
    | Utf8Error
    | UnexpectedEof
    | ZeroFrameSizePanic
    | SizeOverflowPanic

  datatype Endian = Little | Big

  /** The header code of a byte order. */
  function EndianCode(e: Endian): nat {
    match e
    case Little => 0
    case Big => 1
  }

  /** `Endian::try_from`. */
  function EndianFrom(v: nat): (r: Result<Endian, SerError>)
    ensures r.Success? <==> v < 2
    ensures r.Success? ==> EndianCode(r.value) == v
    ensures r.Failure? ==> r.error == InvalidEndian(v)
  {
    if v == 0 then Success(Little)
    else if v == 1 then Success(Big)
    else Failure(InvalidEndian(v))
  }

  /** Every byte order survives being written as its code and read back. */
  lemma EndianRoundTrip(e: Endian)
    ensures EndianFrom(EndianCode(e)) == Success(e)
  {
  }

  datatype ColorID =
    | Mono | BayerRGGB | BayerGRBG | BayerBGRG | BayerBGGR
    | BayerCYYM | BayerYCMY | BayerYMCY | BayerMYYC | RGB | BGR
  {
    /** The enum discriminant, which is also the header code. */
    function Discriminant(): nat {
      match this
      case Mono => 0
      case BayerRGGB => 8
      case BayerGRBG => 9
      case BayerBGRG => 10
      case BayerBGGR => 11
      case BayerCYYM => 16
      case BayerYCMY => 17
      case BayerYMCY => 18
      case BayerMYYC => 19
      case RGB => 100
      case BGR => 101
    }
  }

  const ColorCodes: set<nat> := {0, 8, 9, 10, 11, 16, 17, 18, 19, 100, 101}

  /** `ColorID::try_from`. */
  function ColorIdFrom(v: nat): (r: Result<ColorID, SerError>)
    ensures r.Success? <==> v in ColorCodes
    ensures r.Success? ==> r.value.Discriminant() == v
    ensures r.Failure? ==> r.error == InvalidColorID(v)
  {
    match v
    case 0 => Success(Mono)
    case 8 => Success(BayerRGGB)
    case 9 => Success(BayerGRBG)
    case 10 => Success(BayerBGRG)
    case 11 => Success(BayerBGGR)
    case 16 => Success(BayerCYYM)
    case 17 => Success(BayerYCMY)
    case 18 => Success(BayerYMCY)
    case 19 => Success(BayerMYYC)
    case 100 => Success(RGB)
    case 101 => Success(BGR)
    case _ => Failure(InvalidColorID(v))
  }

  /** Reading a colour's discriminant gives the colour back, and the
      discriminants are exactly the accepted codes. */
  lemma ColorIdRoundTrip(c: ColorID)
    ensures c.Discriminant() in ColorCodes
    ensures ColorIdFrom(c.Discriminant()) == Success(c)
  {
  }

  /** Samples per pixel: three for the colour layouts, one for mono and Bayer. */
  function PixelLayers(c: ColorID): (n: nat)
    ensures n == 3 <==> c == RGB || c == BGR
    ensures n == 1 <==> !(c == RGB || c == BGR)
  {
    if c == RGB || c == BGR then 3 else 1
  }

  const HEADER_LEN: nat := 178
  const MAGIC_TEXT: string := "LUCAM-RECORDER"
  /** The ASCII bytes of MAGIC_TEXT. */
  const MAGIC: seq<u8> := [76, 85, 67, 65, 77, 45, 82, 69, 67, 79, 82, 68, 69, 82]

  lemma MagicEncoding()
    ensures Encode(MAGIC_TEXT) == MAGIC
  {
    assert forall i | 0 <= i < |MAGIC_TEXT| :: MAGIC_TEXT[i] as int == MAGIC[i] as int;
    EncodeAscii(MAGIC_TEXT);
  }

  /** The text check on the first 14 bytes passes exactly when they are the
      bytes of "LUCAM-RECORDER": UTF-8 decoding is one-to-one. */
  lemma MagicCheck(b: seq<u8>)
    ensures Decode(b) == Some(MAGIC_TEXT) <==> b == MAGIC
  {
    MagicEncoding();
    DecodeEncode(MAGIC_TEXT);
    if Decode(b) == Some(MAGIC_TEXT) {
      EncodeDecode(b);
    }
  }

  /** `std::str::from_utf8` with its error mapped to Utf8Error. */
  function FromUtf8(b: seq<u8>): (r: Result<string, SerError>)
    ensures r.Success? ==> Encode(r.value) == b
    ensures r.Failure? ==> r.error == Utf8Error
  {
    match Decode(b)
    case None => Failure(Utf8Error)
    case Some(s) => EncodeDecode(b); Success(s)
  }

  /** The decoded header fields. */
  datatype Header = Header(
    colorId: ColorID, endian: Endian,
    width: nat, height: nat, bitDepth: nat, frameCount: nat,
    observer: string, instrument: string, telescope: string)

  /** The header checks and field decoding of `SERFile::new`, in the order the
      source performs them. */
  function ParseHeader(h: seq<u8>): (r: Result<Header, SerError>)
    requires |h| == HEADER_LEN
    ensures r.Success? ==> h[..14] == MAGIC
    ensures r.Success? ==> r.value.colorId.Discriminant() == U32LE(h, 18)
    ensures r.Success? ==> EndianCode(r.value.endian) == U32LE(h, 22)
    ensures r.Success? ==> r.value.width == U32LE(h, 26) && r.value.height == U32LE(h, 30)
    ensures r.Success? ==> r.value.bitDepth == U32LE(h, 34) && r.value.frameCount == U32LE(h, 38)
  {
    match Decode(h[..14])
    case None => Failure(Utf8Error)
    case Some(magic) =>
      if magic != MAGIC_TEXT then Failure(InvalidHeader)
      else
        MagicCheck(h[..14]);
        var colorId :- ColorIdFrom(U32LE(h, 18));
        var endian :- EndianFrom(U32LE(h, 22));
        var observer :- FromUtf8(h[42..82]);
        var instrument :- FromUtf8(h[82..122]);
        var telescope :- FromUtf8(h[122..152]);
        Success(Header(colorId, endian, U32LE(h, 26), U32LE(h, 30), U32LE(h, 34), U32LE(h, 38),
                       Trim(observer), Trim(instrument), Trim(telescope)))
  }

  /** The errors of the header checks, in order: the magic, then the colour
      code, then the byte order, then the three text fields. */
  lemma ParseHeaderErrors(h: seq<u8>)
    requires |h| == HEADER_LEN
    ensures h[..14] != MAGIC ==>
      ParseHeader(h) == Failure(if Decode(h[..14]).None? then Utf8Error else InvalidHeader)
    ensures h[..14] == MAGIC && U32LE(h, 18) !in ColorCodes ==>
      ParseHeader(h) == Failure(InvalidColorID(U32LE(h, 18)))
    ensures h[..14] == MAGIC && U32LE(h, 18) in ColorCodes && U32LE(h, 22) >= 2 ==>
      ParseHeader(h) == Failure(InvalidEndian(U32LE(h, 22)))
    ensures h[..14] == MAGIC && U32LE(h, 18) in ColorCodes && U32LE(h, 22) < 2
            && (Decode(h[42..82]).None? || Decode(h[82..122]).None? || Decode(h[122..152]).None?) ==>
      ParseHeader(h) == Failure(Utf8Error)
  {
    MagicCheck(h[..14]);
  }

  /** The header decodes exactly when the magic is present, the colour and
      byte order codes are known, and the three text fields are UTF-8. */
  lemma ParseHeaderSucceeds(h: seq<u8>)
    requires |h| == HEADER_LEN
    ensures ParseHeader(h).Success? <==>
      && h[..14] == MAGIC && U32LE(h, 18) in ColorCodes && U32LE(h, 22) < 2
      && Decode(h[42..82]).Some? && Decode(h[82..122]).Some? && Decode(h[122..152]).Some?
  {
    MagicCheck(h[..14]);
  }

  /** The text fields are the UTF-8 text of bytes 42..82, 82..122 and
      122..152 with surrounding whitespace removed. */
  lemma ParseHeaderText(h: seq<u8>)
    requires |h| == HEADER_LEN && ParseHeader(h).Success?
    ensures Decode(h[42..82]).Some? && Decode(h[82..122]).Some? && Decode(h[122..152]).Some?
    ensures ParseHeader(h).value.observer == Trim(Decode(h[42..82]).value)
    ensures ParseHeader(h).value.instrument == Trim(Decode(h[82..122]).value)
    ensures ParseHeader(h).value.telescope == Trim(Decode(h[122..152]).value)
  {
  }

  /** Bytes per frame: width * height * bytes per sample * samples per pixel. */
  function FrameBytes(h: Header): nat {
    h.width * h.height * ((h.bitDepth + 7) / 8) * PixelLayers(h.colorId)
  }

  /** The usize products `width * height * byte_depth * pixel_layers` and
      `frame_bytes * frame_count` do not overflow (`frame_count * 8` never
      does: frame_count is below 2^32). */
  predicate SizesFit(h: Header) {
    FrameBytes(h) < USIZE_BOUND && FrameBytes(h) * h.frameCount < USIZE_BOUND
  }

  /** For a header of u32 fields, a frame_bytes that fits means the partial
      products the code computes on the way to it fit too, so SizesFit is
      exactly the absence of an overflow. */
  lemma PartialProductsFit(h: Header)
    requires h.width < 0x1_0000_0000 && h.height < 0x1_0000_0000
    requires SizesFit(h)
    ensures h.width * h.height < USIZE_BOUND
    ensures h.width * h.height * ((h.bitDepth + 7) / 8) < USIZE_BOUND
  {
    var m := 0xFFFF_FFFF;
    var wh := h.width * h.height;
    MulMono(h.width, m, h.height);
    MulMono(h.height, m, m);
    assert wh <= m * m;
    var whd := wh * ((h.bitDepth + 7) / 8);
    MulMono(1, PixelLayers(h.colorId), whd);
    assert whd <= FrameBytes(h);
  }

  /** A header announcing 2^31 x 2^31 pixels of 32 bits has a frame size of
      2^64 bytes, which overflows. */
  lemma SizeOverflowExample(h: Header)
    requires h.colorId == Mono && h.width == 0x8000_0000 && h.height == 0x8000_0000 && h.bitDepth == 32
    ensures FrameBytes(h) == USIZE_BOUND && !SizesFit(h)
  {
  }

  /** `slice::chunks_exact(n)`: the consecutive n-byte pieces of buf, the
      remainder being dropped. */
  function ChunksExact(buf: seq<u8>, n: nat): (cs: seq<seq<u8>>)
    requires n > 0
    ensures forall k | 0 <= k < |cs| :: |cs[k]| == n
    decreases |buf|
  {
    if |buf| < n then [] else [buf[..n]] + ChunksExact(buf[n..], n)
  }

  lemma MulStep(k: nat, n: nat)
    ensures (k + 1) * n == k * n + n
  {
  }

  lemma MulMono(k: nat, m: nat, n: nat)
    requires k <= m
    ensures k * n <= m * n
  {
  }

  /** A buffer of m * n bytes is cut into exactly m pieces. */
  lemma {:induction false} ChunksExactCount(buf: seq<u8>, n: nat, m: nat)
    requires n > 0 && |buf| == m * n
    ensures |ChunksExact(buf, n)| == m
  {
    if m > 0 {
      MulStep(m - 1, n);
      ChunksExactCount(buf[n..], n, m - 1);
    }
  }

  /** Piece k of a buffer of at least (k + 1) * n bytes is bytes k*n .. k*n+n. */
  lemma {:induction false} ChunksExactAt(buf: seq<u8>, n: nat, k: nat)
    requires n > 0 && (k + 1) * n <= |buf|
    ensures k < |ChunksExact(buf, n)|
    ensures k * n + n <= |buf| && ChunksExact(buf, n)[k] == buf[k * n .. k * n + n]
  {
    MulStep(k, n);
    var kn := k * n;
    assert kn + n <= |buf|;
    if k > 0 {
      var rest := buf[n..];
      var cs := ChunksExact(rest, n);
      assert ChunksExact(buf, n) == [buf[..n]] + cs;
      MulStep(k - 1, n);
      var pn := (k - 1) * n;
      assert pn + n == kn;
      ChunksExactAt(rest, n, k - 1);
      assert cs[k - 1] == rest[pn .. pn + n];
      assert rest[pn .. pn + n] == buf[kn .. kn + n];
    }
  }

  /** The 16-bit samples stored as little-endian byte pairs (an odd last byte
      is dropped). */
  function Samples16(chunk: seq<u8>): (s: seq<u16>)
    ensures |s| == |chunk| / 2
  {
    seq(|chunk| / 2, j requires 0 <= j < |chunk| / 2 =>
      (chunk[2 * j] as int + 0x100 * chunk[2 * j + 1] as int) as u16)
  }

  /** The little-endian byte pairs of 16-bit samples. */
  function Bytes16(s: seq<u16>): (b: seq<u8>)
    ensures |b| == 2 * |s|
  {
    if s == [] then [] else [(s[0] as int % 0x100) as u8, (s[0] as int / 0x100) as u8] + Bytes16(s[1..])
  }

  lemma {:induction false} Bytes16At(s: seq<u16>, j: nat)
    requires j < |s|
    ensures Bytes16(s)[2 * j] as int == s[j] as int % 0x100
    ensures Bytes16(s)[2 * j + 1] as int == s[j] as int / 0x100
  {
    if j > 0 {
      Bytes16At(s[1..], j - 1);
      assert Bytes16(s)[2 * j] == Bytes16(s[1..])[2 * (j - 1)];
      assert Bytes16(s)[2 * j + 1] == Bytes16(s[1..])[2 * (j - 1) + 1];
    }
  }

  /** Reading the byte pairs of samples gives the samples back. */
  lemma SamplesOfBytes(s: seq<u16>)
    ensures Samples16(Bytes16(s)) == s
  {
    var t := Samples16(Bytes16(s));
    forall j | 0 <= j < |s| ensures t[j] == s[j] {
      Bytes16At(s, j);
    }
  }

  /** Writing out samples read from an even-length chunk gives the chunk back. */
  lemma BytesOfSamples(chunk: seq<u8>)
    requires |chunk| % 2 == 0
    ensures Bytes16(Samples16(chunk)) == chunk
  {
    var s := Samples16(chunk);
    var b := Bytes16(s);
    forall j | 0 <= j < |s| ensures b[2 * j] == chunk[2 * j] && b[2 * j + 1] == chunk[2 * j + 1] {
      Bytes16At(s, j);
      PairBytes(chunk[2 * j], chunk[2 * j + 1]);
    }
    forall i | 0 <= i < |chunk| ensures b[i] == chunk[i] {
      var j := i / 2;
      assert i == 2 * j || i == 2 * j + 1;
    }
  }

  /** A little-endian byte pair splits back into its two bytes. */
  lemma PairBytes(lo: u8, hi: u8)
    ensures (lo as int + 0x100 * hi as int) % 0x100 == lo as int
    ensures (lo as int + 0x100 * hi as int) / 0x100 == hi as int
  {
  }

  /** The time stamp offset in nanoseconds as `SERFile::new` computes it from
      a tick count: val / 10 microseconds plus (val % 100) * 10 nanoseconds.
      The microseconds are right; the nanosecond part is at most 990. */
  function TickNanosAsWritten(val: nat): (ns: nat)
    ensures ns / 1000 == val / 10
  {
    (val / 10) * 1000 + (val % 100) * 10
  }

  /** The conversion the tick unit calls for: val / 10 microseconds plus
      (val % 10) * 100 nanoseconds. */
  function TickNanos(val: nat): (ns: nat)
    ensures ns / 1000 == val / 10
  {
    (val / 10) * 1000 + (val % 10) * 100
  }

  /** A tick is 100 ns: the intended conversion is exact. */
  lemma TickNanosExact(val: nat)
    ensures TickNanos(val) == 100 * val
  {
    assert val == 10 * (val / 10) + val % 10;
  }

  /** 15 ticks are 1.5 microseconds, but the written conversion gives
      1.15 microseconds. */
  lemma TickNanosDiscrepancy()
    ensures TickNanosAsWritten(15) == 1150
    ensures TickNanos(15) == 1500 == 100 * 15
  {
  }

  /** The written conversion is off by less than a microsecond. */
  lemma TickNanosAsWrittenWithinMicrosecond(val: nat)
    ensures -1000 < TickNanosAsWritten(val) - 100 * val < 1000
  {
    TickNanosExact(val);
  }

  /** The frame times: one per 8-byte piece of the trailer. */
  function FrameTimes(buf: seq<u8>): (ts: seq<CameraFrames.FrameTime>)
  {
    var cs := ChunksExact(buf, 8);
    seq(|cs|, k requires 0 <= k < |cs| => TickNanos(FromLE(cs[k])) as CameraFrames.FrameTime)
  }

  /** One decoded frame: its time stamp and its 16-bit samples. */
  datatype SerFrame = SerFrame(time: CameraFrames.FrameTime, samples: seq<u16>)

  /** What a successful parse yields. */
  datatype SerContents = SerContents(header: Header, frames: seq<SerFrame>)

  /** Frame k: payload piece k and trailer time k. */
  function Frames(payload: seq<u8>, trailer: seq<u8>, fb: nat, fc: nat): (fs: seq<SerFrame>)
    requires fb > 0 && |payload| == fb * fc && |trailer| == fc * 8
    ensures |fs| == fc
  {
    ChunksExactCount(payload, fb, fc);
    ChunksExactCount(trailer, 8, fc);
    var chunks := ChunksExact(payload, fb);
    var times := FrameTimes(trailer);
    seq(fc, k requires 0 <= k < fc => SerFrame(times[k], Samples16(chunks[k])))
  }

  /** What follows a header announcing fc frames of fb bytes: the payload,
      the time trailer and the chunking of the payload. */
  function ParseBody(file: seq<u8>, fb: nat, fc: nat): (r: Result<seq<SerFrame>, SerError>)
    requires |file| >= HEADER_LEN
    ensures r.Success? ==> |r.value| == fc
  {
    var payloadEnd := HEADER_LEN + fb * fc;
    if |file| < payloadEnd then Failure(UnexpectedEof)
    else if |file| - payloadEnd < fc * 8 then Failure(UnexpectedEof)
    else if fb == 0 then Failure(ZeroFrameSizePanic)
    else Success(Frames(file[HEADER_LEN..payloadEnd], file[payloadEnd..payloadEnd + fc * 8], fb, fc))
  }

  /** The byte-level meaning of `SERFile::new` on the file's contents. */
  function Parse(file: seq<u8>): (r: Result<SerContents, SerError>)
    ensures |file| < HEADER_LEN ==> r == Failure(UnexpectedEof)
    ensures r.Success? ==> |r.value.frames| == r.value.header.frameCount
  {
    if |file| < HEADER_LEN then Failure(UnexpectedEof)
    else
      var h :- ParseHeader(file[..HEADER_LEN]);
      if !SizesFit(h) then Failure(SizeOverflowPanic)
      else
        var frames :- ParseBody(file, FrameBytes(h), h.frameCount);
        Success(SerContents(h, frames))
  }

  /** Parsing succeeds exactly when the header is whole and valid, the frame
      sizes fit in a usize, the payload and the time trailer are all present,
      and a frame has at least one byte. */
  lemma ParseSucceeds(file: seq<u8>)
    ensures Parse(file).Success? <==>
      && |file| >= HEADER_LEN
      && ParseHeader(file[..HEADER_LEN]).Success?
      && var h := ParseHeader(file[..HEADER_LEN]).value;
         && SizesFit(h)
         && |file| >= HEADER_LEN + FrameBytes(h) * h.frameCount + h.frameCount * 8 && FrameBytes(h) > 0
  {
  }

  /** Frame k is built from payload piece k and trailer entry k. */
  lemma FramesAt(payload: seq<u8>, trailer: seq<u8>, fb: nat, fc: nat, k: nat)
    requires fb > 0 && |payload| == fb * fc && |trailer| == fc * 8 && k < fc
    ensures k * fb + fb <= |payload| && k * 8 + 8 <= |trailer|
    ensures Frames(payload, trailer, fb, fc)[k]
         == SerFrame(TickNanos(FromLE(trailer[k * 8 .. k * 8 + 8])),
                     Samples16(payload[k * fb .. k * fb + fb]))
  {
    MulMono(k + 1, fc, fb);
    ChunksExactAt(payload, fb, k);
    ChunksExactAt(trailer, 8, k);
    ChunksExactCount(trailer, 8, fc);
  }

  lemma SliceOfSlice(s: seq<u8>, a: nat, b: nat, i: nat, j: nat)
    requires a <= b <= |s| && i <= j <= b - a
    ensures s[a..b][i..j] == s[a + i..a + j]
  {
    assert forall t | 0 <= t < j - i :: s[a..b][i..j][t] == s[a + i + t];
  }

  /** A successful parse is a valid header followed by a valid body; with
      BodyFrames this places every frame in the file. */
  lemma ParseSplits(file: seq<u8>)
    requires Parse(file).Success?
    ensures |file| >= HEADER_LEN
    ensures ParseHeader(file[..HEADER_LEN]) == Success(Parse(file).value.header)
    ensures SizesFit(Parse(file).value.header)
    ensures var h := Parse(file).value.header;
      ParseBody(file, FrameBytes(h), h.frameCount) == Success(Parse(file).value.frames)
  {
  }

  /** Frame k in file offsets: payload piece k starts at 178 + k * fb, and
      its time stamp at 178 + fb * fc + 8 * k. */
  lemma FramesInFile(file: seq<u8>, fb: nat, fc: nat, k: nat)
    requires fb > 0 && k < fc && HEADER_LEN + fb * fc + fc * 8 <= |file|
    ensures HEADER_LEN + k * fb + fb <= HEADER_LEN + fb * fc
    ensures Frames(file[HEADER_LEN..HEADER_LEN + fb * fc], file[HEADER_LEN + fb * fc..HEADER_LEN + fb * fc + fc * 8], fb, fc)[k]
         == SerFrame(TickNanos(U64LE(file, HEADER_LEN + fb * fc + 8 * k)),
                     Samples16(file[HEADER_LEN + k * fb .. HEADER_LEN + k * fb + fb]))
  {
    var payloadEnd := HEADER_LEN + fb * fc;
    var payload := file[HEADER_LEN..payloadEnd];
    var trailer := file[payloadEnd..payloadEnd + fc * 8];
    FramesAt(payload, trailer, fb, fc, k);
    var start, tick := k * fb, 8 * k;
    assert k * 8 == tick;
    SliceOfSlice(file, HEADER_LEN, payloadEnd, start, start + fb);
    SliceOfSlice(file, payloadEnd, payloadEnd + fc * 8, tick, tick + 8);
    assert U64LE(file, payloadEnd + tick) == FromLE(trailer[tick..tick + 8]);
  }

  /** Frame k holds the byte pairs of payload piece k, at offset
      178 + k * fb, and the time of trailer entry k, at 178 + fb * fc + 8 * k. */
  lemma BodyFrames(file: seq<u8>, fb: nat, fc: nat, k: nat)
    requires |file| >= HEADER_LEN && ParseBody(file, fb, fc).Success? && k < fc
    ensures var start := HEADER_LEN + k * fb;
      var tick := HEADER_LEN + fb * fc + 8 * k;
      && start + fb <= |file| && tick + 8 <= |file|
      && ParseBody(file, fb, fc).value[k]
         == SerFrame(TickNanos(U64LE(file, tick)), Samples16(file[start..start + fb]))
  {
    var payloadEnd := HEADER_LEN + fb * fc;
    assert ParseBody(file, fb, fc).value
        == Frames(file[HEADER_LEN..payloadEnd], file[payloadEnd..payloadEnd + fc * 8], fb, fc);
    FramesInFile(file, fb, fc, k);
  }

  /** The samples of a single-layer frame (FrameBytes(h) / 2 of them, by
      BodyFrames) are as many as its width * height pixels for 9 to 16 bit
      samples; 1 to 8 bit frames are read as half as many 16-bit samples. */
  lemma FrameShape(h: Header)
    requires PixelLayers(h.colorId) == 1
    ensures 9 <= h.bitDepth <= 16 ==> FrameBytes(h) / 2 == h.width * h.height
    ensures 1 <= h.bitDepth <= 8 ==> FrameBytes(h) / 2 == (h.width * h.height) / 2
  {
    var wh := h.width * h.height;
    var depth := (h.bitDepth + 7) / 8;
    assert FrameBytes(h) == wh * depth * 1;
    if 9 <= h.bitDepth <= 16 {
      assert depth == 2;
      assert FrameBytes(h) == 2 * wh;
    }
    if 1 <= h.bitDepth <= 8 {
      assert depth == 1;
    }
  }

  /** A cursor over the file's bytes, standing for the open `File`. */
  class FileReader {
    const data: seq<u8>
    var pos: nat

    predicate Valid()
      reads this
    {
      pos <= |data|
    }

    constructor (data: seq<u8>)
      ensures this.data == data && pos == 0 && Valid()
    {
      this.data := data;
      pos := 0;
    }

    /** `Read::read_exact`: the next k bytes, or UnexpectedEof when fewer
        remain (the cursor then stands at the end). */
    method ReadExact(k: nat) returns (r: Result<seq<u8>, SerError>)
      requires Valid()
      modifies this
      ensures Valid()
      ensures old(pos) + k <= |data| ==> r == Success(data[old(pos)..old(pos) + k]) && pos == old(pos) + k
      ensures old(pos) + k > |data| ==> r == Failure(UnexpectedEof) && pos == |data|
    {
      if pos + k <= |data| {
        r := Success(data[pos..pos + k]);
        pos := pos + k;
      } else {
        r := Failure(UnexpectedEof);
        pos := |data|;
      }
    }
  }

  /** The fields of `SERFile`. */
  datatype SerFile = SerFile(fname: string, header: Header, frames: seq<CameraFrames.CameraFrame>)

  /** The frame buffer f is the decoded frame s of a file with header h. */
  predicate FrameMatches(f: CameraFrames.CameraFrame, s: SerFrame, h: Header)
    reads if f.Mono16? then {f.m16.rawdata} else {}
  {
    && f.Mono16?
    && f.m16.rows == h.width && f.m16.cols == h.height && f.m16.bitDepth == h.bitDepth
    && f.m16.pixelOrder == CameraFrames.ColMajor && f.m16.time == s.time
    && f.m16.rawdata[..] == s.samples
  }

  /** Parse is header decoding, then the frame size check, then body
      decoding, the first error winning. */
  lemma ParseCompose(file: seq<u8>)
    requires |file| >= HEADER_LEN
    ensures ParseHeader(file[..HEADER_LEN]).Failure? ==>
      Parse(file) == Failure(ParseHeader(file[..HEADER_LEN]).error)
    ensures ParseHeader(file[..HEADER_LEN]).Success? ==>
      var h := ParseHeader(file[..HEADER_LEN]).value;
      var body := ParseBody(file, FrameBytes(h), h.frameCount);
      Parse(file) == if !SizesFit(h) then Failure(SizeOverflowPanic)
                     else if body.Failure? then Failure(body.error) else Success(SerContents(h, body.value))
  {
  }

  /** The second and third `read_exact` of `SERFile::new` and the building of
      one 16-bit frame buffer per payload piece. */
  method ReadBody(reader: FileReader, h: Header) returns (r: Result<seq<CameraFrames.CameraFrame>, SerError>)
    requires reader.Valid() && reader.pos == HEADER_LEN
    modifies reader
    ensures var spec := ParseBody(reader.data, FrameBytes(h), h.frameCount);
      && (r.Failure? <==> spec.Failure?)
      && (r.Failure? ==> r.error == spec.error)
      && (r.Success? ==> |r.value| == |spec.value|)
      && (r.Success? ==> forall k | 0 <= k < |r.value| :: FrameMatches(r.value[k], spec.value[k], h))
    ensures r.Success? ==> forall k | 0 <= k < |r.value| ::
      r.value[k].Mono16? && fresh(r.value[k].m16) && fresh(r.value[k].m16.rawdata)
  {
    var file := reader.data;
    var fb := FrameBytes(h);
    var fc := h.frameCount;
    var framesBuf :- reader.ReadExact(fb * fc);
    var timeBuf :- reader.ReadExact(fc * 8);
    if fb == 0 {
      return Failure(ZeroFrameSizePanic);
    }
    ChunksExactCount(framesBuf, fb, fc);
    ChunksExactCount(timeBuf, 8, fc);
    var times := FrameTimes(timeBuf);
    var chunks := ChunksExact(framesBuf, fb);
    ghost var spec := Frames(framesBuf, timeBuf, fb, fc);
    assert ParseBody(file, fb, fc) == Success(spec);
    var frames := MakeFrames(h, times, chunks);
    assert forall k | 0 <= k < fc :: spec[k] == SerFrame(times[k], Samples16(chunks[k]));
    r := Success(frames);
  }

  /** The frame buffers of the zipped payload chunks and time stamps: one
      fresh column-major 16-bit frame per chunk. */
  method MakeFrames(h: Header, times: seq<CameraFrames.FrameTime>, chunks: seq<seq<u8>>)
    returns (frames: seq<CameraFrames.CameraFrame>)
    requires |times| == |chunks|
    ensures |frames| == |chunks|
    ensures forall k | 0 <= k < |frames| :: FrameMatches(frames[k], SerFrame(times[k], Samples16(chunks[k])), h)
    ensures forall k | 0 <= k < |frames| ::
      frames[k].Mono16? && fresh(frames[k].m16) && fresh(frames[k].m16.rawdata)
  {
    frames := [];
    for idx := 0 to |chunks|
      invariant |frames| == idx
      invariant forall k | 0 <= k < idx :: FrameMatches(frames[k], SerFrame(times[k], Samples16(chunks[k])), h)
      invariant forall k | 0 <= k < idx :: frames[k].Mono16? && fresh(frames[k].m16) && fresh(frames[k].m16.rawdata)
    {
      var m := new CameraFrames.CameraFrameMono<u16>.New(h.width, h.height, h.bitDepth, CameraFrames.ColMajor,
                                                        times[idx], Samples16(chunks[idx]));
      frames := frames + [CameraFrames.Mono16(m)];
    }
  }

  /** `SERFile::new` on a file with contents `file`: the header read and
      checked, then the body. */
  method Open(fname: string, file: seq<u8>) returns (r: Result<SerFile, SerError>)
    ensures r.Failure? <==> Parse(file).Failure?
    ensures r.Failure? ==> r.error == Parse(file).error
    ensures r.Success? ==> r.value.fname == fname && r.value.header == Parse(file).value.header
    ensures r.Success? ==> |r.value.frames| == |Parse(file).value.frames|
    ensures r.Success? ==> forall k | 0 <= k < |r.value.frames| ::
      FrameMatches(r.value.frames[k], Parse(file).value.frames[k], r.value.header)
    ensures r.Success? ==> forall k | 0 <= k < |r.value.frames| ::
      r.value.frames[k].Mono16? && fresh(r.value.frames[k].m16) && fresh(r.value.frames[k].m16.rawdata)
  {
    var reader := new FileReader(file);
    var header :- reader.ReadExact(HEADER_LEN);
    assert header == file[..HEADER_LEN];
    ParseCompose(file);
    var h :- ParseHeader(header);
    if !SizesFit(h) {
      return Failure(SizeOverflowPanic);
    }
    var frames :- ReadBody(reader, h);
    r := Success(SerFile(fname, h, frames));
  }
}
