/**
 * The raw-video format the application sink asks for (`GSTBase.createVideoSink`).
 *
 * GStreamer names a packed format by its bytes in memory order: `BGRx` stores blue,
 * green, red and one padding byte; `xRGB` stores padding, red, green, blue. The frame
 * buffer is later read as native-order 32-bit ints into an image whose pixels are
 * `0x??RRGGBB` (red in bits 16-23, green in 8-15, blue in 0-7). The sink picks the
 * format whose memory layout, read in the machine's own byte order, produces exactly
 * that packing.
 */
module PixelFormat {

  type byte = b: int | 0 <= b < 256

  datatype ByteOrder = LittleEndian | BigEndian

  datatype Format = BGRx | XRGB

  /** The format chosen for the machine's native byte order: one that reads back every pixel. */
  function SinkFormat(native: ByteOrder): (f: Format)
    ensures DecodesFaithfully(native, f)
  {
    var f := if native == LittleEndian then BGRx else XRGB;
    MatchingLayoutDecodes(native, f);
    f
  }

  /** The layout stores blue in the byte the byte order reads as least significant. */
  predicate LayoutMatches(order: ByteOrder, f: Format) {
    (order == LittleEndian && f == BGRx) || (order == BigEndian && f == XRGB)
  }

  function FormatName(f: Format): string {
    match f
    case BGRx => "BGRx"
    case XRGB => "xRGB"
  }

  /** The caps string the sink is configured with. */
  function SinkCaps(native: ByteOrder): (caps: string)
    ensures native == LittleEndian ==> caps == "video/x-raw,format=BGRx"
    ensures native == BigEndian ==> caps == "video/x-raw,format=xRGB"
  {
    "video/x-raw," + "format=" + FormatName(SinkFormat(native))
  }

  /** The four bytes of one pixel as the format lays them out in memory. */
  function PixelBytes(f: Format, red: byte, green: byte, blue: byte, pad: byte): (bs: seq<byte>)
    ensures |bs| == 4
  {
    match f
    case BGRx => [blue, green, red, pad]
    case XRGB => [pad, red, green, blue]
  }

  /** Four bytes read as one unsigned 32-bit word in the given byte order. */
  function ReadWord(order: ByteOrder, bs: seq<byte>): (w: int)
    requires |bs| == 4
    ensures 0 <= w < 0x1_0000_0000
  {
    match order
    case LittleEndian => bs[0] as int + 0x100 * bs[1] as int + 0x1_0000 * bs[2] as int + 0x100_0000 * bs[3] as int
    case BigEndian => bs[3] as int + 0x100 * bs[2] as int + 0x1_0000 * bs[1] as int + 0x100_0000 * bs[0] as int
  }

  /** The channels of an RGB image pixel, as the image's colour masks extract them. */
  function Red(w: int): byte { (w / 0x1_0000) % 0x100 }
  function Green(w: int): byte { (w / 0x100) % 0x100 }
  function Blue(w: int): byte { w % 0x100 }

  /** A format is right for a byte order when every pixel it stores reads back channel for channel. */
  ghost predicate DecodesFaithfully(order: ByteOrder, f: Format) {
    forall red: byte, green: byte, blue: byte, pad: byte {:trigger PixelBytes(f, red, green, blue, pad)} ::
      var w := ReadWord(order, PixelBytes(f, red, green, blue, pad));
      Red(w) == red && Green(w) == green && Blue(w) == blue
  }

  /** One pixel stored in a matching layout reads back as the same red, green and blue. */
  lemma NativeLayoutRoundTrip(order: ByteOrder, f: Format, red: byte, green: byte, blue: byte, pad: byte)
    requires LayoutMatches(order, f)
    ensures var w := ReadWord(order, PixelBytes(f, red, green, blue, pad));
            Red(w) == red && Green(w) == green && Blue(w) == blue
  {
    var w := ReadWord(order, PixelBytes(f, red, green, blue, pad));
    var low: int := blue as int + 0x100 * green as int;
    var high: int := red as int + 0x100 * pad as int;
    assert w == low + 0x1_0000 * high;
    assert 0 <= low < 0x1_0000;
    assert w / 0x1_0000 == high;
    assert w / 0x100 == green + 0x100 * high;
  }

  lemma MatchingLayoutDecodes(order: ByteOrder, f: Format)
    requires LayoutMatches(order, f)
    ensures DecodesFaithfully(order, f)
  {
    forall red: byte, green: byte, blue: byte, pad: byte
      ensures var w := ReadWord(order, PixelBytes(f, red, green, blue, pad));
              Red(w) == red && Green(w) == green && Blue(w) == blue
    {
      NativeLayoutRoundTrip(order, f, red, green, blue, pad);
    }
  }

  /** The chosen format is the only one that decodes faithfully on the native byte order. */
  lemma SinkFormatIsTheFaithfulOne(native: ByteOrder, f: Format)
    ensures DecodesFaithfully(native, f) <==> f == SinkFormat(native)
  {
    if f != SinkFormat(native) {
      // A pixel with only red set comes back with its red in another channel.
      var w := ReadWord(native, PixelBytes(f, 1, 0, 0, 0));
      assert Red(w) != 1;
    }
  }
}
