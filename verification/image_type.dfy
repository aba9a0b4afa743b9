/** `detectImageType`: recognise JPEG, PNG and GIF data by their leading
    magic bytes, in that order, and otherwise SVG by a pattern on the
    decoded text. Decoding the bytes as text and matching `<\s*svg\W`
    case-insensitively are left to the caller, which passes the outcome in. */
module ImageType {
  import opened Common

  datatype ImageKind = Jpg | Png | Gif | Svg

  function Extension(k: ImageKind): string
  {
    match k
    case Jpg => "jpg"
    case Png => "png"
    case Gif => "gif"
    case Svg => "svg"
  }

  function MediaType(k: ImageKind): string
  {
    match k
    case Jpg => "image/jpeg"
    case Png => "image/png"
    case Gif => "image/gif"
    case Svg => "image/svg+xml"
  }

  const JPEG_MAGIC: seq<Byte> := [0xFF, 0xD8, 0xFF]
  const PNG_MAGIC: seq<Byte> := [0x89, 0x50, 0x4E, 0x47, 0x0D, 0x0A, 0x1A, 0x0A]
  const GIF_MAGIC: seq<Byte> := [0x47, 0x49, 0x46]

  /** The magic bytes a raster kind is recognised by. */
  function Magic(k: ImageKind): seq<Byte>
    requires k != Svg
  {
    match k
    case Jpg => JPEG_MAGIC
    case Png => PNG_MAGIC
    case Gif => GIF_MAGIC
  }

  /** `check(header)`: compares position by position and stops at the first
      difference; a position past the end of the buffer reads `undefined`,
      which differs from every header byte. */
  method CheckHeader(buf: seq<Byte>, header: seq<Byte>) returns (matched: bool)
    ensures matched <==> header <= buf
  {
    var i := 0;
    while i < |header|
      invariant i <= |header|
      invariant i <= |buf| && header[..i] == buf[..i]
    {
      if i >= |buf| || header[i] != buf[i] {
        return false;
      }
      i := i + 1;
    }
    assert header == buf[..|header|];
    return true;
  }

  /** The result of `detectImageType`; `None` is `undefined`. */
  function DetectImageType(buf: seq<Byte>, looksLikeSvg: bool): (r: Option<ImageKind>)
    ensures |buf| <= 1 ==> r == None
    ensures r == Some(Jpg) <==> |buf| > 1 && JPEG_MAGIC <= buf
    ensures r == Some(Png) <==> |buf| > 1 && PNG_MAGIC <= buf
    ensures r == Some(Gif) <==> |buf| > 1 && GIF_MAGIC <= buf
    ensures r == Some(Svg) <==> |buf| > 1 && looksLikeSvg && !(JPEG_MAGIC <= buf) && !(PNG_MAGIC <= buf) && !(GIF_MAGIC <= buf)
  {
    MagicsDisagree(buf);
    if |buf| <= 1 then None
    else if JPEG_MAGIC <= buf then Some(Jpg)
    else if PNG_MAGIC <= buf then Some(Png)
    else if GIF_MAGIC <= buf then Some(Gif)
    else if looksLikeSvg then Some(Svg)
    else None
  }

  /** No buffer starts with two of the magic sequences: they differ in
      their first byte, so the order of the checks never matters. */
  lemma MagicsDisagree(buf: seq<Byte>)
    ensures !(JPEG_MAGIC <= buf && PNG_MAGIC <= buf)
    ensures !(JPEG_MAGIC <= buf && GIF_MAGIC <= buf)
    ensures !(PNG_MAGIC <= buf && GIF_MAGIC <= buf)
  {
    if JPEG_MAGIC <= buf { assert buf[0] == 0xFF; }
    if PNG_MAGIC <= buf { assert buf[0] == 0x89; }
  }

  /** Any data that starts with a raster kind's magic bytes is detected as
      that kind, whatever follows and whatever the text pattern says. */
  lemma DetectsMagic(k: ImageKind, rest: seq<Byte>, looksLikeSvg: bool)
    requires k != Svg
    ensures DetectImageType(Magic(k) + rest, looksLikeSvg) == Some(k)
  {
    var buf := Magic(k) + rest;
    assert Magic(k) <= buf by { assert buf[..|Magic(k)|] == Magic(k); }
  }

  /** A two-byte buffer is too short for every magic sequence: only the
      text pattern can classify it. */
  lemma TwoBytesAreNeverRaster(buf: seq<Byte>, looksLikeSvg: bool)
    requires |buf| == 2
    ensures DetectImageType(buf, looksLikeSvg) == (if looksLikeSvg then Some(Svg) else None)
  {
  }
}
