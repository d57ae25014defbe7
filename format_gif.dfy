/** The built-in GIF descriptor. */
module FormatGif {

  import opened Options
  import opened Bytes
  import opened Modes
  import opened BinaryHelper
  import opened Descriptors

  /** `GIF87a` and `GIF89a`, the two header signatures of the GIF89a specification, section 17. */
  const GIF87A: seq<bv8> := [0x47, 0x49, 0x46, 0x38, 0x37, 0x61]
  const GIF89A: seq<bv8> := [0x47, 0x49, 0x46, 0x38, 0x39, 0x61]

  const GIF_MIME_TYPE := "image/gif"

  /** Name "Graphics Interchange Format", short name "GIF", extension gif, MIME type image/gif. */
  function Gif(): (d: Descriptor)
    ensures d.validators.Keys == {LeadingBytes}
    ensures forall data :: d.validators[LeadingBytes](data) <==> StartsWith(data, GIF87A) || StartsWith(data, GIF89A)
    ensures forall data :: |data| < 6 ==> !d.validators[LeadingBytes](data)
  {
    Descriptor("Graphics Interchange Format", "GIF", {"gif"}, {GIF_MIME_TYPE},
               map[LeadingBytes := data => StartsWith(data, GIF87A) || StartsWith(data, GIF89A)])
  }

  /** Only the two listed versions are accepted: a `GIF88a` header is not. */
  lemma GifRejectsOtherVersions()
    ensures !Gif().validators[LeadingBytes](Latin1("GIF88a"))
    ensures Gif().validators[LeadingBytes](Latin1("GIF89a"))
  {
    var other := Latin1("GIF88a");
    assert other[4] == 0x38;
    assert other[4] != GIF87A[4] && other[4] != GIF89A[4];
    var good := Latin1("GIF89a");
    assert good[0] == 0x47 && good[1] == 0x49 && good[2] == 0x46;
    assert good[3] == 0x38 && good[4] == 0x39 && good[5] == 0x61;
    assert good[..6] == GIF89A;
  }

  lemma GifWellFormed(parse: MimeTypeParser)
    requires ParsesWithoutParameters(parse, GIF_MIME_TYPE)
    ensures WellFormed(Gif(), parse)
  {
  }

  /** The descriptor is what the descriptor constructor builds from the source's arguments. */
  lemma GifBuiltByConstructor(parse: MimeTypeParser)
    requires ParsesWithoutParameters(parse, GIF_MIME_TYPE)
    ensures Gif() == NewDescriptor("Graphics Interchange Format", Some("GIF"), ["gif"], [GIF_MIME_TYPE], Gif().validators, parse)
  {
    GifWellFormed(parse);
  }
}
