/** The built-in TIFF descriptor. */
module FormatTiff {

  import opened Options
  import opened Bytes
  import opened Modes
  import opened BinaryHelper
  import opened Descriptors

  /** `II` (Intel) and `MM` (Motorola): the byte-order field of the TIFF 6.0 header, section 2. */
  const TIFF_INTEL: seq<bv8> := [0x49, 0x49]
  const TIFF_MOTOROLA: seq<bv8> := [0x4D, 0x4D]

  const TIFF_MIME_TYPE := "image/tiff"

  /** Name "Tagged Image File Format", short name "TIFF", extensions tif and tiff, MIME type image/tiff. */
  function Tiff(): (d: Descriptor)
    ensures d.validators.Keys == {LeadingBytes}
    ensures forall data :: d.validators[LeadingBytes](data) <==> StartsWith(data, TIFF_INTEL) || StartsWith(data, TIFF_MOTOROLA)
    ensures forall data :: |data| < 2 ==> !d.validators[LeadingBytes](data)
  {
    Descriptor("Tagged Image File Format", "TIFF", {"tif", "tiff"}, {TIFF_MIME_TYPE},
               map[LeadingBytes := data => StartsWith(data, TIFF_INTEL) || StartsWith(data, TIFF_MOTOROLA)])
  }

  /** Only the byte-order mark is checked: the magic number 42 that follows it is not. */
  lemma TiffIgnoresMagicNumber(rest: seq<bv8>)
    ensures Tiff().validators[LeadingBytes](TIFF_INTEL + rest)
    ensures Tiff().validators[LeadingBytes](TIFF_MOTOROLA + rest)
  {
    assert (TIFF_INTEL + rest)[..2] == TIFF_INTEL;
    assert (TIFF_MOTOROLA + rest)[..2] == TIFF_MOTOROLA;
  }

  lemma TiffWellFormed(parse: MimeTypeParser)
    requires ParsesWithoutParameters(parse, TIFF_MIME_TYPE)
    ensures WellFormed(Tiff(), parse)
  {
  }

  /** The descriptor is what the descriptor constructor builds from the source's arguments. */
  lemma TiffBuiltByConstructor(parse: MimeTypeParser)
    requires ParsesWithoutParameters(parse, TIFF_MIME_TYPE)
    ensures Tiff() == NewDescriptor("Tagged Image File Format", Some("TIFF"), ["tif", "tiff"], [TIFF_MIME_TYPE], Tiff().validators, parse)
  {
    TiffWellFormed(parse);
  }
}
