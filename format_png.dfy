/** The built-in PNG descriptor. */
module FormatPng {

  import opened Options
  import opened Bytes
  import opened Modes
  import opened BinaryHelper
  import opened Descriptors

  const NAME := "Portable Network Graphic"

  /** The 8-byte PNG file signature of section 3.1 of RFC 2083. */
  const PNG_SIGNATURE: seq<bv8> := [0x89, 0x50, 0x4E, 0x47, 0x0D, 0x0A, 0x1A, 0x0A]

  const PNG_MIME_TYPE := "image/png"

  /** Name NAME, short name "PNG", extension png, MIME type image/png. */
  function Png(): (d: Descriptor)
    ensures d.validators.Keys == {LeadingBytes}
    ensures forall data :: d.validators[LeadingBytes](data) <==> StartsWith(data, PNG_SIGNATURE)
    ensures forall data :: |data| < 8 ==> !d.validators[LeadingBytes](data)
  {
    Descriptor(NAME, "PNG", {"png"}, {PNG_MIME_TYPE},
               map[LeadingBytes := data => StartsWith(data, PNG_SIGNATURE)])
  }

  lemma PngWellFormed(parse: MimeTypeParser)
    requires ParsesWithoutParameters(parse, PNG_MIME_TYPE)
    ensures WellFormed(Png(), parse)
  {
  }

  /** The descriptor is what the descriptor constructor builds from the source's arguments. */
  lemma PngBuiltByConstructor(parse: MimeTypeParser)
    requires ParsesWithoutParameters(parse, PNG_MIME_TYPE)
    ensures Png() == NewDescriptor(NAME, Some("PNG"), ["png"], [PNG_MIME_TYPE], Png().validators, parse)
  {
    PngWellFormed(parse);
  }
}
