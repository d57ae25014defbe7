/** The built-in PDF descriptor. */
module FormatPdf {

  import opened Options
  import opened Bytes
  import opened Modes
  import opened BinaryHelper
  import opened Descriptors

  /** `%PDF`, the file header marker of section 7.5.2 of ISO 32000-1. */
  const PDF_MAGIC: seq<bv8> := [0x25, 0x50, 0x44, 0x46]

  const PDF_MIME_TYPE := "application/pdf"

  /** Name "Portable Document Format", short name "PDF", extension pdf, MIME type application/pdf. */
  function Pdf(): (d: Descriptor)
    ensures d.validators.Keys == {LeadingBytes}
    ensures forall data :: d.validators[LeadingBytes](data) <==> StartsWith(data, PDF_MAGIC)
    ensures forall data :: |data| < 4 ==> !d.validators[LeadingBytes](data)
  {
    Descriptor("Portable Document Format", "PDF", {"pdf"}, {PDF_MIME_TYPE},
               map[LeadingBytes := data => StartsWith(data, PDF_MAGIC)])
  }

  /** The constructor's checks pass, given that the parser accepts application/pdf. */
  lemma PdfWellFormed(parse: MimeTypeParser)
    requires ParsesWithoutParameters(parse, PDF_MIME_TYPE)
    ensures WellFormed(Pdf(), parse)
  {
  }

  /** The favour-speed validator accepts "%PDF-1.6blafoo" and rejects "%PdF-1.6blafoo". */
  lemma PdfDetermination()
    ensures FavourSpeed(Pdf()).Some?
    ensures FavourSpeed(Pdf()).value(Latin1("%PDF-1.6blafoo"))
    ensures !FavourSpeed(Pdf()).value(Latin1("%PdF-1.6blafoo"))
  {
    FavourSpeedAndAccuracy(Pdf());
    var good := Latin1("%PDF-1.6blafoo");
    var bad := Latin1("%PdF-1.6blafoo");
    assert good[..4] == PDF_MAGIC;
    assert bad[2] != PDF_MAGIC[2];
  }

  /** The descriptor is what the descriptor constructor builds from the source's arguments. */
  lemma PdfBuiltByConstructor(parse: MimeTypeParser)
    requires ParsesWithoutParameters(parse, PDF_MIME_TYPE)
    ensures Pdf() == NewDescriptor("Portable Document Format", Some("PDF"), ["pdf"], [PDF_MIME_TYPE], Pdf().validators, parse)
  {
    PdfWellFormed(parse);
  }
}
