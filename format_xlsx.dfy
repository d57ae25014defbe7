/** The built-in descriptor for Excel 2007 (and later) documents. */
module FormatXlsx {

  import opened Options
  import opened Bytes
  import opened Modes
  import opened BinaryHelper
  import opened Descriptors

  const NAME := "Excel Document"

  /** `PK\3\4`, the local file header signature of the ZIP format (PKWARE APPNOTE, section 4.3.7). */
  const ZIP_LOCAL_HEADER: seq<bv8> := [0x50, 0x4B, 0x03, 0x04]

  /** The Office Open XML spreadsheet MIME type (written in parts). */
  const XLSX_MIME_TYPE := "application/" + "vnd.openxml" + "formats-" + "officedocument." + "spreadsheetml." + "sheet"

  /** Name NAME, short name "XLSX", extension xlsx, the Office Open XML spreadsheet MIME type. */
  function Xlsx(): (d: Descriptor)
    ensures d.validators.Keys == {LeadingBytes}
    ensures forall data :: d.validators[LeadingBytes](data) <==> StartsWith(data, ZIP_LOCAL_HEADER)
    ensures forall data :: |data| < 4 ==> !d.validators[LeadingBytes](data)
  {
    Descriptor(NAME, "XLSX", {"xlsx"}, {XLSX_MIME_TYPE},
               map[LeadingBytes := data => StartsWith(data, ZIP_LOCAL_HEADER)])
  }

  lemma XlsxWellFormed(parse: MimeTypeParser)
    requires ParsesWithoutParameters(parse, XLSX_MIME_TYPE)
    ensures WellFormed(Xlsx(), parse)
  {
    var a := "application/" + "vnd.openxml";
    NoUpperCaseConcat("application/", "vnd.openxml");
    NoUpperCaseConcat(a, "formats-");
    NoUpperCaseConcat(a + "formats-", "officedocument.");
    NoUpperCaseConcat(a + "formats-" + "officedocument.", "spreadsheetml.");
    NoUpperCaseConcat(a + "formats-" + "officedocument." + "spreadsheetml.", "sheet");
  }

  /** The descriptor is what the descriptor constructor builds from the source's arguments. */
  lemma XlsxBuiltByConstructor(parse: MimeTypeParser)
    requires ParsesWithoutParameters(parse, XLSX_MIME_TYPE)
    ensures Xlsx() == NewDescriptor(NAME, Some("XLSX"), ["xlsx"], [XLSX_MIME_TYPE], Xlsx().validators, parse)
  {
    XlsxWellFormed(parse);
  }
}
