/** The built-in descriptor for Excel documents before 2007. */
module FormatXls {

  import opened Options
  import opened Bytes
  import opened Modes
  import opened BinaryHelper
  import opened Descriptors

  const NAME := "Excel Document (before 2007)"

  /** The four leading bytes checked for XLS, as the descriptor lists them. */
  const XLS_MAGIC: seq<bv8> := [0xD0, 0xCD, 0x11, 0xE0]

  /** The Excel MIME type (written in two halves). */
  const XLS_MIME_TYPE := "application/" + "vnd.ms-excel"

  /** Name NAME, short name "XLS", extension xls, MIME type application/vnd.ms-excel. */
  function Xls(): (d: Descriptor)
    ensures d.validators.Keys == {LeadingBytes}
    ensures forall data :: d.validators[LeadingBytes](data) <==> StartsWith(data, XLS_MAGIC)
    ensures forall data :: |data| < 4 ==> !d.validators[LeadingBytes](data)
  {
    Descriptor(NAME, "XLS", {"xls"}, {XLS_MIME_TYPE},
               map[LeadingBytes := data => StartsWith(data, XLS_MAGIC)])
  }

  lemma XlsWellFormed(parse: MimeTypeParser)
    requires ParsesWithoutParameters(parse, XLS_MIME_TYPE)
    ensures WellFormed(Xls(), parse)
  {
    NoUpperCaseConcat("application/", "vnd.ms-excel");
  }

  /** The descriptor is what the descriptor constructor builds from the source's arguments. */
  lemma XlsBuiltByConstructor(parse: MimeTypeParser)
    requires ParsesWithoutParameters(parse, XLS_MIME_TYPE)
    ensures Xls() == NewDescriptor(NAME, Some("XLS"), ["xls"], [XLS_MIME_TYPE], Xls().validators, parse)
  {
    XlsWellFormed(parse);
  }
}
