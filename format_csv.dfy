/** The built-in CSV descriptor: recognised by extension and MIME type only. */
module FormatCsv {

  import opened Options
  import opened Modes
  import opened BinaryHelper
  import opened Descriptors

  const CSV_MIME_TYPE := "text/csv"

  /** Name "Comma-separated values", short name "CSV", extension csv, MIME type text/csv, no validator. */
  function Csv(): (d: Descriptor)
    ensures d.validators == map[]
  {
    Descriptor("Comma-separated values", "CSV", {"csv"}, {CSV_MIME_TYPE}, map[])
  }

  /** With an empty validator map, no mode list finds a validator. */
  lemma CsvHasNoValidator(modes: seq<Mode>)
    ensures FirstMatch(Csv().validators, modes).None?
    ensures FavourSpeed(Csv()).None? && FavourAccuracy(Csv()).None?
  {
  }

  lemma CsvWellFormed(parse: MimeTypeParser)
    requires ParsesWithoutParameters(parse, CSV_MIME_TYPE)
    ensures WellFormed(Csv(), parse)
  {
  }

  /** The descriptor is what the descriptor constructor builds from the source's arguments. */
  lemma CsvBuiltByConstructor(parse: MimeTypeParser)
    requires ParsesWithoutParameters(parse, CSV_MIME_TYPE)
    ensures Csv() == NewDescriptor("Comma-separated values", Some("CSV"), ["csv"], [CSV_MIME_TYPE], Csv().validators, parse)
  {
    CsvWellFormed(parse);
  }
}
