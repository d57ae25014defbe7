# phive-binary file format registry in Dafny

This project models the core of phive-binary, a registry of binary file
formats. Each format is described by a *file format descriptor*: a name, a
short name, a set of file extensions, a set of MIME types and a map from
*content validation mode* (leading bytes, full parse) to a *content
validator*, a predicate over the first bytes of a document. The registry
indexes descriptors by name (in registration order), by extension and by
MIME type. It refuses a descriptor if any of its keys is already taken.
Reinitialisation clears the registry and lets every registrar register its
formats again. The default registrar registers CSV, GIF, PDF, PNG, PSD,
TIFF, XLS and XLSX, in that order. The XML descriptor exists but no
registrar shown here registers it.

Modules, one per source concern:

- `Options`: the `Option` type that stands for Java's nullable references.
- `Bytes`: `StartsWith` and `StartsWithAny` over `seq<bv8>`, and ISO 8859-1 encoding of test strings.
- `Modes`: the two-valued mode enum with its IDs and ID lookup. It stands for both enum generations in the source.
- `BinaryHelper`: the extension and MIME type checks of `PhiveBinaryHelper`.
- `Descriptors`: the descriptor record, its constructor and the first-match validator search.
- `FormatCsv`, `FormatGif`, `FormatPdf`, `FormatPng`, `FormatTiff`, `FormatXls`, `FormatXlsx`, `FormatXml`: the built-in descriptors.
- `Registry`: the abstract registry state `RegistryState`, the effect of a registration on it (`AfterRegister`), its invariant (`Consistent`), and the class `FileFormatRegistry`. The class holds the name order and the three maps as fields. Its methods are proved to follow `AfterRegister`.
- `DefaultRegistrar`: the default registrar and what a registry initialised by it holds.

Foreign library code enters as parameters:

- The MIME type parser is a function `MimeTypeParser` fixed when the registry is created.
- The Unicode byte order marks are a parameter `boms` of the XML descriptor.
- The PSD descriptor is a parameter `psd` of the default registrar.

Facts about concrete MIME strings are stated under the hypothesis
`ParsesWithoutParameters(parse, s)` (the parser accepts `s` and finds no
parameters).

Where the code and its documentation disagree, the model follows the code:

- The descriptor interface calls the validator map non-empty, but the CSV
  descriptor passes an empty map. `WellFormed` allows an empty map.
- The registry interface declares a lookup by name, but
  FileFormatRegistry.java does not implement it. `DescriptorOfName` models
  the documented behaviour as a lookup in the name map.
- The test calls a favour-speed validator accessor that no shown file
  defines. `FavourSpeed` and `FavourAccuracy` are an assumption: the
  first-match search over [leading bytes, full parse] and over
  [full parse, leading bytes].

## Model

| member | source | states |
|---|---|---|
| Modes.AllModesComplete | src/main/java/com/helger/phive/binary/EPhiveContentValidationMode.java:37-44 | every mode is one of the two declared values, listed in declaration order |
| Modes.Id | src/main/java/com/helger/phive/binary/EContentDetectionMode.java:37-58 | each mode's ID is a non-empty string ("leading-bytes", "full-parse") |
| Modes.IdsDistinct | src/main/java/com/helger/phive/binary/EPhiveContentValidationMode.java:37-58 | the two IDs differ |
| Modes.FindById | src/main/java/com/helger/phive/binary/EContentDetectionMode.java:60-64 | a found mode is in the list and has the ID; no result means no listed mode has it |
| Modes.FromIdOrNull | src/main/java/com/helger/phive/binary/EPhiveContentValidationMode.java:60-64 | a result carries exactly the given ID; null for a null ID or an ID no mode has |
| Modes.FromIdRoundTrip | src/main/java/com/helger/phive/binary/EPhiveContentValidationMode.java:55-64 | looking up a mode's own ID gives back that mode |
| BinaryHelper.IsLowerCaseIff | src/main/java/com/helger/phive/binary/PhiveBinaryHelper.java:49 | a string equals its lower-case form exactly when it has no upper-case letter |
| BinaryHelper.IsValidFileExtension | src/main/java/com/helger/phive/binary/PhiveBinaryHelper.java:47-50 | valid exactly when present, non-empty, not starting with a dot and equal to its lower-case form |
| BinaryHelper.IsValidMimeType | src/main/java/com/helger/phive/binary/PhiveBinaryHelper.java:60-69 | valid exactly when present, non-empty, lower-case, and the parser accepts it with no parameters |
| Descriptors.NewDescriptor | src/main/java/com/helger/phive/binary/AbstractFileFormatDescriptor.java:49-74 | the constructor's checks as preconditions; the result is well formed, keeps name, extension set, MIME set and validator map, and its short name is the given one if non-empty, else the name |
| Descriptors.FirstSupported | src/main/java/com/helger/phive/binary/AbstractFileFormatDescriptor.java:140-145 | the index of the first listed mode that has a validator; all earlier ones have none |
| Descriptors.FirstMatch | src/main/java/com/helger/phive/binary/IFileFormatDescriptor.java:76-87 | no result exactly when no listed mode has a validator; otherwise the validator of the first listed mode that has one |
| Descriptors.FindContentValidator | src/main/java/com/helger/phive/binary/AbstractFileFormatDescriptor.java:136-147 | null for a null mode array; otherwise the loop's result equals the first-match search |
| Descriptors.FirstMatchReorder | src/main/java/com/helger/phive/binary/AbstractFileFormatDescriptor.java:140-146 | reordering the modes does not change the result when at most one distinct listed mode has a validator |
| Descriptors.FavourSpeedAndAccuracy | src/test/java/com/helger/phive/binary/FileFormatRegistryTest.java:79-80 | favour speed picks leading bytes when present, favour accuracy picks full parse when present; with one validator both pick it; with none both give nothing |
| FormatCsv.Csv | src/main/java/com/helger/phive/binary/impl/FileFormatDescriptorCSV.java:31-38 | the CSV descriptor has no validator |
| FormatCsv.CsvHasNoValidator | src/main/java/com/helger/phive/binary/impl/FileFormatDescriptorCSV.java:37 | no mode list finds a validator for CSV |
| FormatCsv.CsvWellFormed | src/main/java/com/helger/phive/binary/impl/FileFormatDescriptorCSV.java:33-37 | CSV passes the constructor's checks when the parser accepts text/csv |
| FormatCsv.CsvBuiltByConstructor | src/main/java/com/helger/phive/binary/impl/FileFormatDescriptorCSV.java:33-37 | Csv() equals what `NewDescriptor` builds from the source's name, short name, extension list and MIME type list, with its validators |
| FormatGif.Gif | src/main/java/com/helger/phive/binary/impl/FileFormatDescriptorGIF.java:38-56 | only leading bytes is mapped; it accepts exactly data starting with GIF87a or GIF89a, and nothing shorter than 6 bytes |
| FormatGif.GifRejectsOtherVersions | src/main/java/com/helger/phive/binary/impl/FileFormatDescriptorGIF.java:46 | GIF88a is rejected and GIF89a accepted |
| FormatGif.GifWellFormed | src/main/java/com/helger/phive/binary/impl/FileFormatDescriptorGIF.java:50-56 | GIF passes the constructor's checks when the parser accepts image/gif |
| FormatGif.GifBuiltByConstructor | src/main/java/com/helger/phive/binary/impl/FileFormatDescriptorGIF.java:52-56 | Gif() equals what `NewDescriptor` builds from the source's name, short name, extension list and MIME type list, with its validators |
| FormatPdf.Pdf | src/main/java/com/helger/phive/binary/impl/FileFormatDescriptorPDF.java:38-54 | only leading bytes is mapped; it accepts exactly data starting with %PDF, and nothing shorter than 4 bytes |
| FormatPdf.PdfWellFormed | src/main/java/com/helger/phive/binary/impl/FileFormatDescriptorPDF.java:48-54 | PDF passes the constructor's checks when the parser accepts application/pdf |
| FormatPdf.PdfBuiltByConstructor | src/main/java/com/helger/phive/binary/impl/FileFormatDescriptorPDF.java:50-54 | Pdf() equals what `NewDescriptor` builds from the source's name, short name, extension list and MIME type list, with its validators |
| FormatPdf.PdfDetermination | src/test/java/com/helger/phive/binary/FileFormatRegistryTest.java:75-83 | favour speed finds a validator for PDF that accepts "%PDF-1.6blafoo" and rejects "%PdF-1.6blafoo" |
| FormatPng.Png | src/main/java/com/helger/phive/binary/impl/FileFormatDescriptorPNG.java:38-55 | only leading bytes is mapped; it accepts exactly data starting with the 8-byte PNG signature, and nothing shorter |
| FormatPng.PngWellFormed | src/main/java/com/helger/phive/binary/impl/FileFormatDescriptorPNG.java:49-55 | PNG passes the constructor's checks when the parser accepts image/png |
| FormatPng.PngBuiltByConstructor | src/main/java/com/helger/phive/binary/impl/FileFormatDescriptorPNG.java:51-55 | Png() equals what `NewDescriptor` builds from the source's name, short name, extension list and MIME type list, with its validators |
| FormatTiff.Tiff | src/main/java/com/helger/phive/binary/impl/FileFormatDescriptorTIFF.java:38-57 | only leading bytes is mapped; it accepts exactly data starting with II or MM, and nothing shorter than 2 bytes |
| FormatTiff.TiffIgnoresMagicNumber | src/main/java/com/helger/phive/binary/impl/FileFormatDescriptorTIFF.java:46-47 | any bytes after II or MM are accepted: the 42 that follows in a real TIFF header is not checked |
| FormatTiff.TiffWellFormed | src/main/java/com/helger/phive/binary/impl/FileFormatDescriptorTIFF.java:51-57 | TIFF passes the constructor's checks when the parser accepts image/tiff |
| FormatTiff.TiffBuiltByConstructor | src/main/java/com/helger/phive/binary/impl/FileFormatDescriptorTIFF.java:53-57 | Tiff() equals what `NewDescriptor` builds from the source's name, short name, extension list and MIME type list, with its validators |
| FormatXls.Xls | src/main/java/com/helger/phive/binary/impl/FileFormatDescriptorXLS.java:38-55 | only leading bytes is mapped; it accepts exactly data starting with D0 CD 11 E0, and nothing shorter than 4 bytes |
| FormatXls.XlsWellFormed | src/main/java/com/helger/phive/binary/impl/FileFormatDescriptorXLS.java:49-55 | XLS passes the constructor's checks when the parser accepts its MIME type |
| FormatXls.XlsBuiltByConstructor | src/main/java/com/helger/phive/binary/impl/FileFormatDescriptorXLS.java:51-55 | Xls() equals what `NewDescriptor` builds from the source's name, short name, extension list and MIME type list, with its validators |
| FormatXlsx.Xlsx | src/main/java/com/helger/phive/binary/impl/FileFormatDescriptorXLSX.java:38-55 | only leading bytes is mapped; it accepts exactly data starting with the ZIP local header 50 4B 03 04, and nothing shorter than 4 bytes |
| FormatXlsx.XlsxWellFormed | src/main/java/com/helger/phive/binary/impl/FileFormatDescriptorXLSX.java:49-55 | XLSX passes the constructor's checks when the parser accepts its MIME type |
| FormatXlsx.XlsxBuiltByConstructor | src/main/java/com/helger/phive/binary/impl/FileFormatDescriptorXLSX.java:51-55 | Xlsx() equals what `NewDescriptor` builds from the source's name, short name, extension list and MIME type list, with its validators |
| FormatXml.BasePatternsAtLeastFour | src/main/java/com/helger/phive/binary/impl/FileFormatDescriptorXML.java:46-58 | there are 8 base patterns, each at least 4 bytes long |
| FormatXml.PrefixTableLayout | src/main/java/com/helger/phive/binary/impl/FileFormatDescriptorXML.java:40-70 | the table has 8 * (1 + number of BOMs) entries: the 8 bare patterns, then BOM j followed by pattern k at 8 + 8j + k |
| FormatXml.BomPrefixedLayout | src/main/java/com/helger/phive/binary/impl/FileFormatDescriptorXML.java:64-69 | the BOM part of the table: BOM j followed by pattern k at 8j + k |
| FormatXml.PrefixTableMinLength | src/main/java/com/helger/phive/binary/impl/FileFormatDescriptorXML.java:48-58 | every table entry is at least 4 bytes long |
| FormatXml.BuildPrefixTable | src/main/java/com/helger/phive/binary/impl/FileFormatDescriptorXML.java:41-70 | the nested loop builds exactly the table described above |
| FormatXml.MatchesAnyPrefix | src/main/java/com/helger/phive/binary/impl/FileFormatDescriptorXML.java:76-81 | the validator loop returns true exactly when the data starts with some table entry |
| FormatXml.Xml | src/main/java/com/helger/phive/binary/impl/FileFormatDescriptorXML.java:72-92 | only leading bytes is mapped, and it accepts exactly the data starting with some table entry |
| FormatXml.XmlShortDataNeverMatches | src/main/java/com/helger/phive/binary/impl/FileFormatDescriptorXML.java:48-58 | data shorter than 4 bytes is never recognised, whatever the BOMs |
| FormatXml.XmlDeclarationMatches | src/main/java/com/helger/phive/binary/impl/FileFormatDescriptorXML.java:56 | data starting with a UTF-8 "<?xm" matches, bare or behind any BOM |
| FormatXml.XmlWellFormed | src/main/java/com/helger/phive/binary/impl/FileFormatDescriptorXML.java:85-92 | XML passes the constructor's checks when the parser accepts application/xml and text/xml |
| FormatXml.XmlBuiltByConstructor | src/main/java/com/helger/phive/binary/impl/FileFormatDescriptorXML.java:87-91 | Xml(boms) equals what `NewDescriptor` builds from the source's name, short name, extension list and MIME type list, with its validators |
| Registry.RefusalPersists | src/main/java/com/helger/phive/binary/FileFormatRegistry.java:89-111 | a key once taken stays taken, so a refused descriptor stays refused |
| Registry.AfterRegister | src/main/java/com/helger/phive/binary/FileFormatRegistry.java:84-127 | refused (name, an extension or a MIME type taken) leaves the state unchanged; admitted appends the name to the order and maps the name, each extension and each MIME type to the descriptor; old entries are kept; afterwards the descriptor would be refused |
| Registry.AfterRegisterConsistent | src/main/java/com/helger/phive/binary/FileFormatRegistry.java:88-126 | registration preserves the invariant: unique names in order, every map entry points to a registered descriptor that claims the key, every claimed key is indexed |
| Registry.AdmittedOrderListsNames | src/main/java/com/helger/phive/binary/FileFormatRegistry.java:120 | an admitted registration keeps the name order free of duplicates and in step with the name map |
| Registry.AdmittedIndexSound | src/main/java/com/helger/phive/binary/FileFormatRegistry.java:121-124 | after an admitted registration every extension and MIME entry points to a registered descriptor claiming it |
| Registry.AdmittedExtIndexComplete | src/main/java/com/helger/phive/binary/FileFormatRegistry.java:121-122 | after an admitted registration every extension of every registered descriptor is indexed to it |
| Registry.AdmittedMimeIndexComplete | src/main/java/com/helger/phive/binary/FileFormatRegistry.java:123-124 | after an admitted registration every MIME type of every registered descriptor is indexed to it |
| Registry.KeysAreUnique | src/main/java/com/helger/phive/binary/IFileFormatDescriptor.java:43-48 | in a consistent registry two registered descriptors share no extension and no MIME type |
| Registry.RegisteredKeysFindIt | src/main/java/com/helger/phive/binary/IFileFormatRegistry.java:67-87 | in a consistent registry each extension and MIME type of a registered descriptor finds that descriptor |
| Registry.AfterRegisterAllConsistent | src/main/java/com/helger/phive/binary/FileFormatRegistry.java:158-173 | any sequence of registrations preserves the invariant |
| Registry.AfterRegisterAllExtends | src/main/java/com/helger/phive/binary/FileFormatRegistry.java:119-124 | a sequence of registrations keeps every existing entry and extends the name order |
| Registry.AfterRegisterAllAppend | src/main/java/com/helger/phive/binary/FileFormatRegistry.java:167-172 | registering a + b is registering a, then b |
| Registry.AfterRegisterAllRefusesAll | src/main/java/com/helger/phive/binary/FileFormatRegistry.java:89-111 | after a sequence of registrations each of its descriptors would be refused |
| Registry.AllRefusedIsNoOp | src/main/java/com/helger/phive/binary/FileFormatRegistry.java:91-111 | registrations that are all refused change nothing |
| Registry.ReplayIsNoOp | src/main/java/com/helger/phive/binary/FileFormatRegistry.java:84-127 | replaying registrations on the state they produced changes nothing |
| Registry.AllAdmittedOrder | src/main/java/com/helger/phive/binary/FileFormatRegistry.java:59 | when every registration of a sequence succeeds, the name order grows by their names in call order |
| Registry.IndexedKeysComeFrom | src/main/java/com/helger/phive/binary/FileFormatRegistry.java:119-124 | registrations index no name, extension or MIME type that none of their descriptors claims |
| Registry.AdmittedAfterCompatible | src/main/java/com/helger/phive/binary/FileFormatRegistry.java:89-111 | a descriptor that shares no key with any of a sequence is still admitted after it |
| Registry.CompatibleRegistersAll | src/main/java/com/helger/phive/binary/FileFormatRegistry.java:89-125 | registering pairwise key-disjoint descriptors that are each admitted by the start state succeeds for every one: their names are appended in order and each is registered |
| Registry.ExtendsKeepsRegistrations | src/main/java/com/helger/phive/binary/FileFormatRegistry.java:119-124 | a later state keeps the earlier name order as a prefix and every registration that was in force |
| Registry.AfterRegisterAllPrefix | src/main/java/com/helger/phive/binary/FileFormatRegistry.java:119-124 | the state after a whole sequence of registrations keeps every entry made by any prefix of it |
| Registry.CompatibleAllAdmitted | src/main/java/com/helger/phive/binary/FileFormatRegistry.java:89-125 | pairwise key-disjoint descriptors, each admitted at the start, are all admitted in turn |
| Registry.AllAdmittedRegistersAll | src/main/java/com/helger/phive/binary/FileFormatRegistry.java:120-124 | when all registrations succeed, each descriptor ends up registered under its name |
| Registry.ReinitializedConsistent | src/main/java/com/helger/phive/binary/FileFormatRegistry.java:158-173 | the state after reinitialisation satisfies the invariant |
| Registry.SizeIsOrderLength | src/main/java/com/helger/phive/binary/FileFormatRegistry.java:152-156 | in a consistent registry the name map's size is the length of the name order |
| Registry.NoneTaken | src/main/java/com/helger/phive/binary/FileFormatRegistry.java:98-111 | the check loop succeeds exactly when none of the keys is taken |
| Registry.FileFormatRegistry.constructor | src/main/java/com/helger/phive/binary/FileFormatRegistry.java:65-68 | a new registry holds the reinitialised state and satisfies the invariant |
| Registry.FileFormatRegistry.Register | src/main/java/com/helger/phive/binary/FileFormatRegistry.java:84-127 | SUCCESS exactly when the old state admits the descriptor; the new state is AfterRegister of the old; the invariant is preserved |
| Registry.FileFormatRegistry.RegisterAll | src/main/java/com/helger/phive/binary/impl/FileFormatRegistrarDefaultSPI.java:33-43 | one registrar's registrations in order, outcomes ignored: the new state is AfterRegisterAll of the old, and a consistent registry stays consistent |
| Registry.FileFormatRegistry.Reinitialize | src/main/java/com/helger/phive/binary/FileFormatRegistry.java:158-185 | clears all maps, then applies every registrar in order; the resulting state depends on the registrars only, so reinitialising twice gives the same state; the invariant holds |
| Registry.FileFormatRegistry.DescriptorOfName | src/main/java/com/helger/phive/binary/IFileFormatRegistry.java:55-65 | found exactly when the name is registered; the result carries that name and is the registered descriptor |
| Registry.FileFormatRegistry.DescriptorByFileExtension | src/main/java/com/helger/phive/binary/FileFormatRegistry.java:136-142 | an invalid extension finds nothing; a result claims the extension and is registered; a registered descriptor claiming a valid extension is what it finds |
| Registry.FileFormatRegistry.DescriptorByMimeType | src/main/java/com/helger/phive/binary/FileFormatRegistry.java:144-150 | an invalid MIME type finds nothing; a result claims the MIME type and is registered; a registered descriptor claiming a valid MIME type is what it finds |
| Registry.FileFormatRegistry.DescriptorByMimeTypeObject | src/main/java/com/helger/phive/binary/IFileFormatRegistry.java:97-101 | null for a null MIME type, otherwise the string lookup of its text without parameters |
| Registry.FileFormatRegistry.Count | src/main/java/com/helger/phive/binary/FileFormatRegistry.java:152-156 | the number of descriptors equals the length of the name order |
| Registry.FileFormatRegistry.AllDescriptors | src/main/java/com/helger/phive/binary/FileFormatRegistry.java:129-134 | every registered descriptor with its name, once each, in registration order |
| DefaultRegistrar.DefaultDescriptors | src/main/java/com/helger/phive/binary/impl/FileFormatRegistrarDefaultSPI.java:35-42 | eight descriptors, PSD fifth |
| DefaultRegistrar.RegisterFileFormats | src/main/java/com/helger/phive/binary/impl/FileFormatRegistrarDefaultSPI.java:33-43 | the eight registrations in call order, outcomes ignored; a consistent registry stays consistent |
| DefaultRegistrar.Fixed | src/main/java/com/helger/phive/binary/impl/FileFormatRegistrarDefaultSPI.java:35-42 | the seven built-in descriptors other than PSD |
| DefaultRegistrar.DefaultState | src/main/java/com/helger/phive/binary/FileFormatRegistry.java:158-173 | reinitialising with the default registrar alone registers its descriptors from an empty registry |
| DefaultRegistrar.FixedNamesDistinct | src/main/java/com/helger/phive/binary/impl/FileFormatRegistrarDefaultSPI.java:35-42 | the seven built-in descriptors have distinct names |
| DefaultRegistrar.FixedMimeTypesDisjoint | src/main/java/com/helger/phive/binary/impl/FileFormatRegistrarDefaultSPI.java:35-42 | the seven built-in descriptors have disjoint MIME types |
| DefaultRegistrar.FixedExtensionsDisjoint | src/main/java/com/helger/phive/binary/impl/FileFormatRegistrarDefaultSPI.java:35-42 | the seven built-in descriptors have disjoint extensions |
| DefaultRegistrar.FixedCompatible | src/main/java/com/helger/phive/binary/impl/FileFormatRegistrarDefaultSPI.java:35-42 | the seven built-in descriptors share no key |
| DefaultRegistrar.CompatiblePrefixRegistered | src/main/java/com/helger/phive/binary/impl/FileFormatRegistrarDefaultSPI.java:35-42 | the first k registrations, if pairwise key-disjoint, all succeed and come first in the name order, whatever follows |
| DefaultRegistrar.DefaultRegistersLeadingFormats | src/main/java/com/helger/phive/binary/impl/FileFormatRegistrarDefaultSPI.java:35-38 | whatever PSD claims, CSV, GIF, PDF and PNG are registered first and the registry is consistent |
| DefaultRegistrar.DefaultFindsCsvAndPdf | src/test/java/com/helger/phive/binary/FileFormatRegistryTest.java:55-70 | whatever PSD claims, csv and text/csv index CSV and pdf and application/pdf index PDF |
| DefaultRegistrar.DefaultRegistersNoXml | src/main/java/com/helger/phive/binary/impl/FileFormatRegistrarDefaultSPI.java:35-42 | xml, application/xml and text/xml are indexed only if PSD claims them |
| DefaultRegistrar.DefaultRegistersAllWhenNoClash | src/main/java/com/helger/phive/binary/impl/FileFormatRegistrarDefaultSPI.java:35-42 | if PSD shares no key with the others, all eight are registered and the name order is the call order |
| DefaultRegistrar.DefaultFindsTiffWhenNoClash | src/main/java/com/helger/phive/binary/impl/FileFormatDescriptorTIFF.java:55 | then both tif and tiff index TIFF |
| DefaultRegistrar.DefaultLookupsThatFindNothing | src/test/java/com/helger/phive/binary/FileFormatRegistryTest.java:44-51 | aaa, "", null, application/xyz, "application/pdf; x=y", "" and null find nothing in a default registry |
| DefaultRegistrar.DefaultLookupsThatFind | src/test/java/com/helger/phive/binary/FileFormatRegistryTest.java:55-70 | csv and pdf, and the text/csv and application/pdf MIME type objects, find CSV and PDF |
| DefaultRegistrar.DefaultListsCsvAndPdf | src/test/java/com/helger/phive/binary/FileFormatRegistryTest.java:58-67 | the list of all descriptors of a default registry contains CSV and PDF |
| DefaultRegistrar.DefaultPdfDetermination | src/test/java/com/helger/phive/binary/FileFormatRegistryTest.java:72-84 | the favour-speed validator of the descriptor found for application/pdf accepts "%PDF-1.6blafoo" and rejects "%PdF-1.6blafoo" |

Helpers have no row: `BinaryHelper.NoUpperCaseConcat`, `Registry.Names`,
`Registry.ExtendsTransitive`, `Registry.NoDuplicatesCardinality`,
`DefaultRegistrar.InsertCompatible` and `FormatXml.WithBom` are proof or
definition helpers. `Registry.FileFormatRegistry.IndexExtensions` and
`Registry.FileFormatRegistry.IndexMimeTypes` are the two indexing loops of
`registerFileFormat`, taken out of `Register` as methods of their own.

## Left out

- Thread safety: the read-write lock and the `@ThreadSafe` contract. Each method is one atomic step on a sequential object.
- The singleton holder, `getInstance` and the `s_bDefaultInstantiated` flag. These are global state; the model creates registries explicitly.
- Service loading of registrars. Registrars are a `seq` of descriptor batches passed to the constructor and to `Reinitialize`; a registrar other than the default one is assumed to do nothing but register descriptors.
- Logging and `toString`. They have no behaviour to verify.
- The order in which a failed registration checks its keys and reports the first taken one. The outcome carries no reason, so only the check order name, extensions, MIME types is kept; within a set the order is unspecified (`:|`), as Java hash-set iteration order is.
- `getAllContentValidators`, `getAllAllowedFileExtensions` and `getAllAllowedMimeTypes` return copies. Dafny values are immutable, so the copy is the field itself.
- `ValueEnforcer.isEnabled()`: the constructor checks are always on, as preconditions of `NewDescriptor`. A null validator value cannot occur in the model.
- FULL_PARSE validators: none exist in the code, so FULL_PARSE is only a mode value.
- The MIME type parser (`MimeTypeParser`) and the `CMimeType` constants. The parser is a parameter; the constants are written as their standard strings.
- The Unicode byte order marks (`EUnicodeBOM`). They are the parameter `boms` of the XML descriptor.
- The PSD descriptor. Its class is not part of this model; it is the parameter `psd`.
- `ArrayHelper.startsWith` and `getConcatenated`: `StartsWith` and sequence concatenation are defined here.
- BinaryHelper.IsValidFileExtension: lower-casing is ASCII only, not the full Unicode mapping of `Locale.ROOT`.
- BinaryHelper.IsValidMimeType: lower-casing is ASCII only, not the full Unicode mapping of `Locale.ROOT`; parsing is the abstract parser.
- Registry.FileFormatRegistry.Count: the Java `int` cannot overflow in practice and is an unbounded `nat` here.
- Descriptors.FavourSpeedAndAccuracy: the favour-speed and favour-accuracy accessors are defined in no shown file; they are modelled as the first-match search over the two orders.
- Descriptors.FindContentValidator: a `null` element of the mode array is skipped in the source (the validator map has no entry for it); a `seq<Mode>` has no null elements, so this path is not modelled.
- Registry.FileFormatRegistry.Register: the source throws on a `null` descriptor; a `Descriptor` value is never null, so this error path is not modelled.
