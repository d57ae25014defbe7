/**
 * The default registrar, which registers the built-in formats in a fixed
 * order, and what a registry initialised by it alone holds.
 *
 * The PSD descriptor is not part of this model; it is a parameter `psd`.
 */
module DefaultRegistrar {

  import opened Options
  import opened Bytes
  import opened BinaryHelper
  import opened Descriptors
  import opened Registry
  import FormatCsv
  import FormatGif
  import FormatPdf
  import FormatPng
  import FormatTiff
  import FormatXls
  import FormatXlsx

  /** The descriptors the default registrar registers, in call order. */
  function DefaultDescriptors(psd: Descriptor): (ds: seq<Descriptor>)
    ensures |ds| == 8 && ds[4] == psd
  {
    [FormatCsv.Csv(), FormatGif.Gif(), FormatPdf.Pdf(), FormatPng.Png(), psd,
     FormatTiff.Tiff(), FormatXls.Xls(), FormatXlsx.Xlsx()]
  }

  /** Registers each default descriptor once, in order, ignoring the outcomes. */
  method RegisterFileFormats(registry: FileFormatRegistry, psd: Descriptor)
    modifies registry
    ensures registry.State() == AfterRegisterAll(old(registry.State()), DefaultDescriptors(psd))
    ensures old(registry.Valid()) ==> registry.Valid()
  {
    registry.RegisterAll(DefaultDescriptors(psd));
  }

  /** The seven built-in descriptors other than PSD, in call order. */
  function Fixed(): (ds: seq<Descriptor>)
    ensures |ds| == 7
  {
    [FormatCsv.Csv(), FormatGif.Gif(), FormatPdf.Pdf(), FormatPng.Png(),
     FormatTiff.Tiff(), FormatXls.Xls(), FormatXlsx.Xlsx()]
  }

  /** The state of a registry whose only registrar is the default one. */
  function DefaultState(psd: Descriptor): (st: RegistryState)
    ensures st == AfterRegisterAll(EmptyState, DefaultDescriptors(psd))
  {
    var batches: seq<seq<Descriptor>> := [DefaultDescriptors(psd)];
    assert batches[..0] == [];
    assert Concat(batches) == DefaultDescriptors(psd);
    Reinitialized(batches)
  }

  lemma FixedNamesDistinct()
    ensures forall i, j :: 0 <= i < j < 7 ==> Fixed()[i].name != Fixed()[j].name
  {
    var ds := Fixed();
    assert ds[2].name[9] != ds[3].name[9];
    assert |ds[5].name| != |ds[6].name|;
    forall i, j | 0 <= i < j < 7
      ensures ds[i].name != ds[j].name
    {
      if !(i == 2 && j == 3) && !(i == 5 && j == 6) && i != 4 && j != 4 {
        assert ds[i].name[0] != ds[j].name[0];
      }
    }
  }

  lemma FixedExtensionsDisjoint()
    ensures forall i, j :: 0 <= i < j < 7 ==> Fixed()[i].extensions !! Fixed()[j].extensions
  {
  }

  lemma FixedMimeTypesDisjoint()
    ensures forall i, j :: 0 <= i < j < 7 ==> Fixed()[i].mimeTypes !! Fixed()[j].mimeTypes
  {
    var ds := Fixed();
    forall i, j | 0 <= i < j < 7
      ensures ds[i].mimeTypes !! ds[j].mimeTypes
    {
      var mi :| ds[i].mimeTypes == {mi};
      var mj :| ds[j].mimeTypes == {mj};
      if i == 1 && j == 3 {
        assert mi[6] != mj[6];
      } else {
        assert |mi| != |mj|;
      }
    }
  }

  /** The seven built-in descriptors share no name, extension or MIME type. */
  lemma FixedCompatible()
    ensures PairwiseCompatible(Fixed())
  {
    FixedNamesDistinct();
    FixedExtensionsDisjoint();
    FixedMimeTypesDisjoint();
  }

  /** A PSD descriptor that shares no name, extension or MIME type with any other default descriptor. */
  predicate ClashesWithNone(psd: Descriptor)
  {
    forall i :: 0 <= i < |Fixed()| ==> Compatible(psd, Fixed()[i])
  }

  /**
   * Registrations whose first `k` descriptors are pairwise compatible
   * register those `k`, first and in order, whatever follows them.
   */
  lemma CompatiblePrefixRegistered(ds: seq<Descriptor>, k: nat)
    requires k <= |ds| && PairwiseCompatible(ds[..k])
    ensures |AfterRegisterAll(EmptyState, ds).order| >= k
    ensures AfterRegisterAll(EmptyState, ds).order[..k] == Names(ds[..k])
    ensures forall i :: 0 <= i < k ==> Registered(AfterRegisterAll(EmptyState, ds), ds[i])
  {
    var lead := ds[..k];
    CompatibleRegistersAll(EmptyState, lead);
    AfterRegisterAllPrefix(EmptyState, ds, k);
    ExtendsKeepsRegistrations(AfterRegisterAll(EmptyState, lead), AfterRegisterAll(EmptyState, ds), lead);
    assert forall i :: 0 <= i < k ==> lead[i] == ds[i];
  }

  /**
   * Whatever PSD claims, the default registrar registers CSV, GIF, PDF and
   * PNG first, so csv, pdf, text/csv and application/pdf find CSV and PDF.
   */
  lemma DefaultRegistersLeadingFormats(psd: Descriptor)
    ensures Consistent(DefaultState(psd))
    ensures |DefaultState(psd).order| >= 4 && DefaultState(psd).order[..4] == Names(Fixed()[..4])
    ensures forall i :: 0 <= i < 4 ==> Registered(DefaultState(psd), Fixed()[i])
  {
    var ds := DefaultDescriptors(psd);
    var st := DefaultState(psd);
    assert ds[..4] == Fixed()[..4];
    FixedCompatible();
    assert PairwiseCompatible(ds[..4]);
    CompatiblePrefixRegistered(ds, 4);
    AfterRegisterAllConsistent(EmptyState, ds);
  }

  /** So csv and text/csv find CSV, and pdf and application/pdf find PDF, whatever PSD claims. */
  lemma DefaultFindsCsvAndPdf(psd: Descriptor)
    ensures "csv" in DefaultState(psd).byExt && DefaultState(psd).byExt["csv"] == FormatCsv.Csv()
    ensures "pdf" in DefaultState(psd).byExt && DefaultState(psd).byExt["pdf"] == FormatPdf.Pdf()
    ensures FormatCsv.CSV_MIME_TYPE in DefaultState(psd).byMime && DefaultState(psd).byMime[FormatCsv.CSV_MIME_TYPE] == FormatCsv.Csv()
    ensures FormatPdf.PDF_MIME_TYPE in DefaultState(psd).byMime && DefaultState(psd).byMime[FormatPdf.PDF_MIME_TYPE] == FormatPdf.Pdf()
  {
    var st := DefaultState(psd);
    DefaultRegistersLeadingFormats(psd);
    var csv := Fixed()[0];
    var pdf := Fixed()[2];
    assert Registered(st, csv) && Registered(st, pdf);
    RegisteredKeysFindIt(st, csv);
    RegisteredKeysFindIt(st, pdf);
  }

  /**
   * The default registrar indexes no XML extension or MIME type of its own:
   * those keys are present only when PSD claims them.
   */
  lemma DefaultRegistersNoXml(psd: Descriptor)
    ensures "xml" in DefaultState(psd).byExt ==> "xml" in psd.extensions
    ensures "application/xml" in DefaultState(psd).byMime ==> "application/xml" in psd.mimeTypes
    ensures "text/xml" in DefaultState(psd).byMime ==> "text/xml" in psd.mimeTypes
  {
    var ds := DefaultDescriptors(psd);
    IndexedKeysComeFrom(EmptyState, ds);
    forall i | 0 <= i < 8 && i != 4
      ensures "xml" !in ds[i].extensions
      ensures "application/xml" !in ds[i].mimeTypes && "text/xml" !in ds[i].mimeTypes
    {
    }
  }

  /** Proof helper: inserting a descriptor compatible with each of a pairwise compatible sequence keeps it pairwise compatible. */
  lemma InsertCompatible(ds: seq<Descriptor>, k: nat, d: Descriptor)
    requires k <= |ds| && PairwiseCompatible(ds)
    requires forall i :: 0 <= i < |ds| ==> Compatible(d, ds[i])
    ensures PairwiseCompatible(ds[..k] + [d] + ds[k..])
  {
    var r := ds[..k] + [d] + ds[k..];
    forall i, j | 0 <= i < j < |r|
      ensures Compatible(r[i], r[j])
    {
      if i < k && j > k {
        assert r[i] == ds[i] && r[j] == ds[j - 1];
      }
    }
  }

  /**
   * When PSD clashes with nothing, all eight registrations succeed: the
   * registry lists the eight names in call order.
   */
  lemma DefaultRegistersAllWhenNoClash(psd: Descriptor)
    requires ClashesWithNone(psd)
    ensures DefaultState(psd).order == Names(DefaultDescriptors(psd))
    ensures forall i :: 0 <= i < 8 ==> Registered(DefaultState(psd), DefaultDescriptors(psd)[i])
  {
    var ds := DefaultDescriptors(psd);
    FixedCompatible();
    assert ds == Fixed()[..4] + [psd] + Fixed()[4..];
    InsertCompatible(Fixed(), 4, psd);
    CompatibleRegistersAll(EmptyState, ds);
  }

  /** Then both tif and tiff find TIFF. */
  lemma DefaultFindsTiffWhenNoClash(psd: Descriptor)
    requires ClashesWithNone(psd)
    ensures "tif" in DefaultState(psd).byExt && DefaultState(psd).byExt["tif"] == FormatTiff.Tiff()
    ensures "tiff" in DefaultState(psd).byExt && DefaultState(psd).byExt["tiff"] == FormatTiff.Tiff()
  {
    var st := DefaultState(psd);
    DefaultRegistersAllWhenNoClash(psd);
    DefaultRegistersLeadingFormats(psd);
    var tiff := DefaultDescriptors(psd)[5];
    assert Registered(st, tiff);
    RegisteredKeysFindIt(st, tiff);
  }

  /**
   * Lookups that find nothing in a default registry: an unknown extension,
   * an empty or missing extension, an unknown MIME type, a MIME type with
   * parameters, an empty or missing MIME type, a missing MIME type object.
   * The unknown keys must not be claimed by PSD either.
   */
  lemma DefaultLookupsThatFindNothing(reg: FileFormatRegistry, psd: Descriptor)
    requires reg.State() == DefaultState(psd)
    requires "aaa" !in psd.extensions && "application/xyz" !in psd.mimeTypes
    requires !ParsesWithoutParameters(reg.parse, "application/pdf; x=y")
    ensures reg.DescriptorByFileExtension(Some("aaa")).None?
    ensures reg.DescriptorByFileExtension(Some("")).None?
    ensures reg.DescriptorByFileExtension(None).None?
    ensures reg.DescriptorByMimeType(Some("application/xyz")).None?
    ensures reg.DescriptorByMimeType(Some("application/pdf; x=y")).None?
    ensures reg.DescriptorByMimeType(Some("")).None?
    ensures reg.DescriptorByMimeType(None).None?
    ensures reg.DescriptorByMimeTypeObject(None).None?
  {
    var ds := DefaultDescriptors(psd);
    IndexedKeysComeFrom(EmptyState, ds);
    forall i | 0 <= i < 8 && i != 4
      ensures "aaa" !in ds[i].extensions && "application/xyz" !in ds[i].mimeTypes
    {
    }
  }

  /**
   * In a default registry CSV and PDF are found by extension and by MIME type
   * object, given a parser that accepts their MIME types.
   */
  lemma DefaultLookupsThatFind(reg: FileFormatRegistry, psd: Descriptor)
    requires reg.State() == DefaultState(psd)
    requires ParsesWithoutParameters(reg.parse, FormatCsv.CSV_MIME_TYPE)
    requires ParsesWithoutParameters(reg.parse, FormatPdf.PDF_MIME_TYPE)
    ensures reg.DescriptorByFileExtension(Some("csv")) == Some(FormatCsv.Csv())
    ensures reg.DescriptorByFileExtension(Some("pdf")) == Some(FormatPdf.Pdf())
    ensures reg.DescriptorByMimeTypeObject(Some(MimeType("text", "csv", []))) == Some(FormatCsv.Csv())
    ensures reg.DescriptorByMimeTypeObject(Some(MimeType("application", "pdf", []))) == Some(FormatPdf.Pdf())
  {
    DefaultFindsCsvAndPdf(psd);
    assert AsStringWithoutParameters(MimeType("text", "csv", [])) == FormatCsv.CSV_MIME_TYPE;
    assert AsStringWithoutParameters(MimeType("application", "pdf", [])) == FormatPdf.PDF_MIME_TYPE;
  }

  /** A default registry lists CSV and PDF among all its descriptors. */
  lemma DefaultListsCsvAndPdf(reg: FileFormatRegistry, psd: Descriptor)
    requires reg.State() == DefaultState(psd)
    ensures reg.Valid()
    ensures exists i :: 0 <= i < |reg.AllDescriptors()| && reg.AllDescriptors()[i].1 == FormatCsv.Csv()
    ensures exists i :: 0 <= i < |reg.AllDescriptors()| && reg.AllDescriptors()[i].1 == FormatPdf.Pdf()
  {
    DefaultRegistersLeadingFormats(psd);
    var csv := Fixed()[0];
    var pdf := Fixed()[2];
    var all := reg.AllDescriptors();
    assert csv.name in reg.nameMap && reg.nameMap[csv.name] == csv;
    var i :| 0 <= i < |all| && all[i] == (csv.name, csv);
    assert pdf.name in reg.nameMap && reg.nameMap[pdf.name] == pdf;
    var j :| 0 <= j < |all| && all[j] == (pdf.name, pdf);
  }

  /**
   * The favour-speed validator of the descriptor found for application/pdf
   * accepts a PDF header and rejects one with a lower-case letter.
   */
  lemma DefaultPdfDetermination(reg: FileFormatRegistry, psd: Descriptor)
    requires reg.State() == DefaultState(psd)
    requires ParsesWithoutParameters(reg.parse, FormatPdf.PDF_MIME_TYPE)
    ensures reg.DescriptorByMimeTypeObject(Some(MimeType("application", "pdf", []))).Some?
    ensures FavourSpeed(reg.DescriptorByMimeTypeObject(Some(MimeType("application", "pdf", []))).value).Some?
    ensures FavourSpeed(reg.DescriptorByMimeTypeObject(Some(MimeType("application", "pdf", []))).value).value(Latin1("%PDF-1.6blafoo"))
    ensures !FavourSpeed(reg.DescriptorByMimeTypeObject(Some(MimeType("application", "pdf", []))).value).value(Latin1("%PdF-1.6blafoo"))
  {
    DefaultFindsCsvAndPdf(psd);
    assert AsStringWithoutParameters(MimeType("application", "pdf", [])) == FormatPdf.PDF_MIME_TYPE;
    assert reg.DescriptorByMimeTypeObject(Some(MimeType("application", "pdf", []))) == Some(FormatPdf.Pdf());
    FormatPdf.PdfDetermination();
  }
}
