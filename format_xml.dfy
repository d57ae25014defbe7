/**
 * The XML descriptor. Its leading-bytes validator accepts data that starts
 * with one of the encoding-detection patterns of Appendix F.1 of XML 1.0,
 * either bare or behind one of the Unicode byte order marks.
 */
module FormatXml {

  import opened Options
  import opened Bytes
  import opened Modes
  import opened BinaryHelper
  import opened Descriptors

  /** The first bytes of `<?` (or `<?xm`) in each encoding family of Appendix F.1 of XML 1.0. */
  const BASE_PATTERNS: seq<seq<bv8>> := [
    // UCS-4, byte orders 1234, 2143, 3412 and 4321
    [0x3C, 0x00, 0x00, 0x00, 0x3F, 0x00, 0x00, 0x00],
    [0x00, 0x3C, 0x00, 0x00, 0x00, 0x3F, 0x00, 0x00],
    [0x00, 0x00, 0x3C, 0x00, 0x00, 0x00, 0x3F, 0x00],
    [0x00, 0x00, 0x00, 0x3C, 0x00, 0x00, 0x00, 0x3F],
    // UTF-16, big and little endian
    [0x00, 0x3C, 0x00, 0x3F],
    [0x3C, 0x00, 0x3F, 0x00],
    // UTF-8, ISO-8859-x, ASCII and other 8-bit encodings
    [0x3C, 0x3F, 0x78, 0x6D],
    // EBCDIC
    [0x4C, 0x6F, 0xA7, 0x94]
  ]

  lemma BasePatternsAtLeastFour()
    ensures |BASE_PATTERNS| == 8
    ensures forall k :: 0 <= k < 8 ==> |BASE_PATTERNS[k]| >= 4
  {
  }

  /** Helper of `PrefixTable`: `bom` followed by each base pattern, in the base patterns' order. */
  function WithBom(bom: seq<bv8>): (r: seq<seq<bv8>>)
    ensures |r| == 8
    ensures forall k :: 0 <= k < 8 ==> r[k] == bom + BASE_PATTERNS[k]
  {
    seq(8, k requires 0 <= k < 8 => bom + BASE_PATTERNS[k])
  }

  /** The patterns behind each BOM in turn, in the order of `boms`. */
  function BomPrefixed(boms: seq<seq<bv8>>): seq<seq<bv8>>
  {
    if boms == [] then [] else BomPrefixed(boms[..|boms| - 1]) + WithBom(boms[|boms| - 1])
  }

  /** The prefix table: the bare patterns first, then the patterns behind each BOM. */
  function PrefixTable(boms: seq<seq<bv8>>): seq<seq<bv8>>
  {
    BASE_PATTERNS + BomPrefixed(boms)
  }

  /**
   * The table has 8 * (1 + |boms|) entries: entry k < 8 is base pattern k,
   * and entry 8 + 8 * j + k is BOM j followed by base pattern k.
   */
  lemma {:induction false} PrefixTableLayout(boms: seq<seq<bv8>>)
    ensures |PrefixTable(boms)| == 8 * (1 + |boms|)
    ensures forall k :: 0 <= k < 8 ==> PrefixTable(boms)[k] == BASE_PATTERNS[k]
    ensures forall i :: 8 <= i < |PrefixTable(boms)| ==>
              PrefixTable(boms)[i] == boms[(i - 8) / 8] + BASE_PATTERNS[(i - 8) % 8]
  {
    BomPrefixedLayout(boms);
  }

  lemma {:induction false} BomPrefixedLayout(boms: seq<seq<bv8>>)
    ensures |BomPrefixed(boms)| == 8 * |boms|
    ensures forall i :: 0 <= i < |BomPrefixed(boms)| ==> BomPrefixed(boms)[i] == boms[i / 8] + BASE_PATTERNS[i % 8]
  {
    if boms != [] {
      var init := boms[..|boms| - 1];
      BomPrefixedLayout(init);
      var r := BomPrefixed(boms);
      assert r == BomPrefixed(init) + WithBom(boms[|boms| - 1]);
      forall i | 0 <= i < |r|
        ensures r[i] == boms[i / 8] + BASE_PATTERNS[i % 8]
      {
        if i < 8 * |init| {
          assert r[i] == BomPrefixed(init)[i];
          assert init[i / 8] == boms[i / 8];
        } else {
          assert i / 8 == |init|;
          assert r[i] == WithBom(boms[|boms| - 1])[i - 8 * |init|];
        }
      }
    }
  }

  /** No entry of the table is shorter than four bytes. */
  lemma PrefixTableMinLength(boms: seq<seq<bv8>>)
    ensures forall i :: 0 <= i < |PrefixTable(boms)| ==> |PrefixTable(boms)[i]| >= 4
  {
    PrefixTableLayout(boms);
    BasePatternsAtLeastFour();
    var t := PrefixTable(boms);
    forall i | 0 <= i < |t|
      ensures |t[i]| >= 4
    {
      if i >= 8 {
        assert |t[i]| >= |BASE_PATTERNS[(i - 8) % 8]|;
      }
    }
  }

  /**
   * The static initialisation of the table: all bare patterns, then, for
   * each BOM in turn, the BOM concatenated with each base pattern.
   */
  method BuildPrefixTable(boms: seq<seq<bv8>>) returns (prefixes: seq<seq<bv8>>)
    ensures prefixes == PrefixTable(boms)
  {
    prefixes := BASE_PATTERNS;
    for j := 0 to |boms|
      invariant prefixes == BASE_PATTERNS + BomPrefixed(boms[..j])
    {
      for k := 0 to 8
        invariant prefixes == BASE_PATTERNS + BomPrefixed(boms[..j]) + WithBom(boms[j])[..k]
      {
        prefixes := prefixes + [boms[j] + BASE_PATTERNS[k]];
        assert WithBom(boms[j])[..k + 1] == WithBom(boms[j])[..k] + [boms[j] + BASE_PATTERNS[k]];
      }
      assert boms[..j + 1][..j] == boms[..j];
      assert WithBom(boms[j])[..8] == WithBom(boms[j]);
    }
    assert boms[..|boms|] == boms;
  }

  /** The validator's loop: true at the first prefix the data starts with, false after the last. */
  method MatchesAnyPrefix(prefixes: seq<seq<bv8>>, data: seq<bv8>) returns (matched: bool)
    ensures matched <==> StartsWithAny(data, prefixes)
  {
    for i := 0 to |prefixes|
      invariant forall j :: 0 <= j < i ==> !StartsWith(data, prefixes[j])
    {
      if StartsWith(data, prefixes[i]) {
        return true;
      }
    }
    return false;
  }

  const XML_MIME_TYPES := {"application/xml", "text/xml"}

  /** Name and short name "XML", extension xml, MIME types application/xml and text/xml. */
  function Xml(boms: seq<seq<bv8>>): (d: Descriptor)
    ensures d.validators.Keys == {LeadingBytes}
    ensures forall data :: d.validators[LeadingBytes](data) <==> StartsWithAny(data, PrefixTable(boms))
  {
    Descriptor("XML", "XML", {"xml"}, XML_MIME_TYPES,
               map[LeadingBytes := data => StartsWithAny(data, PrefixTable(boms))])
  }

  /** Data shorter than four bytes is never recognised as XML, whatever the BOMs. */
  lemma XmlShortDataNeverMatches(boms: seq<seq<bv8>>, data: seq<bv8>)
    requires |data| < 4
    ensures !Xml(boms).validators[LeadingBytes](data)
  {
    PrefixTableMinLength(boms);
  }

  /** An XML declaration in UTF-8 matches, bare or behind any of the BOMs. */
  lemma XmlDeclarationMatches(boms: seq<seq<bv8>>, j: nat, rest: seq<bv8>)
    requires j < |boms|
    ensures Xml(boms).validators[LeadingBytes](BASE_PATTERNS[6] + rest)
    ensures Xml(boms).validators[LeadingBytes](boms[j] + BASE_PATTERNS[6] + rest)
  {
    PrefixTableLayout(boms);
    var t := PrefixTable(boms);
    var bare := BASE_PATTERNS[6] + rest;
    assert bare[..4] == BASE_PATTERNS[6];
    assert StartsWith(bare, t[6]);
    var i := 8 + 8 * j + 6;
    assert t[i] == boms[j] + BASE_PATTERNS[6];
    var behind := boms[j] + BASE_PATTERNS[6] + rest;
    assert behind[..|t[i]|] == t[i];
    assert StartsWith(behind, t[i]);
  }

  lemma XmlWellFormed(parse: MimeTypeParser)
    requires ParsesWithoutParameters(parse, "application/xml")
    requires ParsesWithoutParameters(parse, "text/xml")
    ensures forall boms :: WellFormed(Xml(boms), parse)
  {
  }

  /** The descriptor is what the descriptor constructor builds from the source's arguments. */
  lemma XmlBuiltByConstructor(parse: MimeTypeParser, boms: seq<seq<bv8>>)
    requires ParsesWithoutParameters(parse, "application/xml")
    requires ParsesWithoutParameters(parse, "text/xml")
    ensures Xml(boms) == NewDescriptor("XML", Some("XML"), ["xml"], ["application/xml", "text/xml"], Xml(boms).validators, parse)
  {
    XmlWellFormed(parse);
  }
}
