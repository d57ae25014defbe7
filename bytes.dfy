/**
 * Byte strings and the one prefix test shared by every leading-bytes
 * content validator of the built-in file formats.
 */
module Bytes {

  /** True when `data` begins with `prefix`; a prefix longer than the data never matches. */
  predicate StartsWith(data: seq<bv8>, prefix: seq<bv8>)
  {
    |prefix| <= |data| && data[..|prefix|] == prefix
  }

  /** True when `data` begins with at least one of `prefixes`. */
  predicate StartsWithAny(data: seq<bv8>, prefixes: seq<seq<bv8>>)
  {
    exists i :: 0 <= i < |prefixes| && StartsWith(data, prefixes[i])
  }

  /** A prefix can only match data at least as long as itself. */
  lemma ShortDataNeverStartsWith(data: seq<bv8>, prefix: seq<bv8>)
    requires |data| < |prefix|
    ensures !StartsWith(data, prefix)
  {
  }

  /**
   * The ISO-8859-1 encoding of a string, one byte per character; a character
   * outside Latin-1 becomes `?` (0x3F), as Java's encoder replaces it.
   */
  function Latin1(s: string): seq<bv8>
  {
    seq(|s|, i requires 0 <= i < |s| => if (s[i] as int) < 256 then (s[i] as int) as bv8 else 0x3F)
  }
}
