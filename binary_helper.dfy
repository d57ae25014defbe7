/**
 * The syntactic checks on the two secondary registry keys: file extensions
 * and MIME types. Both take a nullable string.
 */
module BinaryHelper {

  import opened Options

  predicate IsUpperCase(c: char)
  {
    'A' <= c <= 'Z'
  }

  /** Lowercasing of one character (ASCII letters only). */
  function ToLowerChar(c: char): char
  {
    if IsUpperCase(c) then (c as int + 32) as char else c
  }

  function ToLower(s: string): string
  {
    seq(|s|, i requires 0 <= i < |s| => ToLowerChar(s[i]))
  }

  /** A string is all-lowercase when lowercasing leaves it unchanged. */
  predicate IsLowerCase(s: string)
  {
    ToLower(s) == s
  }

  predicate HasNoUpperCase(s: string)
  {
    forall i :: 0 <= i < |s| ==> !IsUpperCase(s[i])
  }

  /** "Equals its own lowercase form" means "contains no upper-case letter". */
  lemma {:induction false} IsLowerCaseIff(s: string)
    ensures IsLowerCase(s) <==> HasNoUpperCase(s)
  {
    if IsLowerCase(s) {
      forall i | 0 <= i < |s|
        ensures !IsUpperCase(s[i])
      {
        assert ToLower(s)[i] == ToLowerChar(s[i]) == s[i];
      }
    }
    if HasNoUpperCase(s) {
      assert forall i :: 0 <= i < |s| ==> ToLower(s)[i] == s[i];
    }
  }

  /** Proof helper: lower case is kept by concatenation (used for MIME literals written in pieces). */
  lemma NoUpperCaseConcat(a: string, b: string)
    requires HasNoUpperCase(a) && HasNoUpperCase(b)
    ensures HasNoUpperCase(a + b)
  {
    forall i | |a| <= i < |a + b|
      ensures !IsUpperCase((a + b)[i])
    {
      assert (a + b)[i] == b[i - |a|];
    }
  }

  /** Non-null and of positive length. */
  predicate HasText(s: Option<string>)
  {
    s.Some? && s.value != []
  }

  /** A valid file extension is non-empty, has no leading dot and is all-lowercase. */
  function IsValidFileExtension(s: Option<string>): (valid: bool)
    ensures valid <==> s.Some? && |s.value| > 0 && s.value[0] != '.' && HasNoUpperCase(s.value)
  {
    if s.Some? then IsLowerCaseIff(s.value); HasText(s) && s.value[0] != '.' && IsLowerCase(s.value)
    else false
  }

  datatype MimeTypeParameter = MimeTypeParameter(attribute: string, value: string)

  /** A parsed MIME type: content type, subtype and its parameters (as in `; charset=utf-8`). */
  datatype MimeType = MimeType(contentType: string, subtype: string, parameters: seq<MimeTypeParameter>)

  /** A MIME type parser; `None` when the text is not a MIME type. */
  type MimeTypeParser = string -> Option<MimeType>

  /** The text `type/subtype`, the parameters dropped. */
  function AsStringWithoutParameters(m: MimeType): string
  {
    m.contentType + "/" + m.subtype
  }

  /** `s` parses, and the parsed MIME type carries no parameters. */
  predicate ParsesWithoutParameters(parse: MimeTypeParser, s: string)
  {
    parse(s).Some? && parse(s).value.parameters == []
  }

  /**
   * A valid MIME type is non-empty and all-lowercase, and only then is it
   * parsed; it must parse, without any parameter.
   */
  function IsValidMimeType(s: Option<string>, parse: MimeTypeParser): (valid: bool)
    ensures valid <==> s.Some? && |s.value| > 0 && HasNoUpperCase(s.value) && ParsesWithoutParameters(parse, s.value)
  {
    if s.Some? then IsLowerCaseIff(s.value); MimeTypeCheck(s.value, parse)
    else false
  }

  function MimeTypeCheck(s: string, parse: MimeTypeParser): bool
  {
    if s != [] && IsLowerCase(s) then
      match parse(s)
      case Some(m) => m.parameters == []
      case None => false
    else
      false
  }
}
