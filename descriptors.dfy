/**
 * File format descriptors: an immutable record of a format's name, short
 * name, file extensions, MIME types and content validators per mode, and
 * the first-match search for a validator over a caller-given mode list.
 */
module Descriptors {

  import opened Options
  import opened Modes
  import opened BinaryHelper

  /** A content validator: does the given data belong to the format? */
  type Validator = seq<bv8> -> bool

  /**
   * The descriptor's fields. Being a value, every accessor result is already
   * an independent copy of the descriptor's sets and map.
   */
  datatype Descriptor = Descriptor(
    name: string,
    shortName: string,
    extensions: set<string>,
    mimeTypes: set<string>,
    validators: map<Mode, Validator>)

  /**
   * What a descriptor promises its users: a non-empty name and short name,
   * a non-empty set of valid file extensions and a non-empty set of valid,
   * parameter-free MIME types. The validator map may be empty.
   */
  predicate WellFormed(d: Descriptor, parse: MimeTypeParser)
  {
    && d.name != []
    && d.shortName != []
    && d.extensions != {}
    && (forall e :: e in d.extensions ==> IsValidFileExtension(Some(e)))
    && d.mimeTypes != {}
    && (forall m :: m in d.mimeTypes ==> IsValidMimeType(Some(m), parse))
  }

  /**
   * The constructor shared by all descriptors. The extension and MIME type
   * collections may hold duplicates; the descriptor keeps their sets. A
   * missing or empty short name defaults to the name.
   */
  function NewDescriptor(
    name: string,
    shortName: Option<string>,
    fileExtensions: seq<string>,
    mimeTypes: seq<string>,
    validators: map<Mode, Validator>,
    parse: MimeTypeParser): (d: Descriptor)
    requires name != []
    requires fileExtensions != []
    requires forall i :: 0 <= i < |fileExtensions| ==> IsValidFileExtension(Some(fileExtensions[i]))
    requires mimeTypes != []
    requires forall i :: 0 <= i < |mimeTypes| ==> IsValidMimeType(Some(mimeTypes[i]), parse)
    ensures WellFormed(d, parse)
    ensures d.name == name
    ensures shortName.Some? && shortName.value != [] ==> d.shortName == shortName.value
    ensures shortName.None? || shortName.value == [] ==> d.shortName == name
    ensures forall e :: e in d.extensions <==> e in fileExtensions
    ensures forall m :: m in d.mimeTypes <==> m in mimeTypes
    ensures d.validators == validators
  {
    var exts := set e | e in fileExtensions;
    var mimes := set m | m in mimeTypes;
    assert fileExtensions[0] in exts && mimeTypes[0] in mimes;
    Descriptor(name, if HasText(shortName) then shortName.value else name, exts, mimes, validators)
  }

  /** The index of the first mode in `modes` that has a validator; |modes| if there is none. */
  function FirstSupported(validators: map<Mode, Validator>, modes: seq<Mode>): (k: nat)
    ensures k <= |modes|
    ensures forall j :: 0 <= j < k ==> modes[j] !in validators
    ensures k < |modes| ==> modes[k] in validators
  {
    if modes == [] then 0
    else if modes[0] in validators then 0
    else 1 + FirstSupported(validators, modes[1..])
  }

  /**
   * The validator of the first mode in `modes` that has one: the modes are
   * tried linearly, so the caller's order is the priority.
   */
  function FirstMatch(validators: map<Mode, Validator>, modes: seq<Mode>): (r: Option<Validator>)
    ensures r.None? <==> forall i :: 0 <= i < |modes| ==> modes[i] !in validators
    ensures r.Some? ==> exists i :: 0 <= i < |modes| && modes[i] in validators && r.value == validators[modes[i]]
                                    && forall j :: 0 <= j < i ==> modes[j] !in validators
  {
    var k := FirstSupported(validators, modes);
    if k < |modes| then Some(validators[modes[k]]) else None
  }

  /**
   * The search over a nullable array of modes: a null array yields no
   * validator, and otherwise the loop returns at the first mode that has one.
   */
  method FindContentValidator(d: Descriptor, modes: Option<seq<Mode>>) returns (r: Option<Validator>)
    ensures modes.None? ==> r.None?
    ensures modes.Some? ==> r == FirstMatch(d.validators, modes.value)
  {
    if modes.None? {
      return None;
    }
    var ms := modes.value;
    for i := 0 to |ms|
      invariant forall j :: 0 <= j < i ==> ms[j] !in d.validators
    {
      if ms[i] in d.validators {
        return Some(d.validators[ms[i]]);
      }
    }
    return None;
  }

  /**
   * Reordering the modes changes nothing unless at least two distinct
   * listed modes have validators.
   */
  lemma {:induction false} FirstMatchReorder(validators: map<Mode, Validator>, a: seq<Mode>, b: seq<Mode>)
    requires multiset(a) == multiset(b)
    requires forall i, j :: 0 <= i < |a| && 0 <= j < |a| && a[i] in validators && a[j] in validators ==> a[i] == a[j]
    ensures FirstMatch(validators, a) == FirstMatch(validators, b)
  {
    forall x | x in b ensures x in a {
      assert x in multiset(b);
    }
    forall x | x in a ensures x in b {
      assert x in multiset(a);
    }
    var ka := FirstSupported(validators, a);
    var kb := FirstSupported(validators, b);
    assert kb < |b| ==> b[kb] in a;
    if ka < |a| {
      assert a[ka] in b;
      var jb :| 0 <= jb < |b| && b[jb] == a[ka];
      assert kb <= jb < |b|;
      assert b[kb] in a;
      var ia :| 0 <= ia < |a| && a[ia] == b[kb];
      assert a[ia] == a[ka];
    }
  }

  /** Favour speed: try LEADING_BYTES before FULL_PARSE. */
  function FavourSpeed(d: Descriptor): Option<Validator>
  {
    FirstMatch(d.validators, [LeadingBytes, FullParse])
  }

  /** Favour accuracy: try FULL_PARSE before LEADING_BYTES. */
  function FavourAccuracy(d: Descriptor): Option<Validator>
  {
    FirstMatch(d.validators, [FullParse, LeadingBytes])
  }

  /**
   * The two canned priority orders: with both validators each picks its own
   * mode; with only one, both pick it; with none, both yield nothing.
   */
  lemma FavourSpeedAndAccuracy(d: Descriptor)
    ensures LeadingBytes in d.validators ==> FavourSpeed(d) == Some(d.validators[LeadingBytes])
    ensures FullParse in d.validators ==> FavourAccuracy(d) == Some(d.validators[FullParse])
    ensures LeadingBytes in d.validators && FullParse !in d.validators
            ==> FavourAccuracy(d) == Some(d.validators[LeadingBytes])
    ensures FullParse in d.validators && LeadingBytes !in d.validators
            ==> FavourSpeed(d) == Some(d.validators[FullParse])
    ensures d.validators == map[] ==> FavourSpeed(d).None? && FavourAccuracy(d).None?
  {
    var speed := [LeadingBytes, FullParse];
    var accuracy := [FullParse, LeadingBytes];
    assert speed[0] == LeadingBytes && speed[1] == FullParse;
    assert accuracy[0] == FullParse && accuracy[1] == LeadingBytes;
  }
}
