/**
 * The content validation mode enum (called the content detection mode in
 * the older interface generation): two values with string IDs and a
 * lookup from ID back to value.
 */
module Modes {

  import opened Options

  /** Declared in this order: the cheap check first, the exhaustive one second. */
  datatype Mode = LeadingBytes | FullParse

  /** The enum's `values()`, in declaration order. */
  const AllModes: seq<Mode> := [LeadingBytes, FullParse]

  lemma AllModesComplete(m: Mode)
    ensures m in AllModes
  {
  }

  /** The ID of a mode. */
  function Id(m: Mode): (id: string)
    ensures id != []
  {
    match m
    case LeadingBytes => "leading-bytes"
    case FullParse => "full-parse"
  }

  lemma IdsDistinct()
    ensures Id(LeadingBytes) != Id(FullParse)
  {
  }

  /** Scans `modes` in order for the first one whose ID is `id`. */
  function FindById(modes: seq<Mode>, id: string): (r: Option<Mode>)
    ensures r.Some? ==> r.value in modes && Id(r.value) == id
    ensures r.None? ==> forall m :: m in modes ==> Id(m) != id
  {
    if modes == [] then None
    else if Id(modes[0]) == id then Some(modes[0])
    else FindById(modes[1..], id)
  }

  /** The mode with the given ID; `None` for a null ID or an ID no mode has. */
  function FromIdOrNull(id: Option<string>): (r: Option<Mode>)
    ensures r.Some? ==> id == Some(Id(r.value))
    ensures r.None? ==> id.None? || forall m: Mode :: Id(m) != id.value
  {
    if id.None? then None
    else
      assert forall m: Mode :: m in AllModes by {
        forall m: Mode { AllModesComplete(m); }
      }
      FindById(AllModes, id.value)
  }

  /** Every mode is found again from its own ID. */
  lemma {:induction false} FromIdRoundTrip(m: Mode)
    ensures FromIdOrNull(Some(Id(m))) == Some(m)
  {
    var r := FromIdOrNull(Some(Id(m)));
    IdsDistinct();
    assert r.Some?;
  }
}
