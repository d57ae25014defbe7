/**
 * The file format registry: descriptors indexed by name (in registration
 * order), by file extension and by MIME type, with the three key spaces kept
 * unique across descriptors.
 *
 * The abstract state and the effect of each registration are specified on
 * the value type `RegistryState`; the class `FileFormatRegistry` holds the
 * three maps as fields and is proved to follow that specification.
 */
module Registry {

  import opened Options
  import opened BinaryHelper
  import opened Descriptors

  /** The result of a registration. */
  datatype Outcome = Success | Failure

  /** The name order, and the name, extension and MIME type maps. */
  datatype RegistryState = RegistryState(
    order: seq<string>,
    byName: map<string, Descriptor>,
    byExt: map<string, Descriptor>,
    byMime: map<string, Descriptor>)

  const EmptyState := RegistryState([], map[], map[], map[])

  predicate NoDuplicates(s: seq<string>)
  {
    forall i, j :: 0 <= i < j < |s| ==> s[i] != s[j]
  }

  /** `d` is the descriptor registered under its own name. */
  ghost predicate Registered(st: RegistryState, d: Descriptor)
  {
    d.name in st.byName && st.byName[d.name] == d
  }

  /**
   * The registry invariant: the name order lists each registered name once;
   * every map entry points to a registered descriptor that claims the key;
   * and every key a registered descriptor claims is indexed to it.
   */
  ghost predicate Consistent(st: RegistryState)
  {
    && OrderListsNames(st)
    && ExtIndexSound(st) && MimeIndexSound(st)
    && ExtIndexComplete(st) && MimeIndexComplete(st)
  }

  ghost predicate OrderListsNames(st: RegistryState)
  {
    && NoDuplicates(st.order)
    && (forall n :: n in st.byName <==> n in st.order)
    && (forall n :: n in st.byName ==> st.byName[n].name == n)
  }

  ghost predicate ExtIndexSound(st: RegistryState)
  {
    forall e :: e in st.byExt ==> e in st.byExt[e].extensions && Registered(st, st.byExt[e])
  }

  ghost predicate MimeIndexSound(st: RegistryState)
  {
    forall m :: m in st.byMime ==> m in st.byMime[m].mimeTypes && Registered(st, st.byMime[m])
  }

  ghost predicate ExtIndexComplete(st: RegistryState)
  {
    forall n, e :: n in st.byName && e in st.byName[n].extensions ==> e in st.byExt && st.byExt[e] == st.byName[n]
  }

  ghost predicate MimeIndexComplete(st: RegistryState)
  {
    forall n, m :: n in st.byName && m in st.byName[n].mimeTypes ==> m in st.byMime && st.byMime[m] == st.byName[n]
  }

  /** None of the descriptor's name, extensions and MIME types is taken yet. */
  predicate Admits(st: RegistryState, d: Descriptor)
  {
    d.name !in st.byName && d.extensions !! st.byExt.Keys && d.mimeTypes !! st.byMime.Keys
  }

  /** `newer` keeps every entry of `older` and extends its name order. */
  ghost predicate Extends(older: RegistryState, newer: RegistryState)
  {
    && older.order <= newer.order
    && (forall n :: n in older.byName ==> n in newer.byName && newer.byName[n] == older.byName[n])
    && (forall e :: e in older.byExt ==> e in newer.byExt && newer.byExt[e] == older.byExt[e])
    && (forall m :: m in older.byMime ==> m in newer.byMime && newer.byMime[m] == older.byMime[m])
  }

  /** Proof helper: keeping all entries is transitive. */
  lemma ExtendsTransitive(a: RegistryState, b: RegistryState, c: RegistryState)
    requires Extends(a, b) && Extends(b, c)
    ensures Extends(a, c)
  {
  }

  /** A key taken stays taken, so a descriptor refused once is refused later too. */
  lemma RefusalPersists(a: RegistryState, b: RegistryState, d: Descriptor)
    requires Extends(a, b) && !Admits(a, d)
    ensures !Admits(b, d)
  {
    if d.name !in a.byName {
      if !(d.extensions !! a.byExt.Keys) {
        var e :| e in d.extensions && e in a.byExt;
        assert e in b.byExt;
      } else {
        var m :| m in d.mimeTypes && m in a.byMime;
        assert m in b.byMime;
      }
    }
  }

  /** The map sending each of `keys` to `d`. */
  function AllTo(keys: set<string>, d: Descriptor): map<string, Descriptor>
  {
    map k | k in keys :: d
  }

  /**
   * The state after registering `d`: unchanged when any of its keys is
   * taken; otherwise its name is appended to the name order and the name,
   * each extension and each MIME type are mapped to it.
   */
  function AfterRegister(st: RegistryState, d: Descriptor): (r: RegistryState)
    ensures Extends(st, r)
    ensures !Admits(st, d) ==> r == st
    ensures Admits(st, d) ==> r.order == st.order + [d.name] && Registered(r, d)
    ensures Admits(st, d) ==> r.byName.Keys == st.byName.Keys + {d.name}
                              && r.byExt.Keys == st.byExt.Keys + d.extensions
                              && r.byMime.Keys == st.byMime.Keys + d.mimeTypes
    ensures Admits(st, d) ==> (forall e :: e in d.extensions ==> r.byExt[e] == d)
                              && (forall m :: m in d.mimeTypes ==> r.byMime[m] == d)
    ensures !Admits(r, d)
  {
    if Admits(st, d) then
      RegistryState(st.order + [d.name], st.byName[d.name := d],
                    st.byExt + AllTo(d.extensions, d), st.byMime + AllTo(d.mimeTypes, d))
    else
      st
  }

  /** Registration keeps the registry invariant, whatever the descriptor. */
  lemma AfterRegisterConsistent(st: RegistryState, d: Descriptor)
    requires Consistent(st)
    ensures Consistent(AfterRegister(st, d))
  {
    if Admits(st, d) {
      AdmittedOrderListsNames(st, d);
      AdmittedIndexSound(st, d);
      AdmittedExtIndexComplete(st, d);
      AdmittedMimeIndexComplete(st, d);
    }
  }

  lemma AdmittedOrderListsNames(st: RegistryState, d: Descriptor)
    requires OrderListsNames(st) && Admits(st, d)
    ensures OrderListsNames(AfterRegister(st, d))
  {
    var r := AfterRegister(st, d);
    forall i, j | 0 <= i < j < |r.order|
      ensures r.order[i] != r.order[j]
    {
      if j == |st.order| {
        assert st.order[i] in st.byName;
      }
    }
  }

  lemma AdmittedIndexSound(st: RegistryState, d: Descriptor)
    requires ExtIndexSound(st) && MimeIndexSound(st) && OrderListsNames(st) && Admits(st, d)
    ensures ExtIndexSound(AfterRegister(st, d)) && MimeIndexSound(AfterRegister(st, d))
  {
    var r := AfterRegister(st, d);
    forall e | e in r.byExt
      ensures e in r.byExt[e].extensions && Registered(r, r.byExt[e])
    {
      if e !in d.extensions {
        assert r.byExt[e] == st.byExt[e];
      }
    }
    forall m | m in r.byMime
      ensures m in r.byMime[m].mimeTypes && Registered(r, r.byMime[m])
    {
      if m !in d.mimeTypes {
        assert r.byMime[m] == st.byMime[m];
      }
    }
  }

  lemma AdmittedExtIndexComplete(st: RegistryState, d: Descriptor)
    requires ExtIndexComplete(st) && Admits(st, d)
    ensures ExtIndexComplete(AfterRegister(st, d))
  {
    var r := AfterRegister(st, d);
    forall n, e | n in r.byName && e in r.byName[n].extensions
      ensures e in r.byExt && r.byExt[e] == r.byName[n]
    {
      if n != d.name {
        assert e in st.byExt;
      }
    }
  }

  lemma AdmittedMimeIndexComplete(st: RegistryState, d: Descriptor)
    requires MimeIndexComplete(st) && Admits(st, d)
    ensures MimeIndexComplete(AfterRegister(st, d))
  {
    var r := AfterRegister(st, d);
    forall n, m | n in r.byName && m in r.byName[n].mimeTypes
      ensures m in r.byMime && r.byMime[m] == r.byName[n]
    {
      if n != d.name {
        assert m in st.byMime;
      }
    }
  }

  /**
   * In a consistent registry no two descriptors share an extension or a
   * MIME type (names are unique as keys of the name map).
   */
  lemma KeysAreUnique(st: RegistryState, n1: string, n2: string)
    requires Consistent(st)
    requires n1 in st.byName && n2 in st.byName && n1 != n2
    ensures st.byName[n1].extensions !! st.byName[n2].extensions
    ensures st.byName[n1].mimeTypes !! st.byName[n2].mimeTypes
  {
    forall e | e in st.byName[n1].extensions
      ensures e !in st.byName[n2].extensions
    {
      assert st.byExt[e] == st.byName[n1];
    }
    forall m | m in st.byName[n1].mimeTypes
      ensures m !in st.byName[n2].mimeTypes
    {
      assert st.byMime[m] == st.byName[n1];
    }
  }

  /** In a consistent registry, a registered descriptor is what its extensions and MIME types find. */
  lemma RegisteredKeysFindIt(st: RegistryState, d: Descriptor)
    requires Consistent(st) && Registered(st, d)
    ensures forall e :: e in d.extensions ==> e in st.byExt && st.byExt[e] == d
    ensures forall m :: m in d.mimeTypes ==> m in st.byMime && st.byMime[m] == d
  {
    assert st.byName[d.name] == d;
  }

  /** The state after registering each of `ds` in order, ignoring every outcome. */
  function AfterRegisterAll(st: RegistryState, ds: seq<Descriptor>): RegistryState
    decreases |ds|
  {
    if ds == [] then st else AfterRegister(AfterRegisterAll(st, ds[..|ds| - 1]), ds[|ds| - 1])
  }

  lemma {:induction false} AfterRegisterAllConsistent(st: RegistryState, ds: seq<Descriptor>)
    requires Consistent(st)
    ensures Consistent(AfterRegisterAll(st, ds))
    decreases |ds|
  {
    if ds != [] {
      AfterRegisterAllConsistent(st, ds[..|ds| - 1]);
      AfterRegisterConsistent(AfterRegisterAll(st, ds[..|ds| - 1]), ds[|ds| - 1]);
    }
  }

  /** A sequence of registrations keeps every existing entry. */
  lemma {:induction false} AfterRegisterAllExtends(st: RegistryState, ds: seq<Descriptor>)
    ensures Extends(st, AfterRegisterAll(st, ds))
    decreases |ds|
  {
    if ds != [] {
      var mid := AfterRegisterAll(st, ds[..|ds| - 1]);
      AfterRegisterAllExtends(st, ds[..|ds| - 1]);
      ExtendsTransitive(st, mid, AfterRegister(mid, ds[|ds| - 1]));
    }
  }

  lemma {:induction false} AfterRegisterAllAppend(st: RegistryState, a: seq<Descriptor>, b: seq<Descriptor>)
    ensures AfterRegisterAll(st, a + b) == AfterRegisterAll(AfterRegisterAll(st, a), b)
    decreases |b|
  {
    if b == [] {
      assert a + b == a;
    } else {
      assert (a + b)[..|a + b| - 1] == a + b[..|b| - 1];
      AfterRegisterAllAppend(st, a, b[..|b| - 1]);
    }
  }

  /** The state after all registrations extends the state after any prefix of them. */
  lemma AfterRegisterAllPrefix(st: RegistryState, ds: seq<Descriptor>, k: nat)
    requires k <= |ds|
    ensures Extends(AfterRegisterAll(st, ds[..k]), AfterRegisterAll(st, ds))
  {
    AfterRegisterAllAppend(st, ds[..k], ds[k..]);
    assert ds[..k] + ds[k..] == ds;
    AfterRegisterAllExtends(AfterRegisterAll(st, ds[..k]), ds[k..]);
  }

  /** After a sequence of registrations, none of its descriptors would be admitted again. */
  lemma {:induction false} AfterRegisterAllRefusesAll(st: RegistryState, ds: seq<Descriptor>)
    ensures forall i :: 0 <= i < |ds| ==> !Admits(AfterRegisterAll(st, ds), ds[i])
    decreases |ds|
  {
    if ds != [] {
      var init := ds[..|ds| - 1];
      var mid := AfterRegisterAll(st, init);
      var last := AfterRegister(mid, ds[|ds| - 1]);
      AfterRegisterAllRefusesAll(st, init);
      forall i | 0 <= i < |ds| - 1
        ensures !Admits(last, ds[i])
      {
        assert ds[i] == init[i];
        RefusalPersists(mid, last, ds[i]);
      }
    }
  }

  /** Registrations that are all refused leave the state unchanged. */
  lemma {:induction false} AllRefusedIsNoOp(st: RegistryState, ds: seq<Descriptor>)
    requires forall i :: 0 <= i < |ds| ==> !Admits(st, ds[i])
    ensures AfterRegisterAll(st, ds) == st
    decreases |ds|
  {
    if ds != [] {
      AllRefusedIsNoOp(st, ds[..|ds| - 1]);
    }
  }

  /**
   * Replaying the same registrations on the state they produced changes
   * nothing: every one of them is then refused.
   */
  lemma ReplayIsNoOp(st: RegistryState, ds: seq<Descriptor>)
    ensures AfterRegisterAll(AfterRegisterAll(st, ds), ds) == AfterRegisterAll(st, ds)
  {
    AfterRegisterAllRefusesAll(st, ds);
    AllRefusedIsNoOp(AfterRegisterAll(st, ds), ds);
  }

  /** Helper: the names of `ds`, in order. */
  function Names(ds: seq<Descriptor>): (names: seq<string>)
    ensures |names| == |ds|
    ensures forall i :: 0 <= i < |ds| ==> names[i] == ds[i].name
  {
    seq(|ds|, i requires 0 <= i < |ds| => ds[i].name)
  }

  /** Every registration of `ds`, applied in order from `st`, succeeds. */
  ghost predicate AllAdmitted(st: RegistryState, ds: seq<Descriptor>)
    decreases |ds|
  {
    ds == [] || (AllAdmitted(st, ds[..|ds| - 1]) && Admits(AfterRegisterAll(st, ds[..|ds| - 1]), ds[|ds| - 1]))
  }

  /**
   * When every registration of a sequence succeeds, the name order grows by
   * exactly their names, in call order.
   */
  lemma {:induction false} AllAdmittedOrder(st: RegistryState, ds: seq<Descriptor>)
    requires AllAdmitted(st, ds)
    ensures AfterRegisterAll(st, ds).order == st.order + Names(ds)
    decreases |ds|
  {
    if ds != [] {
      var k := |ds| - 1;
      var init := ds[..k];
      AllAdmittedOrder(st, init);
      assert Names(ds) == Names(init) + [ds[k].name];
    }
  }

  /**
   * Registrations index no name, extension or MIME type that none of the
   * descriptors claims.
   */
  lemma {:induction false} IndexedKeysComeFrom(st: RegistryState, ds: seq<Descriptor>)
    ensures forall n :: n in AfterRegisterAll(st, ds).byName ==>
              n in st.byName || exists i :: 0 <= i < |ds| && ds[i].name == n
    ensures forall e :: e in AfterRegisterAll(st, ds).byExt ==>
              e in st.byExt || exists i :: 0 <= i < |ds| && e in ds[i].extensions
    ensures forall m :: m in AfterRegisterAll(st, ds).byMime ==>
              m in st.byMime || exists i :: 0 <= i < |ds| && m in ds[i].mimeTypes
    decreases |ds|
  {
    if ds != [] {
      var init := ds[..|ds| - 1];
      IndexedKeysComeFrom(st, init);
      forall i | 0 <= i < |init|
        ensures init[i] == ds[i]
      {
      }
    }
  }

  /** Two descriptors share no name, no extension and no MIME type. */
  predicate Compatible(a: Descriptor, b: Descriptor)
  {
    a.name != b.name && a.extensions !! b.extensions && a.mimeTypes !! b.mimeTypes
  }

  predicate PairwiseCompatible(ds: seq<Descriptor>)
  {
    forall i, j :: 0 <= i < j < |ds| ==> Compatible(ds[i], ds[j])
  }

  /**
   * A descriptor the state admits, compatible with each of `ds`, is still
   * admitted after registering them.
   */
  lemma AdmittedAfterCompatible(st: RegistryState, ds: seq<Descriptor>, d: Descriptor)
    requires Admits(st, d)
    requires forall i :: 0 <= i < |ds| ==> Compatible(ds[i], d)
    ensures Admits(AfterRegisterAll(st, ds), d)
  {
    IndexedKeysComeFrom(st, ds);
  }

  /**
   * Descriptors that the state admits one by one and that are pairwise
   * compatible are all registered, their names appended in call order.
   */
  lemma {:induction false} CompatibleAllAdmitted(st: RegistryState, ds: seq<Descriptor>)
    requires forall i :: 0 <= i < |ds| ==> Admits(st, ds[i])
    requires PairwiseCompatible(ds)
    ensures AllAdmitted(st, ds)
    decreases |ds|
  {
    if ds != [] {
      var k := |ds| - 1;
      var init := ds[..k];
      assert PairwiseCompatible(init) by {
        forall i, j | 0 <= i < j < |init|
          ensures Compatible(init[i], init[j])
        {
          assert init[i] == ds[i] && init[j] == ds[j];
        }
      }
      CompatibleAllAdmitted(st, init);
      assert forall i :: 0 <= i < |init| ==> Compatible(init[i], ds[k]);
      AdmittedAfterCompatible(st, init, ds[k]);
    }
  }

  /** When every registration of a sequence succeeds, each of its descriptors ends up registered. */
  lemma {:induction false} AllAdmittedRegistersAll(st: RegistryState, ds: seq<Descriptor>)
    requires AllAdmitted(st, ds)
    ensures forall i :: 0 <= i < |ds| ==> Registered(AfterRegisterAll(st, ds), ds[i])
    decreases |ds|
  {
    if ds != [] {
      var k := |ds| - 1;
      var init := ds[..k];
      AllAdmittedRegistersAll(st, init);
      var mid := AfterRegisterAll(st, init);
      forall i | 0 <= i < k
        ensures Registered(AfterRegister(mid, ds[k]), ds[i])
      {
        assert init[i] == ds[i];
      }
    }
  }

  /**
   * Descriptors that the state admits one by one and that are pairwise
   * compatible are all registered, their names appended in call order.
   */
  lemma CompatibleRegistersAll(st: RegistryState, ds: seq<Descriptor>)
    requires forall i :: 0 <= i < |ds| ==> Admits(st, ds[i])
    requires PairwiseCompatible(ds)
    ensures AfterRegisterAll(st, ds).order == st.order + Names(ds)
    ensures forall i :: 0 <= i < |ds| ==> Registered(AfterRegisterAll(st, ds), ds[i])
  {
    CompatibleAllAdmitted(st, ds);
    AllAdmittedRegistersAll(st, ds);
    AllAdmittedOrder(st, ds);
  }

  /** A state that extends another starts with its name order and keeps its registrations. */
  lemma ExtendsKeepsRegistrations(older: RegistryState, newer: RegistryState, ds: seq<Descriptor>)
    requires Extends(older, newer)
    requires forall i :: 0 <= i < |ds| ==> Registered(older, ds[i])
    ensures |newer.order| >= |older.order| && newer.order[..|older.order|] == older.order
    ensures forall i :: 0 <= i < |ds| ==> Registered(newer, ds[i])
  {
  }

  /** The registrars' batches, one after the other. */
  function Concat(batches: seq<seq<Descriptor>>): seq<Descriptor>
    decreases |batches|
  {
    if batches == [] then [] else Concat(batches[..|batches| - 1]) + batches[|batches| - 1]
  }

  /** The state reinitialisation produces: all maps cleared, then every registrar's registrations in order. */
  function Reinitialized(registrars: seq<seq<Descriptor>>): RegistryState
  {
    AfterRegisterAll(EmptyState, Concat(registrars))
  }

  lemma ReinitializedConsistent(registrars: seq<seq<Descriptor>>)
    ensures Consistent(Reinitialized(registrars))
  {
    AfterRegisterAllConsistent(EmptyState, Concat(registrars));
  }

  /** Proof helper: a duplicate-free sequence has as many distinct elements as entries. */
  lemma {:induction false} NoDuplicatesCardinality(s: seq<string>)
    requires NoDuplicates(s)
    ensures |set x | x in s| == |s|
    decreases |s|
  {
    if s != [] {
      var init := s[..|s| - 1];
      NoDuplicatesCardinality(init);
      assert (set x | x in s) == (set x | x in init) + {s[|s| - 1]};
      assert s[|s| - 1] !in init;
    }
  }

  /** In a consistent registry, the number of descriptors is the length of the name order. */
  lemma SizeIsOrderLength(st: RegistryState)
    requires Consistent(st)
    ensures |st.byName| == |st.order|
  {
    NoDuplicatesCardinality(st.order);
    assert st.byName.Keys == set x | x in st.order;
  }

  /** Checks the keys one at a time, failing on the first one already taken. */
  method NoneTaken(keys: set<string>, taken: map<string, Descriptor>) returns (free: bool)
    ensures free <==> keys !! taken.Keys
  {
    var pending := keys;
    while pending != {}
      invariant pending <= keys
      invariant forall k :: k in keys && k !in pending ==> k !in taken
      decreases |pending|
    {
      var k :| k in pending;
      if k in taken {
        return false;
      }
      pending := pending - {k};
    }
    return true;
  }

  /**
   * The registry object: the name map (which keeps registration order, held
   * here as `names` beside `nameMap`), the extension map and the MIME type
   * map. The MIME type parser used by MIME type lookups is fixed at creation.
   */
  class FileFormatRegistry {
    const parse: MimeTypeParser
    var names: seq<string>
    var nameMap: map<string, Descriptor>
    var extMap: map<string, Descriptor>
    var mimeMap: map<string, Descriptor>

    /** The abstract state of this registry. */
    function State(): RegistryState
      reads this
    {
      RegistryState(names, nameMap, extMap, mimeMap)
    }

    ghost predicate Valid()
      reads this
    {
      Consistent(State())
    }

    /** Creates the registry and runs the registrars, as reinitialisation does. */
    constructor (parse: MimeTypeParser, registrars: seq<seq<Descriptor>>)
      ensures this.parse == parse
      ensures State() == Reinitialized(registrars)
      ensures Valid()
    {
      this.parse := parse;
      names := [];
      nameMap := map[];
      extMap := map[];
      mimeMap := map[];
      new;
      Reinitialize(registrars);
    }

    /**
     * Registers `d` unless its name, one of its extensions or one of its MIME
     * types is already registered; in that case nothing changes.
     */
    method Register(d: Descriptor) returns (outcome: Outcome)
      modifies this
      ensures outcome == Success <==> Admits(old(State()), d)
      ensures State() == AfterRegister(old(State()), d)
      ensures old(Valid()) ==> Valid()
    {
      if old(Valid()) {
        AfterRegisterConsistent(State(), d);
      }
      // 1. the name
      if d.name in nameMap {
        return Failure;
      }
      // 2. the file extensions
      var free := NoneTaken(d.extensions, extMap);
      if !free {
        return Failure;
      }
      // 3. the MIME types
      free := NoneTaken(d.mimeTypes, mimeMap);
      if !free {
        return Failure;
      }
      // remember the mappings
      names := names + [d.name];
      nameMap := nameMap[d.name := d];
      IndexExtensions(d);
      IndexMimeTypes(d);
      return Success;
    }

    /** Implementation helper of `Register`, which it inlines in the source: maps every extension of `d` to `d`. */
    method IndexExtensions(d: Descriptor)
      modifies this
      ensures extMap == old(extMap) + AllTo(d.extensions, d)
      ensures names == old(names) && nameMap == old(nameMap) && mimeMap == old(mimeMap)
    {
      var pending := d.extensions;
      while pending != {}
        invariant pending <= d.extensions
        invariant extMap == old(extMap) + AllTo(d.extensions - pending, d)
        invariant names == old(names) && nameMap == old(nameMap) && mimeMap == old(mimeMap)
        decreases |pending|
      {
        var e :| e in pending;
        extMap := extMap[e := d];
        pending := pending - {e};
      }
    }

    /** Implementation helper of `Register`, which it inlines in the source: maps every MIME type of `d` to `d`. */
    method IndexMimeTypes(d: Descriptor)
      modifies this
      ensures mimeMap == old(mimeMap) + AllTo(d.mimeTypes, d)
      ensures names == old(names) && nameMap == old(nameMap) && extMap == old(extMap)
    {
      var pending := d.mimeTypes;
      while pending != {}
        invariant pending <= d.mimeTypes
        invariant mimeMap == old(mimeMap) + AllTo(d.mimeTypes - pending, d)
        invariant names == old(names) && nameMap == old(nameMap) && extMap == old(extMap)
        decreases |pending|
      {
        var m :| m in pending;
        mimeMap := mimeMap[m := d];
        pending := pending - {m};
      }
    }

    /** What one registrar does: registers each of `ds` in order, ignoring the outcomes. */
    method RegisterAll(ds: seq<Descriptor>)
      modifies this
      ensures State() == AfterRegisterAll(old(State()), ds)
      ensures old(Valid()) ==> Valid()
    {
      for i := 0 to |ds|
        invariant State() == AfterRegisterAll(old(State()), ds[..i])
        invariant old(Valid()) ==> Valid()
      {
        assert ds[..i + 1][..i] == ds[..i];
        var _ := Register(ds[i]);
      }
      assert ds[..|ds|] == ds;
    }

    /** Clears all three maps, then lets every registrar register its formats. */
    method Reinitialize(registrars: seq<seq<Descriptor>>)
      modifies this
      ensures State() == Reinitialized(registrars)
      ensures Valid()
    {
      names := [];
      nameMap := map[];
      extMap := map[];
      mimeMap := map[];
      for i := 0 to |registrars|
        invariant State() == AfterRegisterAll(EmptyState, Concat(registrars[..i]))
      {
        assert registrars[..i + 1][..i] == registrars[..i];
        AfterRegisterAllAppend(EmptyState, Concat(registrars[..i]), registrars[i]);
        RegisterAll(registrars[i]);
      }
      assert registrars[..|registrars|] == registrars;
      ReinitializedConsistent(registrars);
    }

    /** The descriptor registered under `name`, if any. */
    function DescriptorOfName(name: Option<string>): (r: Option<Descriptor>)
      reads this
      ensures Valid() ==> (r.Some? <==> name.Some? && name.value in names)
      ensures Valid() && r.Some? ==> r.value.name == name.value && Registered(State(), r.value)
    {
      if name.Some? && name.value in nameMap then Some(nameMap[name.value]) else None
    }

    /**
     * The descriptor claiming the extension `ext`; an extension that is
     * missing, empty, starts with a dot or has an upper-case letter finds
     * nothing.
     */
    function DescriptorByFileExtension(ext: Option<string>): (r: Option<Descriptor>)
      reads this
      ensures r.Some? ==> IsValidFileExtension(ext)
      ensures Valid() && r.Some? ==> ext.value in r.value.extensions && Registered(State(), r.value)
      ensures Valid() && IsValidFileExtension(ext) ==>
                (forall n :: n in nameMap && ext.value in nameMap[n].extensions ==> r == Some(nameMap[n]))
    {
      if IsValidFileExtension(ext) && ext.value in extMap then Some(extMap[ext.value]) else None
    }

    /**
     * The descriptor claiming the MIME type `mime`; a MIME type that is
     * missing, empty, has an upper-case letter, does not parse or carries
     * parameters finds nothing.
     */
    function DescriptorByMimeType(mime: Option<string>): (r: Option<Descriptor>)
      reads this
      ensures r.Some? ==> IsValidMimeType(mime, parse)
      ensures Valid() && r.Some? ==> mime.value in r.value.mimeTypes && Registered(State(), r.value)
      ensures Valid() && IsValidMimeType(mime, parse) ==>
                (forall n :: n in nameMap && mime.value in nameMap[n].mimeTypes ==> r == Some(nameMap[n]))
    {
      if IsValidMimeType(mime, parse) && mime.value in mimeMap then Some(mimeMap[mime.value]) else None
    }

    /** The lookup by a parsed MIME type uses its text without parameters. */
    function DescriptorByMimeTypeObject(mime: Option<MimeType>): (r: Option<Descriptor>)
      reads this
      ensures mime.None? ==> r.None?
      ensures mime.Some? ==> r == DescriptorByMimeType(Some(AsStringWithoutParameters(mime.value)))
      ensures Valid() && r.Some? ==> AsStringWithoutParameters(mime.value) in r.value.mimeTypes
    {
      if mime.None? then None else DescriptorByMimeType(Some(AsStringWithoutParameters(mime.value)))
    }

    /** The number of registered descriptors. */
    function Count(): (n: nat)
      reads this
      ensures Valid() ==> n == |names|
    {
      assert Valid() ==> |nameMap| == |names| by {
        if Valid() {
          SizeIsOrderLength(State());
        }
      }
      |nameMap|
    }

    /** Every registered descriptor with its name, in registration order. */
    function AllDescriptors(): (all: seq<(string, Descriptor)>)
      requires Valid()
      reads this
      ensures |all| == |names| == Count()
      ensures forall i :: 0 <= i < |all| ==> all[i].0 == names[i] && all[i].1.name == names[i] && Registered(State(), all[i].1)
      ensures forall n :: n in nameMap ==> exists i :: 0 <= i < |all| && all[i] == (n, nameMap[n])
    {
      seq(|names|, i requires 0 <= i < |names| && names[i] in nameMap reads this => (names[i], nameMap[names[i]]))
    }
  }
}
