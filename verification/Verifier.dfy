/** Drift of an observed catalog against the pins, and the explicit re-pin. */
module Verifier {
  import opened Results
  import opened SerdePath
  import opened StringSort
  import opened Hashing
  import opened PinStores
  import opened Printer

  /** One descriptor, kept as the value the server advertised. */
  datatype ToolDescriptor = ToolDescriptor(value: SerdeValue) {
    function Name(): Option<string> {
      match value.Get("name")
      case None => None
      case Some(name) => name.AsStr()
    }
  }

  datatype ToolCatalog = ToolCatalog(tools: seq<ToolDescriptor>)

  /** One descriptor for each value, in the same order. */
  function FromValues(values: seq<SerdeValue>): (catalog: ToolCatalog)
    ensures |catalog.tools| == |values|
    ensures forall i | 0 <= i < |values| :: catalog.tools[i].value == values[i]
  {
    ToolCatalog(seq(|values|, i requires 0 <= i < |values| => ToolDescriptor(values[i])))
  }

  datatype DriftReport = DriftReport(
    added: seq<string>, removed: seq<string>, mutated: seq<string>, unmodified: seq<string>,
    observedCatalogHash: string)
  {
    predicate HasDrift() {
      added != [] || removed != [] || mutated != []
    }
  }

  // ---- Observing a catalog --------------------------------------------------------------

  /** A tool's name and descriptor hash. */
  datatype Pin = Pin(name: string, hash: string)

  function Identify(h: Hashes, tool: ToolDescriptor): Result<Pin> {
    match tool.Name()
    case None => Err(MissingName)
    case Some(name) =>
      var hash :- DescriptorHash(h, tool.value);
      Ok(Pin(name, hash))
  }

  /**
   A tool is identified by the string under its key `name` and the hash of its canonical text; it
   is missing its name if there is no such string, whether or not it has a canonical text.
   */
  lemma {:induction false} IdentifyIs(h: Hashes, tool: ToolDescriptor, name: string)
    ensures HasEntry(tool.value, "name", SString(name)) ==>
              Identify(h, tool)
              == if Printable(ToJcs(tool.value)) then Ok(Pin(name, h.id(CanonicalText(ToJcs(tool.value)))))
              else Err(Canonicalization)
    ensures Identify(h, tool) == Err(MissingName) <==> forall n :: !HasEntry(tool.value, "name", SString(n))
  {
    DescriptorHashIs(h, tool.value);
    forall n
      ensures HasEntry(tool.value, "name", SString(n)) <==> tool.Name() == Some(n)
    {
      GetIff(tool.value, "name", SString(n));
    }
  }

  /** What is identified up to the first tool that cannot be, and the error there. */
  datatype Sighting = Sighting(seen: seq<Pin>, error: Option<IntegrityError>)

  function Observe(h: Hashes, tools: seq<ToolDescriptor>): (o: Sighting)
    ensures o.error.None? ==> |o.seen| == |tools|
    ensures |o.seen| <= |tools|
  {
    if tools == [] then Sighting([], None)
    else
      var o := Observe(h, tools[..|tools| - 1]);
      if o.error.Some? then o
      else
        match Identify(h, tools[|tools| - 1])
        case Ok(pin) => Sighting(o.seen + [pin], None)
        case Err(e) => Sighting(o.seen, Some(e))
  }

  /** Once a tool fails, the tools behind it are not looked at. */
  lemma {:induction false} ObserveStops(h: Hashes, tools: seq<ToolDescriptor>, i: nat)
    requires i <= |tools| && Observe(h, tools[..i]).error.Some?
    ensures Observe(h, tools) == Observe(h, tools[..i])
    decreases |tools|
  {
    if i == |tools| {
      assert tools[..i] == tools;
    } else {
      assert tools[..|tools| - 1][..i] == tools[..i];
      ObserveStops(h, tools[..|tools| - 1], i);
    }
  }

  /** One more tool, identified. */
  lemma {:induction false} ObserveNext(h: Hashes, tools: seq<ToolDescriptor>, i: nat, seen: seq<Pin>)
    requires i < |tools| && Observe(h, tools[..i]) == Sighting(seen, None)
    ensures match Identify(h, tools[i])
            case Ok(pin) => Observe(h, tools[..i + 1]) == Sighting(seen + [pin], None)
            case Err(e) => Observe(h, tools) == Sighting(seen, Some(e))
  {
    assert tools[..i + 1][..i] == tools[..i];
    if Identify(h, tools[i]).Err? {
      ObserveStops(h, tools, i + 1);
    }
  }

  /** Every tool of a catalog that is observed without error has its own entry. */
  lemma {:induction false} ObservedEntry(h: Hashes, tools: seq<ToolDescriptor>, i: nat)
    requires Observe(h, tools).error.None? && i < |tools|
    ensures Identify(h, tools[i]) == Ok(Observe(h, tools).seen[i])
  {
    if i < |tools| - 1 {
      ObservedEntry(h, tools[..|tools| - 1], i);
    }
  }

  /** A catalog all of whose tools can be identified is observed without error. */
  lemma {:induction false} AllIdentified(h: Hashes, tools: seq<ToolDescriptor>)
    requires forall i | 0 <= i < |tools| :: Identify(h, tools[i]).Ok?
    ensures Observe(h, tools).error.None?
  {
    if tools != [] {
      AllIdentified(h, tools[..|tools| - 1]);
    }
  }

  /** Observing ends at the first tool that cannot be identified, with that tool's error. */
  lemma {:induction false} ObserveEndsAt(h: Hashes, tools: seq<ToolDescriptor>, i: nat)
    requires i < |tools| && Identify(h, tools[i]).Err?
    requires forall k | 0 <= k < i :: Identify(h, tools[k]).Ok?
    ensures Observe(h, tools).error == Some(Identify(h, tools[i]).error)
    ensures |Observe(h, tools).seen| == i
    ensures forall k | 0 <= k < i :: Identify(h, tools[k]) == Ok(Observe(h, tools).seen[k])
  {
    var front := tools[..i];
    AllIdentified(h, front);
    ObserveNext(h, tools, i, Observe(h, front).seen);
    forall k | 0 <= k < i
      ensures Identify(h, tools[k]) == Ok(Observe(h, tools).seen[k])
    {
      ObservedEntry(h, front, k);
    }
  }

  function NamesOf(seen: seq<Pin>): set<string> {
    set p | p in seen :: p.name
  }

  function HashesOf(seen: seq<Pin>): (r: seq<string>)
    ensures |r| == |seen|
  {
    seq(|seen|, i requires 0 <= i < |seen| => seen[i].hash)
  }

  function NameList(seen: seq<Pin>): (r: seq<string>)
    ensures |r| == |seen|
  {
    seq(|seen|, i requires 0 <= i < |seen| => seen[i].name)
  }

  // ---- Classification -------------------------------------------------------------------

  datatype Verdict = Added | Mutated | Unchanged

  function Classify(pins: map<string, string>, p: Pin): Verdict {
    if p.name !in pins then Added
    else if pins[p.name] == p.hash then Unchanged
    else Mutated
  }

  /** The names of the entries with a given verdict, one per entry. */
  function NamesWith(pins: map<string, string>, seen: seq<Pin>, verdict: Verdict): seq<string> {
    if seen == [] then []
    else
      var last := seen[|seen| - 1];
      NamesWith(pins, seen[..|seen| - 1], verdict) + if Classify(pins, last) == verdict then [last.name] else []
  }

  ghost function ReportOf(h: Hashes, pins: map<string, string>, seen: seq<Pin>): DriftReport {
    DriftReport(
      SortStrings(NamesWith(pins, seen, Added)),
      Listing(multiset(pins.Keys - NamesOf(seen))),
      SortStrings(NamesWith(pins, seen, Mutated)),
      SortStrings(NamesWith(pins, seen, Unchanged)),
      CatalogHash(h, HashesOf(seen)))
  }

  /** `verify` as a function of the pins. */
  ghost function Verified(h: Hashes, catalog: ToolCatalog, pins: map<string, string>): Result<DriftReport> {
    var o := Observe(h, catalog.tools);
    if o.error.Some? then Err(o.error.value) else Ok(ReportOf(h, pins, o.seen))
  }

  /** The names outside a set, in their order. */
  function Outside(names: seq<string>, observed: set<string>): seq<string> {
    if names == [] then []
    else
      var last := names[|names| - 1];
      Outside(names[..|names| - 1], observed) + if last in observed then [] else [last]
  }

  lemma {:induction false} OutsideCounts(names: seq<string>, observed: set<string>, x: string)
    ensures multiset(Outside(names, observed))[x] == if x in observed then 0 else multiset(names)[x]
  {
    if names != [] {
      OutsideCounts(names[..|names| - 1], observed, x);
      assert names == names[..|names| - 1] + [names[|names| - 1]];
    }
  }

  lemma {:induction false} OutsideKeys(names: seq<string>, keys: set<string>, observed: set<string>)
    requires multiset(names) == multiset(keys)
    ensures multiset(Outside(names, observed)) == multiset(keys - observed)
  {
    forall x
      ensures multiset(Outside(names, observed))[x] == multiset(keys - observed)[x]
    {
      OutsideCounts(names, observed, x);
    }
  }

  method IdentifyTool(h: Hashes, tool: ToolDescriptor) returns (r: Result<Pin>)
    ensures r == Identify(h, tool)
  {
    var name := tool.Name();
    if name.None? {
      return Err(MissingName);
    }
    var hash := HashDescriptor(h, tool.value);
    if hash.Err? {
      return Err(hash.error);
    }
    return Ok(Pin(name.value, hash.value));
  }

  lemma {:induction false} SeenGrows(pins: map<string, string>, seen: seq<Pin>, p: Pin)
    ensures NamesOf(seen + [p]) == NamesOf(seen) + {p.name}
    ensures HashesOf(seen + [p]) == HashesOf(seen) + [p.hash]
    ensures forall v :: NamesWith(pins, seen + [p], v)
                        == NamesWith(pins, seen, v) + if Classify(pins, p) == v then [p.name] else []
    ensures PinAll(pins, seen + [p]) == PinAll(pins, seen)[p.name := p.hash]
  {
    assert (seen + [p])[..|seen|] == seen;
  }

  method Verify(h: Hashes, catalog: ToolCatalog, store: InMemoryPinStore) returns (r: Result<DriftReport>)
    ensures r == Verified(h, catalog, store.pins)
  {
    var tools := catalog.tools;
    var added, mutated, unmodified: seq<string> := [], [], [];
    var observed: set<string> := {};
    var hashes: seq<string> := [];
    ghost var seen: seq<Pin> := [];
    for i := 0 to |tools|
      invariant Observe(h, tools[..i]) == Sighting(seen, None)
      invariant observed == NamesOf(seen) && hashes == HashesOf(seen)
      invariant added == NamesWith(store.pins, seen, Added)
      invariant mutated == NamesWith(store.pins, seen, Mutated)
      invariant unmodified == NamesWith(store.pins, seen, Unchanged)
    {
      ObserveNext(h, tools, i, seen);
      var identified := IdentifyTool(h, tools[i]);
      if identified.Err? {
        return Err(identified.error);
      }
      var Pin(name, hash) := identified.value;
      SeenGrows(store.pins, seen, identified.value);
      seen := seen + [identified.value];
      hashes := hashes + [hash];
      observed := observed + {name};
      match store.Get(name) {
        case None => added := added + [name];
        case Some(pinned) =>
          if pinned == hash {
            unmodified := unmodified + [name];
          } else {
            mutated := mutated + [name];
          }
      }
    }
    assert tools[..|tools|] == tools;
    var removed := RemovedNames(store, observed);
    var catalogHash := HashCatalog(h, hashes);
    return Ok(DriftReport(
                SortStrings(added), SortStrings(removed), SortStrings(mutated), SortStrings(unmodified), catalogHash));
  }

  /** Pinned names that were not observed. */
  method RemovedNames(store: InMemoryPinStore, observed: set<string>) returns (removed: seq<string>)
    ensures SortStrings(removed) == Listing(multiset(store.pins.Keys - observed))
  {
    removed := [];
    var names := store.PinnedNames();
    for i := 0 to |names|
      invariant removed == Outside(names[..i], observed)
    {
      assert names[..i + 1][..i] == names[..i];
      if names[i] !in observed {
        removed := removed + [names[i]];
      }
    }
    assert names[..|names|] == names;
    OutsideKeys(names, store.pins.Keys, observed);
    ListingIs(removed);
  }

  // ---- Re-pinning -----------------------------------------------------------------------

  /** The pins after setting one after another. */
  function PinAll(pins: map<string, string>, seen: seq<Pin>): map<string, string> {
    if seen == [] then pins
    else
      var last := seen[|seen| - 1];
      PinAll(pins, seen[..|seen| - 1])[last.name := last.hash]
  }

  /** The state of a pin store. */
  datatype StoreState = StoreState(pins: map<string, string>, catalogHash: Option<string>)

  function Only(pins: map<string, string>, names: set<string>): map<string, string> {
    map n | n in pins && n in names :: pins[n]
  }

  /** What a store holds after re-pinning a catalog, and what the call returns. */
  function Repinned(h: Hashes, state: StoreState, catalog: ToolCatalog): (StoreState, Result<()>) {
    var o := Observe(h, catalog.tools);
    var pins := PinAll(state.pins, o.seen);
    if o.error.Some? then (StoreState(pins, state.catalogHash), Err(o.error.value))
    else (StoreState(Only(pins, NamesOf(o.seen)), Some(CatalogHash(h, HashesOf(o.seen)))), Ok(()))
  }

  method Repin(h: Hashes, catalog: ToolCatalog, store: InMemoryPinStore) returns (r: Result<()>)
    modifies store
    ensures (StoreState(store.pins, store.catalogHash), r)
         == Repinned(h, old(StoreState(store.pins, store.catalogHash)), catalog)
  {
    var tools := catalog.tools;
    var observed: set<string> := {};
    var hashes: seq<string> := [];
    ghost var seen: seq<Pin> := [];
    for i := 0 to |tools|
      invariant Observe(h, tools[..i]) == Sighting(seen, None)
      invariant observed == NamesOf(seen) && hashes == HashesOf(seen)
      invariant store.pins == PinAll(old(store.pins), seen)
      invariant store.catalogHash == old(store.catalogHash)
    {
      ObserveNext(h, tools, i, seen);
      var identified := IdentifyTool(h, tools[i]);
      if identified.Err? {
        return Err(identified.error);
      }
      var Pin(name, hash) := identified.value;
      SeenGrows(old(store.pins), seen, identified.value);
      store.Set(name, hash);
      seen := seen + [identified.value];
      hashes := hashes + [hash];
      observed := observed + {name};
    }
    assert tools[..|tools|] == tools;
    RemoveUnobserved(store, observed);
    var catalogHash := HashCatalog(h, hashes);
    store.SetCatalogHash(catalogHash);
    return Ok(());
  }

  /** Drops the pins of tools that were not observed. */
  method RemoveUnobserved(store: InMemoryPinStore, observed: set<string>)
    modifies store`pins
    ensures store.pins == Only(old(store.pins), observed)
  {
    ghost var before := store.pins;
    var names := store.PinnedNames();
    for i := 0 to |names|
      invariant store.pins == map n | n in before && (n in observed || n !in names[..i]) :: before[n]
    {
      if names[i] !in observed {
        store.Remove(names[i]);
      }
      assert names[..i + 1] == names[..i] + [names[i]];
    }
    assert names[..|names|] == names;
    forall n | n in before
      ensures n in names
    {
      assert n in multiset(names);
    }
  }
}
