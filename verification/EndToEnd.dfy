/** From canonical text to verdict: a clean catalog is the catalog that was pinned. */
module EndToEnd {
  import opened Results
  import opened Sequences
  import opened Values
  import opened Printer
  import opened SerdePath
  import opened Hashing
  import opened Verifier
  import opened Drift
  import RoundTrip

  ghost predicate SameTool(a: ToolDescriptor, b: ToolDescriptor) {
    SameMeaning(ToJcs(a.value), ToJcs(b.value))
  }

  /** The tools of two catalogs can be paired off, whatever their order. */
  ghost predicate SameTools(a: seq<ToolDescriptor>, b: seq<ToolDescriptor>) {
    if a == [] then b == []
    else exists j | 0 <= j < |b| :: SameTool(a[0], b[j]) && SameTools(a[1..], Without(b, j))
  }

  predicate DistinctToolNames(tools: seq<ToolDescriptor>) {
    forall i, j | 0 <= i < j < |tools| :: tools[i].Name().Some? ==> tools[i].Name() != tools[j].Name()
  }

  // ---- Names are part of the meaning ----------------------------------------------------

  lemma {:induction false} SameMembersPartner(a: seq<Member>, b: seq<Member>, m: Member) returns (n: Member)
    requires SameMembers(a, b) && m in a
    ensures n in b && SameMember(m, n)
    decreases a
  {
    var j :| 0 <= j < |b| && SameMember(a[0], b[j]) && SameMembers(a[1..], Without(b, j));
    if m == a[0] {
      n := b[j];
    } else {
      n := SameMembersPartner(a[1..], Without(b, j), m);
      assert n in b[..j] + b[j + 1..];
    }
  }

  /** A member that is a string is found, unchanged, in every tree of the same meaning. */
  lemma {:induction false} StringCarriesOver(x: seq<SerdeEntry>, y: seq<SerdeEntry>, key: string, s: string)
    returns (k: nat)
    requires SameMembers(ToJcsMembers(x), ToJcsMembers(y))
    requires Lookup(x, key) == Some(SString(s))
    ensures k < |y| && y[k] == SerdeEntry(key, SString(s))
  {
    var i := LookupFinds(x, key);
    assert ToJcsMembers(x)[i] == Member(key, String(s));
    k := StringPartner(ToJcsMembers(x), ToJcsMembers(y), key, s);
    OnlyStringsGiveStrings(y[k].value, s);
  }

  lemma {:induction false} StringPartner(a: seq<Member>, b: seq<Member>, key: string, s: string) returns (k: nat)
    requires SameMembers(a, b) && Member(key, String(s)) in a
    ensures k < |b| && b[k] == Member(key, String(s))
  {
    var n := SameMembersPartner(a, b, Member(key, String(s)));
    StringMeansItself(s, n.value);
    k :| 0 <= k < |b| && b[k] == n;
  }

  lemma {:induction false} StringMeansItself(s: string, v: JcsValue)
    requires SameMeaning(String(s), v)
    ensures v == String(s)
  {
  }

  lemma {:induction false} OnlyStringsGiveStrings(v: SerdeValue, s: string)
    requires ToJcs(v) == String(s)
    ensures v == SString(s)
  {
  }

  lemma {:induction false} NameCarriesOver(a: ToolDescriptor, b: ToolDescriptor)
    requires SameTool(a, b) && InDomain(ToJcs(b.value)) && a.Name().Some?
    ensures b.Name() == a.Name()
  {
    var x, y := a.value.entries, b.value.entries;
    var k := StringCarriesOver(x, y, "name", a.Name().value);
    DistinctLookup(y, k);
  }

  lemma {:induction false} DistinctLookup(entries: seq<SerdeEntry>, k: nat)
    requires DistinctNames(ToJcsMembers(entries)) && k < |entries|
    ensures Lookup(entries, entries[k].key) == Some(entries[k].value)
  {
    forall j | 0 <= j < k
      ensures entries[j].key != entries[k].key
    {
      assert ToJcsMembers(entries)[j].name != ToJcsMembers(entries)[k].name;
    }
    LookupHits(entries, k);
  }

  /** Descriptors that mean the same have the same name, or both have none. */
  lemma {:induction false} SameToolSameName(a: ToolDescriptor, b: ToolDescriptor)
    requires SameTool(a, b) && InDomain(ToJcs(a.value))
    ensures a.Name() == b.Name()
  {
    SameMeaningKeeps(ToJcs(a.value), ToJcs(b.value), 0);
    SameMeaningSymmetric(ToJcs(a.value), ToJcs(b.value));
    if a.Name().Some? {
      NameCarriesOver(a, b);
    } else if b.Name().Some? {
      NameCarriesOver(b, a);
    }
  }

  /** Descriptors that mean the same are identified alike. */
  lemma {:induction false} SameToolSamePin(h: Hashes, a: ToolDescriptor, b: ToolDescriptor)
    requires SameTool(a, b) && Identify(h, a).Ok?
    ensures Identify(h, b) == Identify(h, a)
  {
    var x, y := ToJcs(a.value), ToJcs(b.value);
    SameToolSameName(a, b);
    SameMeaningKeeps(x, y, 0);
    FitsIffNesting(x, 0);
    FitsIffNesting(y, 0);
    RoundTrip.CanonicalTextNamesMeaning(x, y);
  }

  /** Without collisions, descriptors with equal hashes mean the same. */
  lemma {:induction false} SameHashSameTool(h: Hashes, a: ToolDescriptor, b: ToolDescriptor)
    requires h.CollisionFree() && Identify(h, a).Ok? && Identify(h, b).Ok?
    requires Identify(h, a).value.hash == Identify(h, b).value.hash
    ensures SameTool(a, b)
  {
    DescriptorHashIff(h, a.value, b.value);
  }

  // ---- Catalogs as multisets of pins ----------------------------------------------------

  predicate AllIdentifiable(h: Hashes, tools: seq<ToolDescriptor>) {
    forall i | 0 <= i < |tools| :: Identify(h, tools[i]).Ok?
  }

  function PinsOf(h: Hashes, tools: seq<ToolDescriptor>): (r: seq<Pin>)
    requires AllIdentifiable(h, tools)
    ensures |r| == |tools|
    ensures forall i | 0 <= i < |r| :: Identify(h, tools[i]) == Ok(r[i])
  {
    seq(|tools|, i requires 0 <= i < |tools| => Identify(h, tools[i]).value)
  }

  lemma {:induction false} ObserveIsPinsOf(h: Hashes, tools: seq<ToolDescriptor>)
    ensures Observe(h, tools).error.None? <==> AllIdentifiable(h, tools)
    ensures AllIdentifiable(h, tools) ==> Observe(h, tools).seen == PinsOf(h, tools)
  {
    if AllIdentifiable(h, tools) {
      AllIdentified(h, tools);
    }
    if Observe(h, tools).error.None? {
      forall i | 0 <= i < |tools|
        ensures Identify(h, tools[i]) == Ok(Observe(h, tools).seen[i])
      {
        ObservedEntry(h, tools, i);
      }
    }
  }

  /** The pin of a tool; what it gives for a tool without one does not matter. */
  function PinOf(h: Hashes): ToolDescriptor -> Pin {
    tool => if Identify(h, tool).Ok? then Identify(h, tool).value else Pin("", "")
  }

  lemma {:induction false} PinsOfMapped(h: Hashes, tools: seq<ToolDescriptor>)
    requires AllIdentifiable(h, tools)
    ensures Mapped(PinOf(h), tools, PinsOf(h, tools))
  {
  }

  lemma {:induction false} PinsOfWithout(h: Hashes, tools: seq<ToolDescriptor>, j: nat)
    requires AllIdentifiable(h, tools) && j < |tools|
    ensures AllIdentifiable(h, Without(tools, j))
    ensures PinsOf(h, Without(tools, j)) == Without(PinsOf(h, tools), j)
  {
    forall k | 0 <= k < |tools| - 1
      ensures Identify(h, Without(tools, j)[k]).Ok?
    {
      WithoutAt(tools, j, k);
    }
    PinsOfMapped(h, tools);
    PinsOfMapped(h, Without(tools, j));
    MappedWithout(PinOf(h), tools, PinsOf(h, tools), j);
    MappedUnique(PinOf(h), Without(tools, j), PinsOf(h, Without(tools, j)), Without(PinsOf(h, tools), j));
  }

  /** Two catalogs have the same pins if they do once a pair of equal pins is taken out. */
  lemma {:induction false} PinsPaired(h: Hashes, a: seq<ToolDescriptor>, b: seq<ToolDescriptor>, j: nat)
    requires AllIdentifiable(h, a) && AllIdentifiable(h, b)
    requires a != [] && j < |b| && PinsOf(h, a)[0] == PinsOf(h, b)[j]
    ensures AllIdentifiable(h, a[1..]) && AllIdentifiable(h, Without(b, j))
    ensures multiset(PinsOf(h, a)) == multiset(PinsOf(h, b))
       <==> multiset(PinsOf(h, a[1..])) == multiset(PinsOf(h, Without(b, j)))
  {
    WithoutFirst(a);
    PinsOfWithout(h, a, 0);
    PinsOfWithout(h, b, j);
    WithoutSame(PinsOf(h, a), 0, PinsOf(h, b), j);
  }

  lemma {:induction false} SameToolsIdentifiable(h: Hashes, a: seq<ToolDescriptor>, b: seq<ToolDescriptor>)
    requires AllIdentifiable(h, a)
    ensures SameTools(a, b) ==> AllIdentifiable(h, b)
  {
    if a != [] && SameTools(a, b) {
      var j :| 0 <= j < |b| && SameTool(a[0], b[j]) && SameTools(a[1..], Without(b, j));
      SameToolSamePin(h, a[0], b[j]);
      assert AllIdentifiable(h, a[1..]);
      SameToolsIdentifiable(h, a[1..], Without(b, j));
      RestIdentifiable(h, b, j);
    }
  }

  lemma {:induction false} RestIdentifiable(h: Hashes, tools: seq<ToolDescriptor>, j: nat)
    requires j < |tools| && Identify(h, tools[j]).Ok? && AllIdentifiable(h, Without(tools, j))
    ensures AllIdentifiable(h, tools)
  {
    AllWithout(tool => Identify(h, tool).Ok?, tools, j);
  }

  lemma {:induction false} SameToolsSamePins(h: Hashes, a: seq<ToolDescriptor>, b: seq<ToolDescriptor>)
    requires AllIdentifiable(h, a) && AllIdentifiable(h, b)
    ensures SameTools(a, b) ==> multiset(PinsOf(h, a)) == multiset(PinsOf(h, b))
  {
    if a != [] && SameTools(a, b) {
      var j :| 0 <= j < |b| && SameTool(a[0], b[j]) && SameTools(a[1..], Without(b, j));
      SameToolSamePin(h, a[0], b[j]);
      PinsPaired(h, a, b, j);
      SameToolsSamePins(h, a[1..], Without(b, j));
    }
  }

  lemma {:induction false} HashesOfWithout(seen: seq<Pin>, j: nat)
    requires j < |seen|
    ensures HashesOf(Without(seen, j)) == Without(HashesOf(seen), j)
  {
    var hash := (p: Pin) => p.hash;
    MappedWithout(hash, seen, HashesOf(seen), j);
    MappedUnique(hash, Without(seen, j), HashesOf(Without(seen, j)), Without(HashesOf(seen), j));
  }

  lemma {:induction false} HashesPaired(h: Hashes, a: seq<ToolDescriptor>, b: seq<ToolDescriptor>, j: nat)
    requires AllIdentifiable(h, a) && AllIdentifiable(h, b)
    requires a != [] && j < |b| && PinsOf(h, a)[0].hash == PinsOf(h, b)[j].hash
    ensures AllIdentifiable(h, a[1..]) && AllIdentifiable(h, Without(b, j))
    ensures multiset(HashesOf(PinsOf(h, a))) == multiset(HashesOf(PinsOf(h, b)))
       <==> multiset(HashesOf(PinsOf(h, a[1..]))) == multiset(HashesOf(PinsOf(h, Without(b, j))))
  {
    WithoutFirst(a);
    PinsOfWithout(h, a, 0);
    PinsOfWithout(h, b, j);
    HashesOfWithout(PinsOf(h, a), 0);
    HashesOfWithout(PinsOf(h, b), j);
    WithoutSame(HashesOf(PinsOf(h, a)), 0, HashesOf(PinsOf(h, b)), j);
  }

  lemma {:induction false} SameHashesSameTools(h: Hashes, a: seq<ToolDescriptor>, b: seq<ToolDescriptor>)
    requires h.CollisionFree() && AllIdentifiable(h, a) && AllIdentifiable(h, b)
    requires multiset(HashesOf(PinsOf(h, a))) == multiset(HashesOf(PinsOf(h, b)))
    ensures SameTools(a, b)
  {
    var x, y := HashesOf(PinsOf(h, a)), HashesOf(PinsOf(h, b));
    SameElements(x, y);
    if a != [] {
      assert x[0] in y;
      var j :| 0 <= j < |y| && y[j] == x[0];
      SameHashSameTool(h, a[0], b[j]);
      HashesPaired(h, a, b, j);
      SameHashesSameTools(h, a[1..], Without(b, j));
    }
  }

  lemma {:induction false} HashesOfPermute(a: seq<Pin>, b: seq<Pin>)
    requires multiset(a) == multiset(b)
    ensures multiset(HashesOf(a)) == multiset(HashesOf(b))
  {
    MappedPermute((p: Pin) => p.hash, a, HashesOf(a), b, HashesOf(b));
  }

  /** Without collisions, catalogs are the same exactly when their descriptor hashes are. */
  lemma {:induction false} SameToolsIffSamePins(h: Hashes, a: seq<ToolDescriptor>, b: seq<ToolDescriptor>)
    requires h.CollisionFree() && AllIdentifiable(h, a)
    ensures SameTools(a, b)
       <==> AllIdentifiable(h, b) && multiset(PinsOf(h, a)) == multiset(PinsOf(h, b))
  {
    if SameTools(a, b) {
      SameToolsIdentifiable(h, a, b);
      SameToolsSamePins(h, a, b);
    } else if AllIdentifiable(h, b) && multiset(PinsOf(h, a)) == multiset(PinsOf(h, b)) {
      HashesOfPermute(PinsOf(h, a), PinsOf(h, b));
      SameHashesSameTools(h, a, b);
    }
  }

  /** The hashes alone decide it, names being part of what is hashed. */
  lemma {:induction false} SameToolsIffSameHashes(h: Hashes, a: seq<ToolDescriptor>, b: seq<ToolDescriptor>)
    requires h.CollisionFree() && AllIdentifiable(h, a) && AllIdentifiable(h, b)
    ensures SameTools(a, b) <==> multiset(HashesOf(PinsOf(h, a))) == multiset(HashesOf(PinsOf(h, b)))
  {
    if SameTools(a, b) {
      SameToolsSamePins(h, a, b);
      HashesOfPermute(PinsOf(h, a), PinsOf(h, b));
    } else if multiset(HashesOf(PinsOf(h, a))) == multiset(HashesOf(PinsOf(h, b))) {
      SameHashesSameTools(h, a, b);
    }
  }

  // ---- Distinct names make relations multisets ------------------------------------------

  predicate DistinctPins(seen: seq<Pin>) {
    forall i, j | 0 <= i < j < |seen| :: seen[i].name != seen[j].name
  }

  lemma {:induction false} DistinctPinsOf(h: Hashes, tools: seq<ToolDescriptor>)
    requires AllIdentifiable(h, tools) && DistinctToolNames(tools)
    ensures DistinctPins(PinsOf(h, tools))
  {
    forall i | 0 <= i < |tools|
      ensures tools[i].Name() == Some(PinsOf(h, tools)[i].name)
    {
      assert Identify(h, tools[i]).Ok?;
    }
  }

  lemma {:induction false} OnePin(seen: seq<Pin>, p: Pin)
    requires DistinctPins(seen)
    ensures multiset(seen)[p] == if p in seen then 1 else 0
  {
    if p in seen {
      var i :| 0 <= i < |seen| && seen[i] == p;
      assert seen == seen[..i] + [seen[i]] + seen[i + 1..];
      assert p !in seen[..i] && p !in seen[i + 1..];
    }
  }

  lemma {:induction false} SamePinSets(a: seq<Pin>, b: seq<Pin>)
    requires DistinctPins(a) && DistinctPins(b)
    ensures (forall p :: p in a <==> p in b) <==> multiset(a) == multiset(b)
  {
    if forall p :: p in a <==> p in b {
      forall p
        ensures multiset(a)[p] == multiset(b)[p]
      {
        OnePin(a, p);
        OnePin(b, p);
      }
    }
    if multiset(a) == multiset(b) {
      forall p
        ensures p in a <==> p in b
      {
        assert p in a <==> p in multiset(a);
        assert p in b <==> p in multiset(b);
      }
    }
  }

  /** Against the pins of one catalog, another is without drift exactly when their pins agree. */
  lemma {:induction false} CleanIffSamePins(a: seq<Pin>, b: seq<Pin>)
    requires DistinctPins(a) && DistinctPins(b)
    ensures PinsMatch(LastWins(a), b) <==> multiset(a) == multiset(b)
  {
    SamePinSets(a, b);
    LastWinsMatchesIff(a);
    forall p
      ensures p in a <==> p.name in LastWins(a) && LastWins(a)[p.name] == p.hash
    {
      assert Pin(p.name, p.hash) in a <==> p in a;
    }
    if PinsMatch(LastWins(a), b) {
      forall p
        ensures p in a <==> p in b
      {
        assert Pin(p.name, p.hash) in b <==> p in b;
      }
    }
    if forall p :: p in a <==> p in b {
      forall name, hash
        ensures (name in LastWins(a) && LastWins(a)[name] == hash) <==> Pin(name, hash) in b
      {
        assert Pin(name, hash) in a <==> Pin(name, hash) in b;
      }
    }
  }

  // ---- Names that repeat ----------------------------------------------------------------

  function ToolNames(tools: seq<ToolDescriptor>): (r: seq<Option<string>>)
    ensures |r| == |tools|
  {
    seq(|tools|, i requires 0 <= i < |tools| => tools[i].Name())
  }

  /** Each name is listed as often in one catalog as in the other. */
  predicate SameNames(a: seq<ToolDescriptor>, b: seq<ToolDescriptor>) {
    multiset(ToolNames(a)) == multiset(ToolNames(b))
  }

  /** Tools of one name have one hash. */
  predicate RepeatsAgree(h: Hashes, tools: seq<ToolDescriptor>) {
    SameNameSameHash(Observe(h, tools).seen)
  }

  lemma {:induction false} SameNamesIff(h: Hashes, a: seq<ToolDescriptor>, b: seq<ToolDescriptor>)
    requires AllIdentifiable(h, a) && AllIdentifiable(h, b)
    ensures SameNames(a, b) <==> multiset(NameList(PinsOf(h, a))) == multiset(NameList(PinsOf(h, b)))
  {
    NamesMapped(h, a);
    NamesMapped(h, b);
    var x, y := NameList(PinsOf(h, a)), NameList(PinsOf(h, b));
    if multiset(x) == multiset(y) {
      MappedPermute((n: string) => Some(n), x, ToolNames(a), y, ToolNames(b));
    }
    if SameNames(a, b) {
      MappedPermute((o: Option<string>) => GivenName(o), ToolNames(a), x, ToolNames(b), y);
    }
  }

  function GivenName(name: Option<string>): string {
    if name.Some? then name.value else ""
  }

  lemma {:induction false} NamesMapped(h: Hashes, tools: seq<ToolDescriptor>)
    requires AllIdentifiable(h, tools)
    ensures forall i | 0 <= i < |tools| :: ToolNames(tools)[i] == Some(NameList(PinsOf(h, tools))[i])
  {
    forall i | 0 <= i < |tools|
      ensures ToolNames(tools)[i] == Some(NameList(PinsOf(h, tools))[i])
    {
      PinNames(h, tools, i);
    }
  }

  lemma {:induction false} PinsMatchPermutes(pins: map<string, string>, a: seq<Pin>, b: seq<Pin>)
    requires multiset(a) == multiset(b) && PinsMatch(pins, a)
    ensures PinsMatch(pins, b)
  {
    SameElements(a, b);
  }

  lemma {:induction false} PinsByName(pins: map<string, string>, seen: seq<Pin>, pin: string -> Pin)
    requires PinsMatch(pins, seen)
    requires forall n | n in pins :: pin(n) == Pin(n, pins[n])
    ensures Mapped(pin, NameList(seen), seen)
  {
    forall i | 0 <= i < |seen|
      ensures seen[i] == pin(NameList(seen)[i])
    {
      assert Pin(seen[i].name, seen[i].hash) in seen;
    }
  }

  /** What matches the same pins and has the same names, repetitions counted, is the same. */
  lemma {:induction false} MatchesSameNames(pins: map<string, string>, a: seq<Pin>, b: seq<Pin>)
    requires PinsMatch(pins, a) && PinsMatch(pins, b)
    requires multiset(NameList(a)) == multiset(NameList(b))
    ensures multiset(a) == multiset(b)
  {
    var pin := (n: string) => Pin(n, if n in pins then pins[n] else "");
    PinsByName(pins, a, pin);
    PinsByName(pins, b, pin);
    MappedPermute(pin, NameList(a), a, NameList(b), b);
  }

  lemma {:induction false} NameListPermutes(a: seq<Pin>, b: seq<Pin>)
    requires multiset(a) == multiset(b)
    ensures multiset(NameList(a)) == multiset(NameList(b))
  {
    MappedPermute((p: Pin) => p.name, a, NameList(a), b, NameList(b));
  }

  /**
   Matching the pins of `a` and being `a` are the same thing when the names agree and no name of
   `a` has two hashes; otherwise they exclude each other.
   */
  lemma {:induction false} MatchingIsSameIff(a: seq<Pin>, b: seq<Pin>)
    ensures if multiset(NameList(a)) == multiset(NameList(b)) && SameNameSameHash(a)
            then PinsMatch(LastWins(a), b) <==> multiset(a) == multiset(b)
            else !(PinsMatch(LastWins(a), b) && multiset(a) == multiset(b))
  {
    LastWinsMatchesIff(a);
    if multiset(a) == multiset(b) {
      NameListPermutes(a, b);
      if PinsMatch(LastWins(a), b) {
        PinsMatchPermutes(LastWins(a), b, a);
      } else if SameNameSameHash(a) {
        PinsMatchPermutes(LastWins(a), a, b);
      }
    } else if multiset(NameList(a)) == multiset(NameList(b)) && SameNameSameHash(a) && PinsMatch(LastWins(a), b) {
      MatchesSameNames(LastWins(a), a, b);
    }
  }

  // ---- The guarantee --------------------------------------------------------------------

  /** `verify` returns a report without drift. */
  ghost predicate Clean(h: Hashes, catalog: ToolCatalog, pins: map<string, string>) {
    Verified(h, catalog, pins).Ok? && !Verified(h, catalog, pins).value.HasDrift()
  }

  /** A clean observation's pins match those of the catalog accepted before, and the other way round. */
  lemma {:induction false} CleanIffMatches(h: Hashes, state: StoreState, pinned: ToolCatalog, observed: ToolCatalog)
    requires AllIdentifiable(h, pinned.tools)
    ensures Clean(h, observed, Repinned(h, state, pinned).0.pins)
       <==> && AllIdentifiable(h, observed.tools)
            && PinsMatch(LastWins(PinsOf(h, pinned.tools)), PinsOf(h, observed.tools))
  {
    ObserveIsPinsOf(h, pinned.tools);
    RepinReplaces(h, state, pinned);
    ObserveIsPinsOf(h, observed.tools);
    if AllIdentifiable(h, observed.tools) {
      NoDriftIffPinsMatch(h, LastWins(PinsOf(h, pinned.tools)), PinsOf(h, observed.tools));
    }
  }

  /**
   What a verdict without drift says about the catalog, for all catalogs and whatever the store
   held before, given a hash without collisions. Being the same catalog leaves open the order of
   tools, the order of object members at every level, and the sign of zero.

   If both catalogs list the same names equally often and the pinned one gives no name two hashes,
   then `observed` is clean exactly when it is `pinned`. Otherwise it is never both: a clean one is
   another catalog, and the pinned catalog itself is reported as drift. Catalogs that repeat no
   name need neither condition.
   */
  lemma {:induction false} CleanMeansPinned(h: Hashes, state: StoreState, pinned: ToolCatalog, observed: ToolCatalog)
    requires h.CollisionFree()
    requires Repinned(h, state, pinned).1.Ok?
    ensures var clean, same :=
              Clean(h, observed, Repinned(h, state, pinned).0.pins), SameTools(pinned.tools, observed.tools);
            if SameNames(pinned.tools, observed.tools) && RepeatsAgree(h, pinned.tools)
            then clean <==> same
            else !(clean && same)
    ensures DistinctToolNames(pinned.tools) && DistinctToolNames(observed.tools) ==>
              (Clean(h, observed, Repinned(h, state, pinned).0.pins) <==> SameTools(pinned.tools, observed.tools))
  {
    ObserveIsPinsOf(h, pinned.tools);
    CleanIffMatches(h, state, pinned, observed);
    SameToolsIffSamePins(h, pinned.tools, observed.tools);
    if AllIdentifiable(h, observed.tools) {
      var a, b := PinsOf(h, pinned.tools), PinsOf(h, observed.tools);
      SameNamesIff(h, pinned.tools, observed.tools);
      MatchingIsSameIff(a, b);
      if DistinctToolNames(pinned.tools) && DistinctToolNames(observed.tools) {
        DistinctPinsOf(h, pinned.tools);
        DistinctPinsOf(h, observed.tools);
        CleanIffSamePins(a, b);
      }
    }
  }

  /** The catalog hash recorded at the re-pin is the observed one. */
  ghost predicate SameCatalogHash(h: Hashes, store: StoreState, observed: ToolCatalog) {
    && Verified(h, observed, store.pins).Ok?
    && store.catalogHash == Some(Verified(h, observed, store.pins).value.observedCatalogHash)
  }

  /** Both catalog hashes, spelled out. */
  lemma {:induction false} CatalogHashesCompared(
    h: Hashes, state: StoreState, pinned: ToolCatalog, observed: ToolCatalog)
    requires AllIdentifiable(h, pinned.tools)
    ensures SameCatalogHash(h, Repinned(h, state, pinned).0, observed)
       <==> && AllIdentifiable(h, observed.tools)
            && CatalogHash(h, HashesOf(PinsOf(h, pinned.tools))) == CatalogHash(h, HashesOf(PinsOf(h, observed.tools)))
  {
    ObserveIsPinsOf(h, pinned.tools);
    RepinReplaces(h, state, pinned);
    ObserveIsPinsOf(h, observed.tools);
  }

  /**
   The catalog hash tells what the verdict cannot: for all catalogs, repeated names or not, the
   stored hash is the observed one exactly when the observed catalog is the pinned one.
   */
  lemma {:induction false} CatalogHashMeansPinned(
    h: Hashes, state: StoreState, pinned: ToolCatalog, observed: ToolCatalog)
    requires h.CollisionFree()
    requires Repinned(h, state, pinned).1.Ok?
    ensures SameCatalogHash(h, Repinned(h, state, pinned).0, observed) <==> SameTools(pinned.tools, observed.tools)
  {
    ObserveIsPinsOf(h, pinned.tools);
    CatalogHashesCompared(h, state, pinned, observed);
    if AllIdentifiable(h, observed.tools) {
      SameToolsIffSameHashes(h, pinned.tools, observed.tools);
      AllPinsNulFree(h, pinned.tools);
      AllPinsNulFree(h, observed.tools);
      CatalogHashIff(h, HashesOf(PinsOf(h, pinned.tools)), HashesOf(PinsOf(h, observed.tools)));
    } else {
      SameToolsIffSamePins(h, pinned.tools, observed.tools);
    }
  }

  /**
   A clean report carries the catalog hash recorded at the re-pin if the names agree or do not
   repeat, and no hash property is needed for that. Without collisions it does so only if they agree.
   */
  lemma {:induction false} CleanCatalogHash(h: Hashes, state: StoreState, pinned: ToolCatalog, observed: ToolCatalog)
    requires Repinned(h, state, pinned).1.Ok?
    requires Clean(h, observed, Repinned(h, state, pinned).0.pins)
    ensures var same := SameCatalogHash(h, Repinned(h, state, pinned).0, observed);
            && (SameNames(pinned.tools, observed.tools) && RepeatsAgree(h, pinned.tools) ==> same)
            && (DistinctToolNames(pinned.tools) && DistinctToolNames(observed.tools) ==> same)
            && (h.CollisionFree() && same ==>
                  SameNames(pinned.tools, observed.tools) && RepeatsAgree(h, pinned.tools))
  {
    ObserveIsPinsOf(h, pinned.tools);
    CleanIffMatches(h, state, pinned, observed);
    CatalogHashesCompared(h, state, pinned, observed);
    var a, b := PinsOf(h, pinned.tools), PinsOf(h, observed.tools);
    SameNamesIff(h, pinned.tools, observed.tools);
    MatchingIsSameIff(a, b);
    if DistinctToolNames(pinned.tools) && DistinctToolNames(observed.tools) {
      DistinctPinsOf(h, pinned.tools);
      DistinctPinsOf(h, observed.tools);
      CleanIffSamePins(a, b);
    }
    if multiset(a) == multiset(b) {
      HashesOfPermute(a, b);
      CatalogHashPermutes(h, HashesOf(a), HashesOf(b));
    }
    if h.CollisionFree() && SameCatalogHash(h, Repinned(h, state, pinned).0, observed) {
      CatalogHashMeansPinned(h, state, pinned, observed);
      CleanMeansPinned(h, state, pinned, observed);
    }
  }

  // ---- Catalogs with repeated names -----------------------------------------------------

  /** No later tool of the catalog has the name of the one at `j`. */
  predicate LastOfItsName(tools: seq<ToolDescriptor>, j: nat)
    requires j < |tools|
  {
    forall k | j < k < |tools| :: tools[k].Name() != tools[j].Name()
  }

  /** The last pinned tool of some name means the same as `tool`. */
  ghost predicate HasLastTwin(pinned: seq<ToolDescriptor>, tool: ToolDescriptor) {
    exists j | 0 <= j < |pinned| :: LastOfItsName(pinned, j) && SameTool(pinned[j], tool)
  }

  predicate HasNamesake(observed: seq<ToolDescriptor>, name: Option<string>) {
    exists i | 0 <= i < |observed| :: observed[i].Name() == name
  }

  /** Every observed tool is the last pinned tool of its name, and every pinned name is observed. */
  ghost predicate Covers(pinned: seq<ToolDescriptor>, observed: seq<ToolDescriptor>) {
    && (forall i | 0 <= i < |observed| :: HasLastTwin(pinned, observed[i]))
    && (forall j | 0 <= j < |pinned| :: HasNamesake(observed, pinned[j].Name()))
  }

  lemma {:induction false} LastExists(tools: seq<ToolDescriptor>, j: nat) returns (k: nat)
    requires j < |tools|
    ensures j <= k < |tools| && tools[k].Name() == tools[j].Name() && LastOfItsName(tools, k)
    decreases |tools| - j
  {
    if l :| j < l < |tools| && tools[l].Name() == tools[j].Name() {
      k := LastExists(tools, l);
    } else {
      k := j;
    }
  }

  lemma {:induction false} PinNames(h: Hashes, tools: seq<ToolDescriptor>, i: nat)
    requires AllIdentifiable(h, tools) && i < |tools|
    ensures tools[i].Name() == Some(PinsOf(h, tools)[i].name)
  {
    assert Identify(h, tools[i]).Ok?;
  }

  lemma {:induction false} LastPinWins(h: Hashes, tools: seq<ToolDescriptor>, j: nat)
    requires AllIdentifiable(h, tools) && j < |tools| && LastOfItsName(tools, j)
    ensures var pins, p := LastWins(PinsOf(h, tools)), PinsOf(h, tools)[j];
            p.name in pins && pins[p.name] == p.hash
  {
    PinNames(h, tools, j);
    forall k | j < k < |tools|
      ensures PinsOf(h, tools)[k].name != PinsOf(h, tools)[j].name
    {
      PinNames(h, tools, k);
    }
    LastWinsIsLast(PinsOf(h, tools), j);
  }

  lemma {:induction false} TwinIsUnchanged(h: Hashes, pinned: seq<ToolDescriptor>, tool: ToolDescriptor)
    requires AllIdentifiable(h, pinned)
    ensures HasLastTwin(pinned, tool) ==>
              && Identify(h, tool).Ok?
              && Classify(LastWins(PinsOf(h, pinned)), Identify(h, tool).value) == Unchanged
  {
    if j :| 0 <= j < |pinned| && LastOfItsName(pinned, j) && SameTool(pinned[j], tool) {
      SameToolSamePin(h, pinned[j], tool);
      LastPinWins(h, pinned, j);
    }
  }

  lemma {:induction false} UnchangedHasTwin(h: Hashes, pinned: seq<ToolDescriptor>, tool: ToolDescriptor)
    requires h.CollisionFree() && AllIdentifiable(h, pinned) && Identify(h, tool).Ok?
    requires Classify(LastWins(PinsOf(h, pinned)), Identify(h, tool).value) == Unchanged
    ensures HasLastTwin(pinned, tool)
  {
    var a, name := PinsOf(h, pinned), Identify(h, tool).value.name;
    PinAllMerges(map[], a);
    var p :| p in a && p.name == name;
    var l :| 0 <= l < |a| && a[l] == p;
    var j := LastExists(pinned, l);
    PinNames(h, pinned, l);
    PinNames(h, pinned, j);
    LastPinWins(h, pinned, j);
    SameHashSameTool(h, pinned[j], tool);
  }

  lemma {:induction false} NamesakeIff(h: Hashes, observed: seq<ToolDescriptor>, name: string)
    requires AllIdentifiable(h, observed)
    ensures HasNamesake(observed, Some(name)) <==> name in NamesOf(PinsOf(h, observed))
  {
    var b := PinsOf(h, observed);
    forall i | 0 <= i < |observed|
      ensures observed[i].Name() == Some(b[i].name)
    {
      PinNames(h, observed, i);
    }
    if name in NamesOf(b) {
      var p :| p in b && p.name == name;
      var i :| 0 <= i < |b| && b[i] == p;
      assert observed[i].Name() == Some(name);
    }
    if HasNamesake(observed, Some(name)) {
      var i :| 0 <= i < |observed| && observed[i].Name() == Some(name);
      assert b[i] in b;
    }
  }

  lemma {:induction false} AllNamesakesIff(h: Hashes, pinned: seq<ToolDescriptor>, observed: seq<ToolDescriptor>)
    requires AllIdentifiable(h, pinned) && AllIdentifiable(h, observed)
    ensures (forall j | 0 <= j < |pinned| :: HasNamesake(observed, pinned[j].Name()))
       <==> LastWins(PinsOf(h, pinned)).Keys <= NamesOf(PinsOf(h, observed))
  {
    var a := PinsOf(h, pinned);
    PinAllMerges(map[], a);
    forall j | 0 <= j < |pinned|
      ensures HasNamesake(observed, pinned[j].Name()) <==> a[j].name in NamesOf(PinsOf(h, observed))
    {
      PinNames(h, pinned, j);
      NamesakeIff(h, observed, a[j].name);
    }
    forall n | n in NamesOf(a)
      ensures exists j | 0 <= j < |a| :: a[j].name == n
    {
      var p :| p in a && p.name == n;
      var j :| 0 <= j < |a| && a[j] == p;
    }
    assert forall j | 0 <= j < |a| :: a[j] in a;
  }

  lemma {:induction false} TwinIff(h: Hashes, pinned: seq<ToolDescriptor>, tool: ToolDescriptor)
    requires h.CollisionFree() && AllIdentifiable(h, pinned) && Identify(h, tool).Ok?
    ensures HasLastTwin(pinned, tool)
       <==> Classify(LastWins(PinsOf(h, pinned)), Identify(h, tool).value) == Unchanged
  {
    if HasLastTwin(pinned, tool) {
      TwinIsUnchanged(h, pinned, tool);
    } else if Classify(LastWins(PinsOf(h, pinned)), Identify(h, tool).value) == Unchanged {
      UnchangedHasTwin(h, pinned, tool);
    }
  }

  predicate EachUnchanged(pins: map<string, string>, seen: seq<Pin>) {
    forall i | 0 <= i < |seen| :: Classify(pins, seen[i]) == Unchanged
  }

  lemma {:induction false} EachIsAll(pins: map<string, string>, seen: seq<Pin>)
    ensures AllUnchanged(pins, seen) <==> EachUnchanged(pins, seen) && pins.Keys <= NamesOf(seen)
  {
    assert forall i | 0 <= i < |seen| :: seen[i] in seen;
  }

  lemma {:induction false} CoversIffUnchanged(h: Hashes, pinned: seq<ToolDescriptor>, observed: seq<ToolDescriptor>)
    requires h.CollisionFree() && AllIdentifiable(h, pinned) && AllIdentifiable(h, observed)
    ensures Covers(pinned, observed) <==> AllUnchanged(LastWins(PinsOf(h, pinned)), PinsOf(h, observed))
  {
    var pins, b := LastWins(PinsOf(h, pinned)), PinsOf(h, observed);
    AllNamesakesIff(h, pinned, observed);
    EachIsAll(pins, b);
    forall i | 0 <= i < |observed|
      ensures HasLastTwin(pinned, observed[i]) <==> Classify(pins, b[i]) == Unchanged
    {
      TwinIff(h, pinned, observed[i]);
    }
  }

  lemma {:induction false} CoversIdentifiable(h: Hashes, pinned: seq<ToolDescriptor>, observed: seq<ToolDescriptor>)
    requires AllIdentifiable(h, pinned) && Covers(pinned, observed)
    ensures AllIdentifiable(h, observed)
  {
    forall i | 0 <= i < |observed|
      ensures Identify(h, observed[i]).Ok?
    {
      TwinIsUnchanged(h, pinned, observed[i]);
    }
  }

  lemma {:induction false} CleanIffUnchanged(h: Hashes, pins: map<string, string>, observed: ToolCatalog)
    ensures Clean(h, observed, pins)
       <==> AllIdentifiable(h, observed.tools) && AllUnchanged(pins, PinsOf(h, observed.tools))
  {
    ObserveIsPinsOf(h, observed.tools);
    if AllIdentifiable(h, observed.tools) {
      NoDriftIffAllUnchanged(h, pins, PinsOf(h, observed.tools));
    }
  }

  /**
   The same guarantee for all catalogs, repeated names included: without drift, every observed tool
   is the last pinned one of its name, and no pinned name is missing; and the other way round.
   */
  lemma {:induction false} CleanIffCovers(h: Hashes, state: StoreState, pinned: ToolCatalog, observed: ToolCatalog)
    requires h.CollisionFree()
    requires Repinned(h, state, pinned).1.Ok?
    ensures Clean(h, observed, Repinned(h, state, pinned).0.pins) <==> Covers(pinned.tools, observed.tools)
  {
    RepinReplaces(h, state, pinned);
    ObserveIsPinsOf(h, pinned.tools);
    CleanIffUnchanged(h, LastWins(PinsOf(h, pinned.tools)), observed);
    if Covers(pinned.tools, observed.tools) {
      CoversIdentifiable(h, pinned.tools, observed.tools);
    }
    if AllIdentifiable(h, observed.tools) {
      CoversIffUnchanged(h, pinned.tools, observed.tools);
    }
  }

  /**
   Repetition alone is not drift: a catalog that lists its one pinned tool twice is clean, although
   it is a different catalog with a different catalog hash.
   */
  lemma {:induction false} RepeatedToolIsNotDrift(h: Hashes, state: StoreState, tool: ToolDescriptor)
    requires h.CollisionFree() && Identify(h, tool).Ok?
    ensures var pinned, observed := ToolCatalog([tool]), ToolCatalog([tool, tool]);
            var after := Repinned(h, state, pinned).0;
            && Clean(h, observed, after.pins) && !SameTools(pinned.tools, observed.tools)
            && after.catalogHash != Some(Verified(h, observed, after.pins).value.observedCatalogHash)
  {
    var once, twice := [tool], [tool, tool];
    ObserveIsPinsOf(h, once);
    ObserveIsPinsOf(h, twice);
    RepinReplaces(h, state, ToolCatalog(once));
    TwiceIsCovered(tool);
    CleanIffCovers(h, state, ToolCatalog(once), ToolCatalog(twice));
    OtherHashes(h, PinsOf(h, once), PinsOf(h, twice));
    SameToolsIffSamePins(h, once, twice);
    AllPinsNulFree(h, once);
    AllPinsNulFree(h, twice);
    CatalogHashIff(h, HashesOf(PinsOf(h, once)), HashesOf(PinsOf(h, twice)));
  }

  /** Another tool with the name of the plain one, which differs in having a title. */
  const TITLED_TOOL := ToolDescriptor(SObject([SerdeEntry("name", SString("a")), SerdeEntry("title", SNull)]))

  /**
   Two different tools of one name are drift from the start: the catalog that lists both is accepted,
   and the very same catalog is reported as changed.
   */
  lemma {:induction false} RepeatedNameDrifts(h: Hashes, state: StoreState)
    requires h.CollisionFree()
    ensures var catalog := ToolCatalog([PLAIN_TOOL, TITLED_TOOL]);
            && Repinned(h, state, catalog).1.Ok?
            && SameTools(catalog.tools, catalog.tools)
            && !Clean(h, catalog, Repinned(h, state, catalog).0.pins)
  {
    PlainAndTitled(h);
    TwoHashesDrift(h, state, PLAIN_TOOL, TITLED_TOOL);
  }

  lemma {:induction false} TwoHashesDrift(h: Hashes, state: StoreState, a: ToolDescriptor, b: ToolDescriptor)
    requires h.CollisionFree() && Identify(h, a).Ok? && Identify(h, b).Ok?
    requires Identify(h, a).value.name == Identify(h, b).value.name
    requires Identify(h, a).value.hash != Identify(h, b).value.hash
    ensures var catalog := ToolCatalog([a, b]);
            && Repinned(h, state, catalog).1.Ok?
            && SameTools(catalog.tools, catalog.tools)
            && !Clean(h, catalog, Repinned(h, state, catalog).0.pins)
  {
    var tools := [a, b];
    ObserveIsPinsOf(h, tools);
    assert PinsOf(h, tools)[0] == Identify(h, a).value && PinsOf(h, tools)[1] == Identify(h, b).value;
    VerifyAfterRepin(h, state, ToolCatalog(tools));
    SameToolsIffSamePins(h, tools, tools);
  }

  lemma {:induction false} PlainAndTitled(h: Hashes)
    requires h.CollisionFree()
    ensures Identify(h, PLAIN_TOOL).Ok? && Identify(h, TITLED_TOOL).Ok?
    ensures Identify(h, PLAIN_TOOL).value.name == Identify(h, TITLED_TOOL).value.name
    ensures Identify(h, PLAIN_TOOL).value.hash != Identify(h, TITLED_TOOL).value.hash
  {
    PlainAndTitledPrintable();
    NamedAlike();
    FewerMembersDiffer(ToJcs(PLAIN_TOOL.value).members, ToJcs(TITLED_TOOL.value).members);
    DescriptorHashIff(h, PLAIN_TOOL.value, TITLED_TOOL.value);
  }

  lemma {:induction false} NamedAlike()
    ensures PLAIN_TOOL.Name() == TITLED_TOOL.Name() == Some("a")
  {
  }

  lemma {:induction false} PlainAndTitledPrintable()
    ensures Printable(ToJcs(PLAIN_TOOL.value)) && Printable(ToJcs(TITLED_TOOL.value))
  {
    var x, y := ToJcs(PLAIN_TOOL.value), ToJcs(TITLED_TOOL.value);
    assert x == Object([Member("name", String("a"))]);
    assert y == Object([Member("name", String("a")), Member("title", Null)]);
    assert x.members[1..] == [] && y.members[1..] == [Member("title", Null)] && y.members[1..][1..] == [];
  }

  lemma {:induction false} FewerMembersDiffer(a: seq<Member>, b: seq<Member>)
    requires |a| < |b|
    ensures !SameMembers(a, b)
    decreases |a|
  {
    if a != [] {
      forall j | 0 <= j < |b|
        ensures !SameMembers(a[1..], Without(b, j))
      {
        FewerMembersDiffer(a[1..], Without(b, j));
      }
    }
  }

  lemma {:induction false} TwiceIsCovered(tool: ToolDescriptor)
    ensures Covers([tool], [tool, tool])
  {
    var once, twice := [tool], [tool, tool];
    SameCanonSameMeaning(ToJcs(tool.value), ToJcs(tool.value));
    assert LastOfItsName(once, 0) && SameTool(once[0], tool);
    assert twice[0].Name() == tool.Name();
  }

  lemma {:induction false} OtherHashes(h: Hashes, a: seq<Pin>, b: seq<Pin>)
    requires |a| != |b|
    ensures multiset(a) != multiset(b) && multiset(HashesOf(a)) != multiset(HashesOf(b))
  {
    assert |multiset(a)| == |a| && |multiset(b)| == |b|;
    assert |multiset(HashesOf(a))| == |a| && |multiset(HashesOf(b))| == |b|;
  }

  lemma {:induction false} AllPinsNulFree(h: Hashes, tools: seq<ToolDescriptor>)
    requires AllIdentifiable(h, tools)
    ensures AllNulFree(HashesOf(PinsOf(h, tools)))
  {
    forall i | 0 <= i < |tools|
      ensures NulFree(PinsOf(h, tools)[i].hash)
    {
      assert Identify(h, tools[i]).Ok?;
    }
  }
}
