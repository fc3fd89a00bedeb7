/** What verifying and re-pinning mean: classification of the observed tools, and history of the pins. */
module Drift {
  import opened Results
  import opened Sequences
  import opened Values
  import opened SerdePath
  import opened StringSort
  import opened Hashing
  import opened Verifier

  // ---- Classification -------------------------------------------------------------------

  function HasVerdict(pins: map<string, string>, verdict: Verdict, name: string): Pin -> bool {
    p => Classify(pins, p) == verdict && p.name == name
  }

  /** How many entries of a given name have a given verdict. */
  function Tally(pins: map<string, string>, seen: seq<Pin>, verdict: Verdict, name: string): nat {
    Count(HasVerdict(pins, verdict, name), seen)
  }

  lemma {:induction false} TallyCounts(pins: map<string, string>, seen: seq<Pin>, verdict: Verdict, name: string)
    ensures Tally(pins, seen, verdict, name) == multiset(NamesWith(pins, seen, verdict))[name]
  {
    if seen != [] {
      TallyCounts(pins, seen[..|seen| - 1], verdict, name);
    }
  }

  /** Every entry has one verdict. */
  lemma {:induction false} TalliesAddUp(pins: map<string, string>, seen: seq<Pin>, name: string)
    ensures Tally(pins, seen, Added, name) + Tally(pins, seen, Mutated, name) + Tally(pins, seen, Unchanged, name)
         == multiset(NameList(seen))[name]
  {
    if seen != [] {
      var front, last := seen[..|seen| - 1], seen[|seen| - 1];
      TalliesAddUp(pins, front, name);
      assert NameList(seen) == NameList(front) + [last.name];
    }
  }

  lemma {:induction false} AddedTally(pins: map<string, string>, seen: seq<Pin>, name: string)
    ensures Tally(pins, seen, Added, name) == if name in pins then 0 else multiset(NameList(seen))[name]
  {
    if seen != [] {
      var front, last := seen[..|seen| - 1], seen[|seen| - 1];
      AddedTally(pins, front, name);
      assert NameList(seen) == NameList(front) + [last.name];
      SnocCount(NameList(front), last.name, name);
    }
  }

  lemma {:induction false} UnchangedTally(pins: map<string, string>, seen: seq<Pin>, name: string)
    ensures Tally(pins, seen, Unchanged, name) == if name in pins then multiset(seen)[Pin(name, pins[name])] else 0
  {
    if seen != [] {
      var front, last := seen[..|seen| - 1], seen[|seen| - 1];
      UnchangedTally(pins, front, name);
      assert seen == front + [last];
      if name in pins {
        SnocCount(front, last, Pin(name, pins[name]));
      }
    }
  }

  /** Names that are not pinned are added; pinned ones are unchanged or mutated, by their hash. */
  lemma {:induction false} VerdictCounts(pins: map<string, string>, seen: seq<Pin>, x: string)
    ensures var named := multiset(NameList(seen))[x];
            var asPinned := if x in pins then multiset(seen)[Pin(x, pins[x])] else 0;
            && multiset(NamesWith(pins, seen, Added))[x] == (if x in pins then 0 else named)
            && multiset(NamesWith(pins, seen, Unchanged))[x] == asPinned
            && multiset(NamesWith(pins, seen, Mutated))[x] + asPinned == (if x in pins then named else 0)
  {
    TalliesAddUp(pins, seen, x);
    AddedTally(pins, seen, x);
    UnchangedTally(pins, seen, x);
    TallyCounts(pins, seen, Added, x);
    TallyCounts(pins, seen, Mutated, x);
    TallyCounts(pins, seen, Unchanged, x);
  }

  lemma {:induction false} PartitionedNames(pins: map<string, string>, seen: seq<Pin>)
    ensures multiset(NamesWith(pins, seen, Added)) + multiset(NamesWith(pins, seen, Mutated))
            + multiset(NamesWith(pins, seen, Unchanged))
         == multiset(NameList(seen))
  {
    var a, m, u := multiset(NamesWith(pins, seen, Added)), multiset(NamesWith(pins, seen, Mutated)),
                   multiset(NamesWith(pins, seen, Unchanged));
    forall x
      ensures a[x] + m[x] + u[x] == multiset(NameList(seen))[x]
    {
      VerdictCounts(pins, seen, x);
    }
  }

  /** Every descriptor is reported once, every vanished name once, and all lists ascend. */
  lemma {:induction false} ReportPartitions(h: Hashes, pins: map<string, string>, seen: seq<Pin>)
    ensures var r := ReportOf(h, pins, seen);
            && multiset(r.added) + multiset(r.mutated) + multiset(r.unmodified) == multiset(NameList(seen))
            && multiset(r.removed) == multiset(pins.Keys - NamesOf(seen))
            && Climbs(r.added) && Climbs(r.removed) && Climbs(r.mutated) && Climbs(r.unmodified)
  {
    PartitionedNames(pins, seen);
    SortStringsClimb(NamesWith(pins, seen, Added));
    SortStringsClimb(NamesWith(pins, seen, Mutated));
    SortStringsClimb(NamesWith(pins, seen, Unchanged));
    SortStringsClimb(SeqOf(multiset(pins.Keys - NamesOf(seen))));
  }

  /**
   Which list a name is in, and how often. An observed name without a pin is added, each time it
   occurs; one with a pin is unchanged for each descriptor with the pinned hash, and mutated for
   each other one; a pinned name that does not occur is removed, once.
   */
  ghost predicate Tells(r: DriftReport, pins: map<string, string>, seen: seq<Pin>, x: string) {
    var named := multiset(NameList(seen))[x];
    var asPinned := if x in pins then multiset(seen)[Pin(x, pins[x])] else 0;
    && multiset(r.added)[x] == (if x in pins then 0 else named)
    && multiset(r.unmodified)[x] == asPinned
    && multiset(r.mutated)[x] + asPinned == (if x in pins then named else 0)
    && multiset(r.removed)[x] == (if x in pins && named == 0 then 1 else 0)
  }

  lemma {:induction false} ReportTells(h: Hashes, catalog: ToolCatalog, pins: map<string, string>, x: string)
    ensures Verified(h, catalog, pins).Ok? ==>
              Tells(Verified(h, catalog, pins).value, pins, Observe(h, catalog.tools).seen, x)
  {
    ReportCounts(h, pins, Observe(h, catalog.tools).seen, x);
  }

  lemma {:induction false} ReportCounts(h: Hashes, pins: map<string, string>, seen: seq<Pin>, x: string)
    ensures Tells(ReportOf(h, pins, seen), pins, seen, x)
  {
    VerdictCounts(pins, seen, x);
    RemovedCount(pins.Keys, seen, x);
  }

  lemma {:induction false} RemovedCount(pinned: set<string>, seen: seq<Pin>, x: string)
    ensures multiset(pinned - NamesOf(seen))[x] == if x in pinned && multiset(NameList(seen))[x] == 0 then 1 else 0
  {
    NamedIff(seen, x);
  }

  lemma {:induction false} NamedIff(seen: seq<Pin>, x: string)
    ensures x in NamesOf(seen) <==> multiset(NameList(seen))[x] > 0
  {
    if x in NamesOf(seen) {
      var p :| p in seen && p.name == x;
      var i :| 0 <= i < |seen| && seen[i] == p;
      assert NameList(seen)[i] == x;
    }
    if multiset(NameList(seen))[x] > 0 {
      assert x in NameList(seen);
      var i :| 0 <= i < |seen| && NameList(seen)[i] == x;
      assert seen[i] in seen;
    }
  }

  predicate NoneIs(pins: map<string, string>, seen: seq<Pin>, verdict: Verdict) {
    forall p :: p in seen ==> Classify(pins, p) != verdict
  }

  lemma {:induction false} NamesWithEmpty(pins: map<string, string>, seen: seq<Pin>, verdict: Verdict)
    ensures NamesWith(pins, seen, verdict) == [] <==> NoneIs(pins, seen, verdict)
  {
    if seen != [] {
      NamesWithEmpty(pins, seen[..|seen| - 1], verdict);
      InFrontOrLast(seen);
    }
  }

  lemma {:induction false} ReportedEmpty(pins: map<string, string>, seen: seq<Pin>, verdict: Verdict)
    ensures SortStrings(NamesWith(pins, seen, verdict)) == [] <==> NoneIs(pins, seen, verdict)
  {
    NamesWithEmpty(pins, seen, verdict);
    SameElements(SortStrings(NamesWith(pins, seen, verdict)), NamesWith(pins, seen, verdict));
  }

  lemma {:induction false} EmptyListing(names: set<string>)
    ensures Listing(multiset(names)) == [] <==> names == {}
  {
    var s := Listing(multiset(names));
    assert multiset(s) == multiset(names);
    if x :| x in names {
      assert x in multiset(s);
    }
  }

  lemma {:induction false} NoneGone(pinned: set<string>, observed: set<string>)
    ensures Listing(multiset(pinned - observed)) == [] <==> pinned <= observed
  {
    EmptyListing(pinned - observed);
    forall x | x in pinned
      ensures x in observed || x in pinned - observed
    {
    }
    if pinned <= observed {
      assert pinned - observed == {};
    }
  }

  /** The pins hold exactly the observed names with the observed hashes. */
  ghost predicate PinsMatch(pins: map<string, string>, seen: seq<Pin>) {
    forall name, hash :: (name in pins && pins[name] == hash) <==> Pin(name, hash) in seen
  }

  /** Every entry carries its pinned hash, and every pin has an entry. */
  ghost predicate AllUnchanged(pins: map<string, string>, seen: seq<Pin>) {
    && (forall p :: p in seen ==> Classify(pins, p) == Unchanged)
    && pins.Keys <= NamesOf(seen)
  }

  lemma {:induction false} AllUnchangedIffPinsMatch(pins: map<string, string>, seen: seq<Pin>)
    ensures AllUnchanged(pins, seen) <==> PinsMatch(pins, seen)
  {
    if PinsMatch(pins, seen) {
      forall p | p in seen
        ensures Classify(pins, p) == Unchanged
      {
        assert Pin(p.name, p.hash) in seen;
      }
      forall n | n in pins
        ensures n in NamesOf(seen)
      {
        assert Pin(n, pins[n]) in seen;
      }
    }
    if AllUnchanged(pins, seen) {
      forall name, hash
        ensures (name in pins && pins[name] == hash) <==> Pin(name, hash) in seen
      {
        if name in pins {
          var p :| p in seen && p.name == name;
          assert p == Pin(name, pins[name]);
        }
      }
    }
  }

  lemma {:induction false} NoDriftIffAllUnchanged(h: Hashes, pins: map<string, string>, seen: seq<Pin>)
    ensures !ReportOf(h, pins, seen).HasDrift() <==> AllUnchanged(pins, seen)
  {
    ReportedEmpty(pins, seen, Added);
    ReportedEmpty(pins, seen, Mutated);
    NoneGone(pins.Keys, NamesOf(seen));
    UnchangedIffNeither(pins, seen);
  }

  lemma {:induction false} UnchangedIffNeither(pins: map<string, string>, seen: seq<Pin>)
    ensures (forall p :: p in seen ==> Classify(pins, p) == Unchanged)
       <==> NoneIs(pins, seen, Added) && NoneIs(pins, seen, Mutated)
  {
  }

  /** No drift is reported exactly when the pins and the observation are the same relation. */
  lemma {:induction false} NoDriftIffPinsMatch(h: Hashes, pins: map<string, string>, seen: seq<Pin>)
    ensures !ReportOf(h, pins, seen).HasDrift() <==> PinsMatch(pins, seen)
  {
    NoDriftIffAllUnchanged(h, pins, seen);
    AllUnchangedIffPinsMatch(pins, seen);
  }

  // ---- Re-pinning -----------------------------------------------------------------------

  /** Name to hash of the last descriptor of that name. */
  function LastWins(seen: seq<Pin>): map<string, string> {
    PinAll(map[], seen)
  }

  lemma {:induction false} PinAllMerges(pins: map<string, string>, seen: seq<Pin>)
    ensures PinAll(pins, seen) == pins + LastWins(seen)
    ensures LastWins(seen).Keys == NamesOf(seen)
  {
    if seen != [] {
      PinAllMerges(pins, seen[..|seen| - 1]);
      assert seen == seen[..|seen| - 1] + [seen[|seen| - 1]];
    }
  }

  /** A later descriptor of the same name hides an earlier one. */
  lemma {:induction false} LastWinsIsLast(seen: seq<Pin>, i: nat)
    requires i < |seen| && forall j | i < j < |seen| :: seen[j].name != seen[i].name
    ensures seen[i].name in LastWins(seen) && LastWins(seen)[seen[i].name] == seen[i].hash
  {
    if i < |seen| - 1 {
      LastWinsIsLast(seen[..|seen| - 1], i);
    }
  }

  /** Re-pinning replaces a store's content; nothing of what it held before is left. */
  lemma {:induction false} RepinReplaces(h: Hashes, state: StoreState, catalog: ToolCatalog)
    requires Observe(h, catalog.tools).error.None?
    ensures var seen := Observe(h, catalog.tools).seen;
            Repinned(h, state, catalog)
            == (StoreState(LastWins(seen), Some(CatalogHash(h, HashesOf(seen)))), Ok(()))
  {
    var seen := Observe(h, catalog.tools).seen;
    PinAllMerges(state.pins, seen);
    assert Only(PinAll(state.pins, seen), NamesOf(seen)) == LastWins(seen);
  }

  /** A failing re-pin has already overridden the pins of the tools before the failing one. */
  lemma {:induction false} FailedRepinOverrides(h: Hashes, state: StoreState, catalog: ToolCatalog)
    requires Observe(h, catalog.tools).error.Some?
    ensures var seen := Observe(h, catalog.tools).seen;
            && Repinned(h, state, catalog).0 == StoreState(state.pins + LastWins(seen), state.catalogHash)
            && Repinned(h, state, catalog).1 == Err(Observe(h, catalog.tools).error.value)
  {
    PinAllMerges(state.pins, Observe(h, catalog.tools).seen);
  }

  /**
   Re-pinning is not all-or-nothing: a failing call leaves the store as it was exactly when every
   tool before the failing one was pinned that way already.
   */
  lemma {:induction false} FailedRepinHarmlessIff(h: Hashes, state: StoreState, catalog: ToolCatalog)
    requires Observe(h, catalog.tools).error.Some?
    ensures Repinned(h, state, catalog).0 == state
       <==> LastWins(Observe(h, catalog.tools).seen).Items <= state.pins.Items
  {
    var last := LastWins(Observe(h, catalog.tools).seen);
    FailedRepinOverrides(h, state, catalog);
    var merged := state.pins + last;
    if merged == state.pins {
      forall item | item in last.Items
        ensures item in state.pins.Items
      {
        assert merged[item.0] == item.1;
      }
    }
    if last.Items <= state.pins.Items {
      forall n | n in last
        ensures n in state.pins && state.pins[n] == last[n]
      {
        assert (n, last[n]) in last.Items;
      }
      assert merged == state.pins;
    }
  }

  /** A tool named `a`. */
  const PLAIN_TOOL := ToolDescriptor(SObject([SerdeEntry("name", SString("a"))]))

  /**
   For instance: from an empty store, pinning a tool named `a` and then something without a name
   fails, and leaves `a` pinned.
   */
  lemma {:induction false} FailedRepinLeavesPin(h: Hashes)
    ensures var (after, r) := Repinned(h, StoreState(map[], None), ToolCatalog([PLAIN_TOOL, ToolDescriptor(SNull)]));
            && r == Err(MissingName)
            && Identify(h, PLAIN_TOOL).Ok?
            && after == StoreState(map["a" := Identify(h, PLAIN_TOOL).value.hash], None)
  {
    var tools := [PLAIN_TOOL, ToolDescriptor(SNull)];
    PlainToolIdentified(h);
    var pin := Identify(h, PLAIN_TOOL).value;
    assert tools[..0] == [] && tools[..1] == [PLAIN_TOOL] && tools[..2] == tools && [] + [pin] == [pin];
    ObserveNext(h, tools, 0, []);
    ObserveNext(h, tools, 1, [pin]);
    FailedRepinOverrides(h, StoreState(map[], None), ToolCatalog(tools));
    LastWinsOne(pin);
  }

  lemma {:induction false} LastWinsOne(p: Pin)
    ensures LastWins([p]) == map[p.name := p.hash]
  {
    assert [p][..0] == [] && PinAll(map[], [p]) == PinAll(map[], [])[p.name := p.hash];
  }

  lemma {:induction false} PlainToolIdentified(h: Hashes)
    ensures Identify(h, PLAIN_TOOL).Ok? && Identify(h, PLAIN_TOOL).value.name == "a"
  {
    var v := ToJcs(PLAIN_TOOL.value);
    assert v == Object([Member("name", String("a"))]);
    assert v.members[1..] == [] && Nesting(v) == 1;
  }

  /** The state after any run of re-pins, successful or not. */
  function Run(h: Hashes, state: StoreState, history: seq<ToolCatalog>): StoreState {
    if history == [] then state
    else Repinned(h, Run(h, state, history[..|history| - 1]), history[|history| - 1]).0
  }

  /** After any history, a successful re-pin leaves only what its own catalog says. */
  lemma {:induction false} RepinErasesHistory(
    h: Hashes, a: StoreState, before: seq<ToolCatalog>, b: StoreState, catalog: ToolCatalog)
    requires Observe(h, catalog.tools).error.None?
    ensures Run(h, a, before + [catalog]) == Repinned(h, b, catalog).0
  {
    assert (before + [catalog])[..|before|] == before;
    RepinReplaces(h, Run(h, a, before), catalog);
    RepinReplaces(h, b, catalog);
  }

  /** While re-pins only fail, no pin is lost and the catalog hash stays. */
  lemma {:induction false} FailuresLoseNothing(h: Hashes, state: StoreState, history: seq<ToolCatalog>)
    requires forall i | 0 <= i < |history| :: Observe(h, history[i].tools).error.Some?
    ensures state.pins.Keys <= Run(h, state, history).pins.Keys
    ensures Run(h, state, history).catalogHash == state.catalogHash
  {
    if history != [] {
      FailuresLoseNothing(h, state, history[..|history| - 1]);
      FailedRepinOverrides(h, Run(h, state, history[..|history| - 1]), history[|history| - 1]);
    }
  }

  predicate SameNameSameHash(seen: seq<Pin>) {
    forall i, j | 0 <= i < j < |seen| :: seen[i].name == seen[j].name ==> seen[i].hash == seen[j].hash
  }

  lemma {:induction false} LastWinsHolds(seen: seq<Pin>, name: string)
    requires name in LastWins(seen)
    ensures Pin(name, LastWins(seen)[name]) in seen
  {
    var front, last := seen[..|seen| - 1], seen[|seen| - 1];
    if last.name != name {
      LastWinsHolds(front, name);
      assert Pin(name, LastWins(front)[name]) in seen;
    } else {
      assert last == Pin(name, LastWins(seen)[name]);
    }
  }

  lemma {:induction false} LastWinsMatchesIff(seen: seq<Pin>)
    ensures PinsMatch(LastWins(seen), seen) <==> SameNameSameHash(seen)
  {
    PinAllMerges(map[], seen);
    if SameNameSameHash(seen) {
      forall name, hash
        ensures (name in LastWins(seen) && LastWins(seen)[name] == hash) <==> Pin(name, hash) in seen
      {
        if name in LastWins(seen) {
          LastWinsHolds(seen, name);
          assert forall p, q :: p in seen && q in seen && p.name == q.name ==> p.hash == q.hash;
        }
        if Pin(name, hash) in seen {
          assert Pin(name, hash).name in NamesOf(seen);
        }
      }
    }
    if PinsMatch(LastWins(seen), seen) {
      forall i, j | 0 <= i < j < |seen| && seen[i].name == seen[j].name
        ensures seen[i].hash == seen[j].hash
      {
        assert Pin(seen[i].name, seen[i].hash) in seen && Pin(seen[j].name, seen[j].hash) in seen;
      }
    }
  }

  /** Verifying the very catalog just pinned is clean exactly when same-named tools have equal hashes. */
  lemma {:induction false} VerifyAfterRepin(h: Hashes, state: StoreState, catalog: ToolCatalog)
    requires Observe(h, catalog.tools).error.None?
    ensures var after := Repinned(h, state, catalog).0;
            && Verified(h, catalog, after.pins).Ok?
            && (!Verified(h, catalog, after.pins).value.HasDrift()
                <==> SameNameSameHash(Observe(h, catalog.tools).seen))
  {
    var seen := Observe(h, catalog.tools).seen;
    RepinReplaces(h, state, catalog);
    NoDriftIffPinsMatch(h, LastWins(seen), seen);
    LastWinsMatchesIff(seen);
  }
}
