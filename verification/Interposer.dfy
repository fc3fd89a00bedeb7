/** The interposer: policy over a drift report, and catalogs assembled from pages. */
module Interposing {
  import opened Results
  import opened Sequences
  import opened SerdePath
  import opened StringSort
  import opened Hashing
  import opened PinStores
  import opened Verifier
  import opened Drift
  import opened EndToEnd

  datatype DriftPolicy = Report | FailClosed

  datatype Observation = Clean(report: DriftReport) | Drifted(report: DriftReport)

  datatype InterposerError = MalformedCatalog | Integrity(error: IntegrityError) | DriftError(report: DriftReport)

  datatype Outcome = Observed(observation: Observation) | Failed(error: InterposerError)

  /** The descriptors of a result: the array under `tools`, or else the result itself as array. */
  function FromToolsList(result: SerdeValue): Option<ToolCatalog> {
    var found := match result.Get("tools")
      case Some(tools) => tools.AsArray()
      case None => result.AsArray();
    if found.None? then None else Some(FromValues(found.value))
  }

  /** A page's descriptors: the array under `tools` if it is one, or else the page as array. */
  function PageTools(page: SerdeValue): Option<seq<SerdeValue>> {
    var underTools := match page.Get("tools")
      case Some(tools) => tools.AsArray()
      case None => None;
    if underTools.Some? then underTools else page.AsArray()
  }

  function NextCursor(page: SerdeValue): Option<string> {
    match page.Get("nextCursor")
    case Some(cursor) => cursor.AsStr()
    case None => None
  }

  /** The two ways of finding the descriptors accept the same results and find the same. */
  lemma {:induction false} PagesAreResults(page: SerdeValue)
    ensures FromToolsList(page).Some? <==> PageTools(page).Some?
    ensures PageTools(page).Some? ==> FromToolsList(page) == Some(FromValues(PageTools(page).value))
  {
  }

  /** Descriptors are found in an array, or in an object whose `tools` are an array, and nowhere else. */
  lemma {:induction false} PageToolsIff(page: SerdeValue, items: seq<SerdeValue>)
    ensures PageTools(page) == Some(items) <==> page == SArray(items) || HasEntry(page, "tools", SArray(items))
  {
    GetIff(page, "tools", SArray(items));
  }

  /** The cursor of a page is the string under `nextCursor`. */
  lemma {:induction false} NextCursorIff(page: SerdeValue, cursor: string)
    ensures NextCursor(page) == Some(cursor) <==> HasEntry(page, "nextCursor", SString(cursor))
  {
    GetIff(page, "nextCursor", SString(cursor));
  }

  function ApplyPolicy(policy: DriftPolicy, report: DriftReport): Outcome {
    if !report.HasDrift() then Observed(Clean(report))
    else
      match policy
      case Report => Observed(Drifted(report))
      case FailClosed => Failed(DriftError(report))
  }

  /** The verdict on a complete catalog. */
  ghost function Judged(h: Hashes, policy: DriftPolicy, pins: map<string, string>, catalog: ToolCatalog): Outcome {
    match Verified(h, catalog, pins)
    case Err(e) => Failed(Integrity(e))
    case Ok(report) => ApplyPolicy(policy, report)
  }

  /** `observe` as a function of the pins. */
  ghost function ObservedOnce(h: Hashes, policy: DriftPolicy, pins: map<string, string>, result: SerdeValue): Outcome {
    match FromToolsList(result)
    case None => Failed(MalformedCatalog)
    case Some(catalog) => Judged(h, policy, pins, catalog)
  }

  class Interposer {
    const h: Hashes
    const store: InMemoryPinStore
    const policy: DriftPolicy

    constructor (h: Hashes, store: InMemoryPinStore, policy: DriftPolicy)
      ensures this.h == h && this.store == store && this.policy == policy
    {
      this.h := h;
      this.store := store;
      this.policy := policy;
    }

    method Judge(catalog: ToolCatalog) returns (r: Outcome)
      ensures r == Judged(h, policy, store.pins, catalog)
    {
      var report := Verify(h, catalog, store);
      if report.Err? {
        return Failed(Integrity(report.error));
      }
      return ApplyPolicy(policy, report.value);
    }

    method Observe(result: SerdeValue) returns (r: Outcome)
      ensures r == ObservedOnce(h, policy, store.pins, result)
    {
      var catalog := FromToolsList(result);
      if catalog.None? {
        return Failed(MalformedCatalog);
      }
      r := Judge(catalog.value);
    }

    method RepinComplete(catalog: ToolCatalog) returns (r: Result<()>)
      modifies store
      ensures (StoreState(store.pins, store.catalogHash), r)
           == Repinned(h, old(StoreState(store.pins, store.catalogHash)), catalog)
    {
      r := Repin(h, catalog, store);
    }
  }

  /** Explicit pagination state: the descriptors of the pages so far. */
  class CatalogAccumulator {
    const interposer: Interposer
    var descriptors: seq<SerdeValue>

    constructor (interposer: Interposer)
      ensures this.interposer == interposer && descriptors == []
    {
      this.interposer := interposer;
      descriptors := [];
    }

    /** Takes in one page, or leaves everything as it was and reports the page malformed. */
    method ObservePage(page: SerdeValue) returns (ok: bool, cursor: Option<string>)
      modifies this
      ensures ok == PageTools(page).Some?
      ensures cursor == if ok then NextCursor(page) else None
      ensures descriptors == TakeIn(old(descriptors), page)
    {
      var tools := PageTools(page);
      if tools.None? {
        return false, None;
      }
      descriptors := descriptors + tools.value;
      return true, NextCursor(page);
    }

    method Catalog() returns (catalog: ToolCatalog)
      ensures catalog == FromValues(descriptors)
    {
      return FromValues(descriptors);
    }

    method Finish() returns (r: Outcome)
      ensures r == Judged(interposer.h, interposer.policy, interposer.store.pins, FromValues(descriptors))
    {
      r := interposer.Judge(FromValues(descriptors));
    }
  }

  // ---- Pagination -----------------------------------------------------------------------

  /** The accumulator's descriptors after one more page. */
  function TakeIn(descriptors: seq<SerdeValue>, page: SerdeValue): seq<SerdeValue> {
    if PageTools(page).Some? then descriptors + PageTools(page).value else descriptors
  }

  /** The accumulator's descriptors after a run of pages, well-formed or not. */
  function Accumulated(pages: seq<SerdeValue>): seq<SerdeValue> {
    if pages == [] then [] else TakeIn(Accumulated(pages[..|pages| - 1]), pages[|pages| - 1])
  }

  /** `finish` after a run of pages. */
  ghost function Finished(h: Hashes, policy: DriftPolicy, pins: map<string, string>, pages: seq<SerdeValue>): Outcome {
    Judged(h, policy, pins, FromValues(Accumulated(pages)))
  }

  /** What a page contributes: its descriptors, or nothing when it is malformed. */
  function Contribution(page: SerdeValue): seq<SerdeValue> {
    if PageTools(page).Some? then PageTools(page).value else []
  }

  /** The accumulator ends up with all descriptors of all pages, in page order. */
  lemma {:induction false} AccumulatesAll(pages: seq<SerdeValue>)
    ensures Accumulated(pages) == FlatMap(Contribution, pages)
  {
    if pages != [] {
      var front, last := pages[..|pages| - 1], pages[|pages| - 1];
      AccumulatesAll(front);
      assert pages == front + [last];
      FlatMapSnoc(Contribution, front, last);
    }
  }

  /**
   Pages give the verdict that one page holding the descriptors of all of them gives, in either of
   a page's two forms.
   */
  lemma {:induction false} PaginationTransparent(
    h: Hashes, policy: DriftPolicy, pins: map<string, string>, pages: seq<SerdeValue>)
    ensures var all := SArray(FlatMap(Contribution, pages));
            && Finished(h, policy, pins, pages) == ObservedOnce(h, policy, pins, all)
            && Finished(h, policy, pins, pages)
               == ObservedOnce(h, policy, pins, SObject([SerdeEntry("tools", all)]))
  {
    AccumulatesAll(pages);
  }

  /**
   The outcome for every policy. A report without drift is let through as clean. One with drift is
   let through as drifted under the reporting policy, and is the error under the fail-closed one.
   A tool that cannot be identified is an error under both.
   */
  lemma {:induction false} OutcomeIs(h: Hashes, policy: DriftPolicy, pins: map<string, string>, catalog: ToolCatalog)
    ensures var v, outcome := Verified(h, catalog, pins), Judged(h, policy, pins, catalog);
            && (forall r :: outcome == Observed(Clean(r)) <==> EndToEnd.Clean(h, catalog, pins) && v == Ok(r))
            && (v.Ok? && !EndToEnd.Clean(h, catalog, pins) && policy == Report ==>
                  outcome == Observed(Drifted(v.value)))
            && (v.Ok? && !EndToEnd.Clean(h, catalog, pins) && policy == FailClosed ==>
                  outcome == Failed(DriftError(v.value)))
            && (v.Err? ==> outcome == Failed(Integrity(v.error)))
  {
  }

  /** A result is judged by the descriptors found in it, and is malformed if there are none to find. */
  lemma {:induction false} ObservedIs(h: Hashes, policy: DriftPolicy, pins: map<string, string>, result: SerdeValue)
    ensures forall items :: result == SArray(items) || HasEntry(result, "tools", SArray(items)) ==>
                              ObservedOnce(h, policy, pins, result) == Judged(h, policy, pins, FromValues(items))
    ensures (forall items :: result != SArray(items) && !HasEntry(result, "tools", SArray(items))) ==>
              ObservedOnce(h, policy, pins, result) == Failed(MalformedCatalog)
  {
    PagesAreResults(result);
    forall items
      ensures PageTools(result) == Some(items) <==>
              result == SArray(items) || HasEntry(result, "tools", SArray(items))
    {
      PageToolsIff(result, items);
    }
  }

  /** Under the fail-closed policy exactly the catalogs without drift are let through, as clean. */
  lemma {:induction false} FailClosedLetsOnlyCleanThrough(h: Hashes, pins: map<string, string>, catalog: ToolCatalog)
    ensures Judged(h, FailClosed, pins, catalog).Observed? <==> EndToEnd.Clean(h, catalog, pins)
    ensures EndToEnd.Clean(h, catalog, pins) ==>
              Judged(h, FailClosed, pins, catalog) == Observed(Clean(Verified(h, catalog, pins).value))
  {
  }

  /**
   The interposer's guarantee, for all catalogs and pages: fail-closed after a re-pin, and with a
   hash without collisions, a run of pages whose names are those of the pinned catalog, none of them
   pinned with two hashes, is let through exactly when its descriptors together are that catalog,
   up to the order of tools and members and the sign of zero. Otherwise nothing is both let through
   and the pinned catalog. Without repeated names there is no condition.
   */
  lemma {:induction false} LetThroughIffPinned(
    h: Hashes, state: StoreState, pinned: ToolCatalog, pages: seq<SerdeValue>)
    requires h.CollisionFree()
    requires Repinned(h, state, pinned).1.Ok?
    ensures var observed := FromValues(FlatMap(Contribution, pages)).tools;
            var through := Finished(h, FailClosed, Repinned(h, state, pinned).0.pins, pages).Observed?;
            var same := SameTools(pinned.tools, observed);
            && (if SameNames(pinned.tools, observed) && RepeatsAgree(h, pinned.tools)
                then through <==> same
                else !(through && same))
            && (DistinctToolNames(pinned.tools) && DistinctToolNames(observed) ==> (through <==> same))
  {
    AccumulatesAll(pages);
    var pins, observed := Repinned(h, state, pinned).0.pins, FromValues(Accumulated(pages));
    CleanMeansPinned(h, state, pinned, observed);
    FailClosedLetsOnlyCleanThrough(h, pins, observed);
  }

  // ---- Order of tools -------------------------------------------------------------------

  lemma {:induction false} NamesWithPermutes(pins: map<string, string>, a: seq<Pin>, b: seq<Pin>, v: Verdict)
    requires multiset(a) == multiset(b)
    ensures SortStrings(NamesWith(pins, a, v)) == SortStrings(NamesWith(pins, b, v))
  {
    var s, t := NamesWith(pins, a, v), NamesWith(pins, b, v);
    forall x
      ensures multiset(s)[x] == multiset(t)[x]
    {
      TallyCounts(pins, a, v, x);
      TallyCounts(pins, b, v, x);
      CountPermutes(HasVerdict(pins, v, x), a, b);
    }
    SortStringsPermutes(s, t);
  }

  lemma {:induction false} NamesOfPermutes(a: seq<Pin>, b: seq<Pin>)
    requires multiset(a) == multiset(b)
    ensures NamesOf(a) == NamesOf(b)
  {
    forall p
      ensures p in a <==> p in b
    {
      assert p in a <==> p in multiset(a);
      assert p in b <==> p in multiset(b);
    }
  }

  lemma {:induction false} ReportPermutes(h: Hashes, pins: map<string, string>, a: seq<Pin>, b: seq<Pin>)
    requires multiset(a) == multiset(b)
    ensures ReportOf(h, pins, a) == ReportOf(h, pins, b)
  {
    NamesWithPermutes(pins, a, b, Added);
    NamesWithPermutes(pins, a, b, Mutated);
    NamesWithPermutes(pins, a, b, Unchanged);
    NamesOfPermutes(a, b);
    HashesOfPermute(a, b);
    CatalogHashPermutes(h, HashesOf(a), HashesOf(b));
  }

  lemma {:induction false} PinsOfPermutes(h: Hashes, a: seq<ToolDescriptor>, b: seq<ToolDescriptor>)
    requires multiset(a) == multiset(b) && AllIdentifiable(h, a) && AllIdentifiable(h, b)
    ensures multiset(PinsOf(h, a)) == multiset(PinsOf(h, b))
  {
    MappedPermute(PinOf(h), a, PinsOf(h, a), b, PinsOf(h, b));
  }

  lemma {:induction false} IdentifiablePermutes(h: Hashes, a: seq<ToolDescriptor>, b: seq<ToolDescriptor>)
    requires multiset(a) == multiset(b) && AllIdentifiable(h, a)
    ensures AllIdentifiable(h, b)
  {
    forall i | 0 <= i < |b|
      ensures Identify(h, b[i]).Ok?
    {
      assert b[i] in multiset(a);
      var k :| 0 <= k < |a| && a[k] == b[i];
    }
  }

  lemma {:induction false} FromValuesPermutes(a: seq<SerdeValue>, b: seq<SerdeValue>)
    requires multiset(a) == multiset(b)
    ensures multiset(FromValues(a).tools) == multiset(FromValues(b).tools)
  {
    MappedPermute(v => ToolDescriptor(v), a, FromValues(a).tools, b, FromValues(b).tools);
  }

  /**
   A verdict is about the descriptors alone: two runs of pages that bring the same descriptors, in
   any order and however split, end in the same outcome. Only which error is reported may differ,
   when several descriptors cannot be identified.
   */
  lemma {:induction false} VerdictIgnoresPagesAndOrder(
    h: Hashes, policy: DriftPolicy, pins: map<string, string>, p: seq<SerdeValue>, q: seq<SerdeValue>)
    requires multiset(Accumulated(p)) == multiset(Accumulated(q))
    ensures var a, b := Finished(h, policy, pins, p), Finished(h, policy, pins, q);
            a == b || exists d, e :: a == Failed(Integrity(d)) && b == Failed(Integrity(e))
  {
    var a, b := FromValues(Accumulated(p)).tools, FromValues(Accumulated(q)).tools;
    FromValuesPermutes(Accumulated(p), Accumulated(q));
    ObserveIsPinsOf(h, a);
    ObserveIsPinsOf(h, b);
    if AllIdentifiable(h, a) {
      IdentifiablePermutes(h, a, b);
      PinsOfPermutes(h, a, b);
      ReportPermutes(h, pins, PinsOf(h, a), PinsOf(h, b));
    } else if AllIdentifiable(h, b) {
      IdentifiablePermutes(h, b, a);
      assert false;
    } else {
      var d, e := Observe(h, a).error.value, Observe(h, b).error.value;
      assert Finished(h, policy, pins, p) == Failed(Integrity(d));
      assert Finished(h, policy, pins, q) == Failed(Integrity(e));
    }
  }
}
