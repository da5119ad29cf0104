/** Scroll spy: the two intersection-observer callbacks, each a fold over
    the batch of entries the browser delivers. Which entries arrive, and
    when, is the browser's business; here they are simply input. */
module ScrollSpy {
  import opened Options

  /** A nav-list anchor: its `href` attribute (None when absent) and
      whether it carries the `active-link` class. */
  datatype NavLink = NavLink(href: Option<string>, active: bool)

  /** An entry for an observed section: its `id` attribute (None when
      absent) and whether it is intersecting. */
  datatype SectionEntry = SectionEntry(id: Option<string>, isIntersecting: bool)

  /** An entry for an observed section title, which is named by `target`. */
  datatype TitleEntry = TitleEntry(target: nat, isIntersecting: bool)

  /** An entry the nav callback acts on: intersecting, with a truthy `id`
      (present and not empty). */
  predicate Qualifies(e: SectionEntry) {
    e.isIntersecting && e.id.Some? && e.id.value != ""
  }

  /** The fragment link that points at section `id`. */
  function Anchor(id: string): string {
    "#" + id
  }

  /** The links keep their `href`s and their number. */
  predicate SameHrefs(links: seq<NavLink>, links': seq<NavLink>) {
    && |links'| == |links|
    && forall i :: 0 <= i < |links| ==> links'[i].href == links[i].href
  }

  /** The inner loop over the nav links for one section `id`: remove
      `active-link` from each, then add it back where `href` is `#id`. */
  function MarkLinks(links: seq<NavLink>, id: string): (r: seq<NavLink>)
    ensures SameHrefs(links, r)
    ensures forall i :: 0 <= i < |r| ==> (r[i].active <==> r[i].href == Some(Anchor(id)))
    decreases |links|
  {
    if links == [] then []
    else
      var link := links[0];
      [NavLink(link.href, link.href == Some(Anchor(id)))] + MarkLinks(links[1..], id)
  }

  /** The nav callback on one entry. */
  function NavEntryStep(links: seq<NavLink>, e: SectionEntry): seq<NavLink> {
    if Qualifies(e) then MarkLinks(links, e.id.value) else links
  }

  /** The nav callback: each entry in order. It never changes an `href`,
      and a batch with no qualifying entry changes nothing. */
  function NavBatch(links: seq<NavLink>, entries: seq<SectionEntry>): (r: seq<NavLink>)
    ensures SameHrefs(links, r)
    ensures (forall k :: 0 <= k < |entries| ==> !Qualifies(entries[k])) ==> r == links
    decreases |entries|
  {
    if entries == [] then links
    else NavBatch(NavEntryStep(links, entries[0]), entries[1..])
  }

  /** The position of the last qualifying entry of a batch, if any. */
  function LastQualifying(entries: seq<SectionEntry>): (r: Option<nat>)
    ensures r.None? <==> forall k :: 0 <= k < |entries| ==> !Qualifies(entries[k])
    ensures r.Some? ==> && r.value < |entries|
                        && Qualifies(entries[r.value])
                        && forall j :: r.value < j < |entries| ==> !Qualifies(entries[j])
    decreases |entries|
  {
    if entries == [] then None
    else if Qualifies(entries[|entries| - 1]) then Some(|entries| - 1)
    else
      var init := entries[..|entries| - 1];
      assert forall k :: 0 <= k < |init| ==> init[k] == entries[k];
      LastQualifying(init)
  }

  /** The `id` of the last qualifying entry of a batch, if any. */
  function LastQualifyingId(entries: seq<SectionEntry>): Option<string> {
    match LastQualifying(entries)
    case None => None
    case Some(k) => entries[k].id
  }

  /** A batch ending with a given entry ends with its qualifying entry, if
      it is one, and otherwise with the earlier part's. */
  lemma LastQualifyingIdSnoc(entries: seq<SectionEntry>, e: SectionEntry)
    ensures LastQualifyingId(entries + [e])
         == if Qualifies(e) then e.id else LastQualifyingId(entries)
  {
  }

  /** Folding a batch in two pieces is folding it whole: the callback's
      outcome does not depend on how the browser splits the entries. */
  lemma {:induction false} NavBatchAppend(links: seq<NavLink>, a: seq<SectionEntry>, b: seq<SectionEntry>)
    ensures NavBatch(links, a + b) == NavBatch(NavBatch(links, a), b)
    decreases |a|
  {
    if a != [] {
      assert (a + b)[1..] == a[1..] + b;
      NavBatchAppend(NavEntryStep(links, a[0]), a[1..], b);
    } else {
      assert a + b == b;
    }
  }

  /** The nav callback's outcome: when the batch holds a qualifying entry,
      exactly the links whose `href` is `#` followed by the last such
      entry's `id` are active; otherwise nothing changes. The `href`s are
      never touched. */
  lemma {:induction false} NavBatchMarksLastSection(links: seq<NavLink>, entries: seq<SectionEntry>)
    ensures SameHrefs(links, NavBatch(links, entries))
    ensures LastQualifyingId(entries).None? ==> NavBatch(links, entries) == links
    ensures LastQualifyingId(entries).Some? ==>
      forall i :: 0 <= i < |links| ==>
        (NavBatch(links, entries)[i].active <==> links[i].href == Some(Anchor(LastQualifyingId(entries).value)))
    decreases |entries|
  {
    if entries != [] {
      var init := entries[..|entries| - 1];
      var e := entries[|entries| - 1];
      assert entries == init + [e];
      NavBatchAppend(links, init, [e]);
      NavBatchMarksLastSection(links, init);
      LastQualifyingIdSnoc(init, e);
      assert NavBatch(NavBatch(links, init), [e]) == NavEntryStep(NavBatch(links, init), e);
    }
  }

  /** The title callback on one entry: add `highlight-active` to an
      intersecting title, remove it from one that is not. */
  function TitleEntryStep(highlighted: set<nat>, e: TitleEntry): set<nat> {
    if e.isIntersecting then highlighted + {e.target} else highlighted - {e.target}
  }

  /** The titles a batch has entries for. */
  function Targets(entries: seq<TitleEntry>): set<nat> {
    set k | 0 <= k < |entries| :: entries[k].target
  }

  /** The title callback: each entry in order. Titles without an entry in
      the batch keep their highlight. */
  function TitleBatch(highlighted: set<nat>, entries: seq<TitleEntry>): (r: set<nat>)
    ensures r - Targets(entries) == highlighted - Targets(entries)
    decreases |entries|
  {
    if entries == [] then highlighted
    else
      var rest := entries[1..];
      assert forall k :: 0 <= k < |rest| ==> rest[k] == entries[k + 1];
      var t := Targets(rest);
      assert Targets(entries) == {entries[0].target} + t;
      var step := TitleEntryStep(highlighted, entries[0]);
      var r := TitleBatch(step, rest);
      assert r - Targets(entries) == (r - t) - {entries[0].target};
      assert step - {entries[0].target} == highlighted - {entries[0].target};
      r
  }

  /** The position of the last entry of the batch for `title`, if any. */
  function LastEntryFor(entries: seq<TitleEntry>, title: nat): (r: Option<nat>)
    ensures r.None? <==> forall k :: 0 <= k < |entries| ==> entries[k].target != title
    ensures r.Some? ==> && r.value < |entries|
                        && entries[r.value].target == title
                        && forall j :: r.value < j < |entries| ==> entries[j].target != title
    decreases |entries|
  {
    if entries == [] then None
    else if entries[|entries| - 1].target == title then Some(|entries| - 1)
    else
      var init := entries[..|entries| - 1];
      assert forall k :: 0 <= k < |init| ==> init[k] == entries[k];
      LastEntryFor(init, title)
  }

  /** Whether the last entry of the batch for `title`, if there is one,
      reports it as intersecting. */
  function LastReport(entries: seq<TitleEntry>, title: nat): Option<bool> {
    match LastEntryFor(entries, title)
    case None => None
    case Some(k) => Some(entries[k].isIntersecting)
  }

  /** Folding a title batch in two pieces is folding it whole. */
  lemma {:induction false} TitleBatchAppend(highlighted: set<nat>, a: seq<TitleEntry>, b: seq<TitleEntry>)
    ensures TitleBatch(highlighted, a + b) == TitleBatch(TitleBatch(highlighted, a), b)
    decreases |a|
  {
    if a != [] {
      assert (a + b)[1..] == a[1..] + b;
      TitleBatchAppend(TitleEntryStep(highlighted, a[0]), a[1..], b);
    } else {
      assert a + b == b;
    }
  }

  /** The title callback's outcome: a title with entries in the batch is
      highlighted exactly when its last entry is intersecting; any other
      title keeps its highlight. */
  lemma {:induction false} TitleBatchFollowsLastReport(highlighted: set<nat>, entries: seq<TitleEntry>, title: nat)
    ensures LastReport(entries, title).None? ==>
      (title in TitleBatch(highlighted, entries) <==> title in highlighted)
    ensures LastReport(entries, title).Some? ==>
      (title in TitleBatch(highlighted, entries) <==> LastReport(entries, title).value)
    decreases |entries|
  {
    if entries != [] {
      var init := entries[..|entries| - 1];
      var e := entries[|entries| - 1];
      assert entries == init + [e];
      assert (init + [e])[..|init|] == init;
      TitleBatchAppend(highlighted, init, [e]);
      TitleBatchFollowsLastReport(highlighted, init, title);
      assert TitleBatch(TitleBatch(highlighted, init), [e]) == TitleEntryStep(TitleBatch(highlighted, init), e);
    }
  }
}
