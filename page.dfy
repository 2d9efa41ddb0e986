/**
 * The publication rules of the `Page` model: the computed status that shows a
 * published page with a future date as scheduled, the `published` query scope,
 * and the page's translated attributes. Times are timestamps in seconds and
 * "now" is a parameter.
 */
module Pages {
  import opened Wrappers
  import opened PageStatuses
  import opened Morph
  import Translations

  /** The columns of a page that the status rules read. */
  datatype PageRecord = PageRecord(status: PageStatus, publishedAt: Option<int>)

  /** `published_at?->isFuture()`: set and strictly after now. */
  predicate IsFuture(publishedAt: Option<int>, now: int)
  {
    publishedAt.Some? && publishedAt.value > now
  }

  /** The `computed_status` attribute: SCHEDULED for a published page dated in the future, else the stored status. */
  function ComputedStatus(p: PageRecord, now: int): (r: PageStatus)
    ensures r == Scheduled <==> p.status == Scheduled || (p.status == Published && IsFuture(p.publishedAt, now))
    ensures r != Scheduled ==> r == p.status
  {
    if p.status == Published && IsFuture(p.publishedAt, now) then Scheduled else p.status
  }

  /** The `published` scope: status PUBLISHED with a publication time that has come. */
  predicate InPublishedScope(p: PageRecord, now: int)
  {
    p.status == Published && p.publishedAt.Some? && p.publishedAt.value <= now
  }

  /** A page the scope lists shows as published, never as scheduled. */
  lemma ScopeShowsPublished(p: PageRecord, now: int)
    requires InPublishedScope(p, now)
    ensures ComputedStatus(p, now) == Published
  {
  }

  /** A page that shows as published and has a publication time is one the scope lists. */
  lemma ShownPublishedIsInScope(p: PageRecord, now: int)
    requires ComputedStatus(p, now) == Published && p.publishedAt.Some?
    ensures InPublishedScope(p, now)
  {
  }

  /** A scheduled page shows as published, and enters the scope, once its time has come. */
  lemma ScheduledBecomesPublished(p: PageRecord, now: int, later: int)
    requires p.status == Published && ComputedStatus(p, now) == Scheduled
    requires later >= p.publishedAt.value
    ensures ComputedStatus(p, later) == Published && InPublishedScope(p, later)
  {
  }

  /** `translatedAttributes`: the page's title and description live in the translations table. */
  function TranslatedAttributes(): (r: seq<string>)
    ensures Translations.Distinct(r) && r == ["title", "description"]
  {
    ["title", "description"]
  }

  /** Saving a new page writes one translation row per translated attribute and active locale. */
  lemma NewPageTranslationRows(rows: seq<Translations.TranslationRow>, page: Owner, locales: seq<string>,
                               texts: map<string, map<string, string>>)
    requires Translations.UniqueKeys(rows)
    requires forall i :: 0 <= i < |rows| ==> rows[i].owner != page
    requires Translations.Distinct(locales)
    ensures |Translations.SyncRows(rows, page, TranslatedAttributes(), locales, texts)| == |rows| + 2 * |locales|
  {
    Translations.SyncRowsFresh(rows, page, TranslatedAttributes(), locales, texts);
  }
}
