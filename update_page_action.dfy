/**
 * `UpdatePageAction`: the requested status becomes the stored status and
 * publication time, the other attributes are written to the page, and the
 * page's slugs are replaced when the request carries them.
 */
module PageActions {
  import opened Wrappers
  import opened PageStatuses
  import opened Pages
  import opened Morph
  import Slugs
  import Translations
  import PhpStrings

  /**
   * A value in the request's attribute array. A string-keyed array of strings
   * is one kind of value, whatever key it sits under: a locale => text array
   * for a title, a locale => slug array for the slugs.
   */
  datatype AttributeValue =
    | Null
    | Text(s: string)
    | IntValue(number: int)
    | BoolValue(flag: bool)
    | ArrayValue(entries: seq<(string, string)>)
    | Time(t: int)
    | Status(status: PageStatus)
    | OtherValue

  /** A PHP array's entries as a map; a key given twice keeps its later value. */
  function EntriesMap(entries: seq<(string, string)>): (m: map<string, string>)
    ensures forall k :: k in m <==> exists i :: 0 <= i < |entries| && entries[i].0 == k
  {
    if |entries| == 0 then map[]
    else
      var init := entries[..|entries| - 1];
      var last := entries[|entries| - 1];
      assert forall i :: 0 <= i < |init| ==> init[i] == entries[i];
      EntriesMap(init)[last.0 := last.1]
  }

  /** An entry whose key no later entry repeats keeps its value in the map. */
  lemma {:induction false} EntriesMapLastWins(entries: seq<(string, string)>, i: int)
    requires 0 <= i < |entries|
    requires forall j :: i < j < |entries| ==> entries[j].0 != entries[i].0
    ensures entries[i].0 in EntriesMap(entries) && EntriesMap(entries)[entries[i].0] == entries[i].1
  {
    if i < |entries| - 1 {
      var init := entries[..|entries| - 1];
      assert init[i] == entries[i];
      EntriesMapLastWins(init, i);
    }
  }

  /** What `handlePublication` returns: the backing string to store and the publication time. */
  datatype Publication = Publication(status: string, publishedAt: AttributeValue)

  /** `$attributes['status'] ?? 'draft'`. */
  function RequestedStatus(attrs: map<string, AttributeValue>): AttributeValue
  {
    if "status" in attrs && attrs["status"] != Null then attrs["status"] else Text("draft")
  }

  const MissingPublishedAt := "Undefined array key \"published_at\""

  /**
   * `handlePublication`: a strict match on the requested status. PUBLISHED is
   * published now, SCHEDULED is published at the requested time (an error when
   * none is given), PRIVATE is private with no time, and anything else,
   * including a status given as a plain string, is a draft with no time.
   */
  function HandlePublication(attrs: map<string, AttributeValue>, now: int): (r: Result<Publication>)
    ensures r.Err? <==> RequestedStatus(attrs) == Status(Scheduled) && "published_at" !in attrs
    ensures r.Ok? ==> FromValue(r.value.status).Some? && r.value.status != Value(Scheduled)
    ensures r.Ok? ==> (r.value.status == Value(Published) <==> RequestedStatus(attrs) in {Status(Published), Status(Scheduled)})
    ensures r.Ok? && r.value.status != Value(Published) ==> r.value.publishedAt == Null
    ensures RequestedStatus(attrs) == Status(Published) ==> r == Ok(Publication(Value(Published), Time(now)))
    ensures RequestedStatus(attrs) == Status(Scheduled) && "published_at" in attrs ==>
      r == Ok(Publication(Value(Published), attrs["published_at"]))
    ensures RequestedStatus(attrs) == Status(Private) ==> r == Ok(Publication(Value(Private), Null))
    ensures !RequestedStatus(attrs).Status? || RequestedStatus(attrs).status == Draft ==> r == Ok(Publication(Value(Draft), Null))
  {
    match RequestedStatus(attrs)
    case Status(Published) => Ok(Publication(Value(Published), Time(now)))
    case Status(Scheduled) =>
      if "published_at" in attrs then Ok(Publication(Value(Published), attrs["published_at"]))
      else Err(MissingPublishedAt)
    case Status(Private) => Ok(Publication(Value(Private), Null))
    case _ => Ok(Publication(Value(Draft), Null))
  }

  /** The page columns a publication leaves, when its time is a timestamp or null. */
  function StoredRecord(p: Publication): Option<PageRecord>
  {
    match (FromValue(p.status), p.publishedAt)
    case (Some(s), Time(t)) => Some(PageRecord(s, Some(t)))
    case (Some(s), Null) => Some(PageRecord(s, None))
    case _ => None
  }

  /**
   * The page shows the status that was asked for: PUBLISHED at once (and in the
   * `published` scope), SCHEDULED until its future time, PRIVATE and DRAFT as
   * such; any other request shows as DRAFT.
   */
  lemma ComputedStatusFollowsRequest(attrs: map<string, AttributeValue>, now: int)
    requires RequestedStatus(attrs) == Status(Scheduled) ==> "published_at" in attrs && attrs["published_at"].Time?
    ensures var r := HandlePublication(attrs, now);
      && r.Ok? && StoredRecord(r.value).Some?
      && var page := StoredRecord(r.value).value;
      && (RequestedStatus(attrs) == Status(Published) ==> ComputedStatus(page, now) == Published && InPublishedScope(page, now))
      && (RequestedStatus(attrs) == Status(Scheduled) && attrs["published_at"].t > now ==> ComputedStatus(page, now) == Scheduled)
      && (RequestedStatus(attrs) == Status(Scheduled) ==>
            ComputedStatus(page, attrs["published_at"].t) == Published && InPublishedScope(page, attrs["published_at"].t))
      && (RequestedStatus(attrs) == Status(Private) ==> ComputedStatus(page, now) == Private)
      && (!RequestedStatus(attrs).Status? || RequestedStatus(attrs).status == Draft ==> ComputedStatus(page, now) == Draft)
  {
  }

  /** `Arr::except($attributes, ['slugs', 'status'])`. */
  function WithoutSlugsAndStatus(attrs: map<string, AttributeValue>): (r: map<string, AttributeValue>)
    ensures "slugs" !in r && "status" !in r
    ensures forall k :: k in attrs && k != "slugs" && k != "status" ==> k in r && r[k] == attrs[k]
    ensures forall k :: k in r ==> k in attrs
  {
    map k | k in attrs && k != "slugs" && k != "status" :: attrs[k]
  }

  /**
   * The request's attributes that reach the page's own columns: `fill` keeps
   * the translated attributes (title, description) out of them.
   */
  function PageColumns(attrs: map<string, AttributeValue>): (r: map<string, AttributeValue>)
    ensures forall k :: k in r <==> k in attrs && k !in {"slugs", "status"} && k !in TranslatedAttributes()
    ensures forall k :: k in r ==> r[k] == attrs[k]
  {
    map k | k in WithoutSlugsAndStatus(attrs) && k !in TranslatedAttributes() :: attrs[k]
  }

  /**
   * A request value as `fill`'s `string|array` closure receives it: the
   * closure is called from Laravel's own, non-strict code, so an int or a bool
   * arrives as its string form.
   */
  function AsInput(v: AttributeValue): Translations.Input
  {
    match v
    case Text(s) => Translations.Text(s)
    case IntValue(n) => Translations.IntInput(n)
    case BoolValue(b) => Translations.BoolInput(b)
    case ArrayValue(e) => Translations.PerLocale(EntriesMap(e))
    case _ => Translations.OtherInput
  }

  /** Every translated attribute of the request is a string, an int, a bool or an array. */
  predicate TranslatableValues(attrs: map<string, AttributeValue>)
  {
    forall k :: k in attrs && k in TranslatedAttributes() ==>
      attrs[k].Text? || attrs[k].IntValue? || attrs[k].BoolValue? || attrs[k].ArrayValue?
  }

  /** What `fill` buffers for the request's translated attributes, in the ambient locale `current`. */
  function FilledTexts(attrs: map<string, AttributeValue>, current: string): (m: map<string, map<string, string>>)
    ensures forall k :: k in m <==> k in attrs && k in TranslatedAttributes()
    ensures forall k :: k in m && attrs[k].Text? ==> m[k] == map[current := attrs[k].s]
    ensures forall k :: k in m && attrs[k].IntValue? ==> m[k] == map[current := PhpStrings.IntToString(attrs[k].number)]
    ensures forall k :: k in m && attrs[k].BoolValue? ==> m[k] == map[current := Translations.BoolText(attrs[k].flag)]
    ensures forall k :: k in m && attrs[k].ArrayValue? ==> m[k] == EntriesMap(attrs[k].entries)
  {
    var inputs := map k | k in WithoutSlugsAndStatus(attrs) :: AsInput(attrs[k]);
    Translations.BufferOf(inputs, TranslatedAttributes(), current)
  }

  /** The attributes a successful update writes: the page's own columns of the request, then the publication's two. */
  function UpdatedAttributes(before: map<string, AttributeValue>, attrs: map<string, AttributeValue>, p: Publication): map<string, AttributeValue>
  {
    before + PageColumns(attrs) + map["status" := Text(p.status), "published_at" := p.publishedAt]
  }

  /** The request carries slugs: `isset`, so a null does not count. */
  predicate HasSlugs(attrs: map<string, AttributeValue>)
  {
    "slugs" in attrs && attrs["slugs"] != Null
  }

  /**
   * A page: its identity in the polymorphic tables, its stored attributes and
   * the translated texts `fill` has buffered for the next save.
   */
  class PageModel {
    const owner: Owner
    var attributes: map<string, AttributeValue>
    var translatedTexts: map<string, map<string, string>>

    constructor (owner: Owner, attributes: map<string, AttributeValue>)
      ensures this.owner == owner && this.attributes == attributes && translatedTexts == map[]
    {
      this.owner := owner;
      this.attributes := attributes;
      translatedTexts := map[];
    }

    /**
     * `update`: `fill` buffers the translated attributes (its closure takes a
     * string or an array, and throws on anything else), then the save writes
     * the other attributes to the page's columns.
     */
    method Update(attrs: map<string, AttributeValue>, p: Publication, current: string) returns (outcome: Outcome)
      modifies this
      ensures outcome.Fail? <==> !TranslatableValues(attrs)
      ensures outcome.Fail? ==> attributes == old(attributes) && translatedTexts == old(translatedTexts)
      ensures outcome.Pass? ==> attributes == UpdatedAttributes(old(attributes), attrs, p)
      ensures outcome.Pass? ==> translatedTexts == old(translatedTexts) + FilledTexts(attrs, current)
    {
      if !TranslatableValues(attrs) {
        return Fail("{closure}(): Argument #1 ($translation) must be of type array|string");
      }
      translatedTexts := translatedTexts + FilledTexts(attrs, current);
      attributes := UpdatedAttributes(attributes, attrs, p);
      outcome := Pass;
    }
  }

  /**
   * `handle`, in one transaction: the page's attributes are updated (through
   * the page's `fill`, which buffers title and description), then its slugs
   * when the request has them. A failure (no time for a scheduled page, a
   * translated attribute that is null or another object, slugs that are not
   * an array) rolls the stored attributes and slugs back. Slugs are checked
   * only after `update` has run, so their failure leaves the filled texts in
   * the page's in-memory buffer.
   */
  method Handle(page: PageModel, slugs: Slugs.SlugTable, attrs: map<string, AttributeValue>, now: int, current: string)
    returns (outcome: Outcome)
    requires slugs.Valid()
    requires HasSlugs(attrs) && attrs["slugs"].ArrayValue? ==>
      forall a, b :: 0 <= a < b < |attrs["slugs"].entries| ==> attrs["slugs"].entries[a].0 != attrs["slugs"].entries[b].0
    modifies page, slugs
    ensures slugs.Valid()
    ensures outcome.Fail? <==>
      HandlePublication(attrs, now).Err? || !TranslatableValues(attrs) || (HasSlugs(attrs) && !attrs["slugs"].ArrayValue?)
    ensures outcome.Fail? ==> page.attributes == old(page.attributes) && slugs.rows == old(slugs.rows)
    ensures HandlePublication(attrs, now).Err? || !TranslatableValues(attrs) ==>
      page.translatedTexts == old(page.translatedTexts)
    ensures HandlePublication(attrs, now).Ok? && TranslatableValues(attrs) ==>
      page.translatedTexts == old(page.translatedTexts) + FilledTexts(attrs, current)
    ensures outcome.Pass? ==> page.attributes == UpdatedAttributes(old(page.attributes), attrs, HandlePublication(attrs, now).value)
    ensures outcome.Pass? && !HasSlugs(attrs) ==> slugs.rows == old(slugs.rows)
    ensures outcome.Pass? && HasSlugs(attrs) ==>
      var given := attrs["slugs"].entries;
      && Slugs.OnlyTouched(old(slugs.rows), slugs.rows, page.owner, Slugs.Locales(given))
      && (forall k :: 0 <= k < |given| ==> Slugs.HasSlugFrom(slugs.rows, page.owner, given[k].0, given[k].1))
      && slugs.rows == Slugs.UpdateRows(old(slugs.rows), page.owner, given)
  {
    var publication := HandlePublication(attrs, now);
    if publication.Err? {
      return Fail(publication.message);
    }
    var stored := page.attributes;
    outcome := page.Update(attrs, publication.value, current);
    if outcome.Fail? {
      return;
    }
    if HasSlugs(attrs) {
      var given := attrs["slugs"];
      if !given.ArrayValue? {
        // The transaction rolls the saved row back; the buffer stays filled.
        page.attributes := stored;
        return Fail("updateSlugs(): Argument #1 ($slugs) must be of type array");
      }
      slugs.UpdateSlugs(page.owner, given.entries);
    }
    outcome := Pass;
  }

  /** A successful update never stores the request's 'slugs', and its 'status' is always a backing string, never 'scheduled'. */
  lemma UpdateKeepsSlugsOutOfPage(before: map<string, AttributeValue>, attrs: map<string, AttributeValue>, now: int)
    requires HandlePublication(attrs, now).Ok?
    ensures var after := UpdatedAttributes(before, attrs, HandlePublication(attrs, now).value);
      && ("slugs" in after <==> "slugs" in before)
      && ("slugs" in after ==> after["slugs"] == before["slugs"])
      && after["status"].Text? && FromValue(after["status"].s).Some? && after["status"] != Text(Value(Scheduled))
  {
  }

  /**
   * A one-locale slug list whose text no other page holds in that locale leaves
   * the page with exactly that slug there: updating with 'en' => 'new-slug' makes
   * the page's 'en' slug 'new-slug'.
   */
  lemma UpdateStoresFreeSlug(rows: seq<Slugs.SlugRow>, owner: Owner, locale: string, text: string)
    requires Slugs.UniqueKeys(rows)
    requires !Slugs.Clashes(rows, text, locale, owner)
    ensures var r := Slugs.UpdateRows(rows, owner, [(locale, text)]);
      Slugs.GetSlug(r, owner, Some(locale), locale) == text
  {
    Slugs.FreeSlugStoredAsGiven(rows, owner, locale, text, locale);
    assert Slugs.UpdateRows(rows, owner, [(locale, text)]) == Slugs.StoreRows(rows, owner, locale, text);
  }

  /**
   * Updating with a new title buffers it under the ambient locale, for the
   * save's translation sync, and never writes it to the page's own columns.
   */
  lemma UpdateBuffersTitle(before: map<string, AttributeValue>, attrs: map<string, AttributeValue>, now: int,
                           current: string, title: string)
    requires HandlePublication(attrs, now).Ok?
    requires "title" in attrs && attrs["title"] == Text(title) && "title" !in before
    ensures FilledTexts(attrs, current)["title"] == map[current := title]
    ensures "title" !in UpdatedAttributes(before, attrs, HandlePublication(attrs, now).value)
  {
    assert "title" in TranslatedAttributes();
  }

  /**
   * A title given as a number is buffered as its decimal text, as PHP's
   * coercion of an int argument to `string|array` gives it: 5 becomes '5'.
   */
  lemma UpdateBuffersNumberTitle(attrs: map<string, AttributeValue>, current: string)
    requires "title" in attrs && attrs["title"] == IntValue(5)
    ensures FilledTexts(attrs, current)["title"] == map[current := "5"]
  {
    assert "title" in TranslatedAttributes();
    assert PhpStrings.IntToString(5) == "5";
  }
}
