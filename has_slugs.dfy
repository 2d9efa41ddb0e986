/**
 * The localized slug store of the `HasSlugs` trait.
 *
 * The `slugs` table is a sequence of rows (slug, locale, owner) held by a
 * `SlugTable` object; the owner is the polymorphic (sluggable_type, sluggable_id)
 * pair. The ambient application locale, the active locale codes, the reading of a
 * model field under a locale and `Str::slug` are explicit parameters.
 */
module Slugs {
  import opened Wrappers
  import opened PhpStrings
  import opened Morph

  /** One row of the `slugs` table. */
  datatype SlugRow = SlugRow(slug: string, locale: string, owner: Owner)

  /**
   * What reading a declared slug field gives: not defined on the model, NULL, a
   * string, a string-backed enum case (its backing value) or any other value.
   */
  datatype FieldValue = Undefined | NullValue | Text(text: string) | BackedCase(backing: string) | OtherValue

  // ---------------------------------------------------------------------------
  // Raw value of a locale
  // ---------------------------------------------------------------------------

  /** PHP's `isset` on the attribute: false for an undefined field and for NULL. */
  predicate IsSet(v: FieldValue) { !(v.Undefined? || v.NullValue?) }

  /** An enum case becomes its backing value, a string stays, anything else is NULL. */
  function Normalize(v: FieldValue): Option<string>
  {
    match v
    case Text(s) => Some(s)
    case BackedCase(b) => Some(b)
    case _ => None
  }

  /** What `Collection::filter()` keeps: not NULL, not '' and not '0'. */
  predicate Truthy(s: Option<string>) { s.Some? && s.value != "" && s.value != "0" }

  function MissingField(field: string): string
  {
    "You must define the field " + field + " in your model"
  }

  /** `k` is the first declared field that is not set. */
  ghost predicate FirstUnset(fields: seq<string>, read: string -> FieldValue, k: int)
  {
    0 <= k < |fields| && !IsSet(read(fields[k]))
    && forall j :: 0 <= j < k ==> IsSet(read(fields[j]))
  }

  /** The normalized value of every declared field, or the exception for the first unset one. */
  function NormalizedFields(fields: seq<string>, read: string -> FieldValue): (r: Result<seq<Option<string>>>)
    ensures r.Ok? <==> forall k :: 0 <= k < |fields| ==> IsSet(read(fields[k]))
    ensures r.Ok? ==> |r.value| == |fields|
    ensures r.Ok? ==> forall k :: 0 <= k < |fields| ==> r.value[k] == Normalize(read(fields[k]))
    ensures r.Err? ==> exists k :: FirstUnset(fields, read, k) && r.message == MissingField(fields[k])
  {
    if fields == [] then Ok([])
    else if !IsSet(read(fields[0])) then
      assert FirstUnset(fields, read, 0);
      Err(MissingField(fields[0]))
    else
      match NormalizedFields(fields[1..], read)
      case Err(m) =>
        assert exists k :: FirstUnset(fields, read, k) && m == MissingField(fields[k]) by {
          var k :| FirstUnset(fields[1..], read, k) && m == MissingField(fields[1..][k]);
          assert FirstUnset(fields, read, k + 1);
        }
        Err(m)
      case Ok(vs) => Ok([Normalize(read(fields[0]))] + vs)
  }

  /** The truthy values, in order. */
  function TruthyOnly(vs: seq<Option<string>>): (r: seq<string>)
    ensures |r| <= |vs|
    ensures forall k :: 0 <= k < |r| ==> r[k] != "" && r[k] != "0"
    ensures (forall k :: 0 <= k < |vs| ==> !Truthy(vs[k])) ==> r == []
    ensures |vs| == 1 && Truthy(vs[0]) ==> r == [vs[0].value]
    ensures |vs| == 1 && !Truthy(vs[0]) ==> r == []
  {
    if vs == [] then []
    else if Truthy(vs[0]) then [vs[0].value] + TruthyOnly(vs[1..])
    else TruthyOnly(vs[1..])
  }

  /** Filtering keeps order: the truthy values of a concatenation are those of each part, in turn. */
  lemma {:induction false} TruthyOnlyAppend(a: seq<Option<string>>, b: seq<Option<string>>)
    ensures TruthyOnly(a + b) == TruthyOnly(a) + TruthyOnly(b)
  {
    if a == [] {
      assert a + b == b;
    } else {
      assert (a + b)[0] == a[0] && (a + b)[1..] == a[1..] + b;
      TruthyOnlyAppend(a[1..], b);
    }
  }

  /** The normalized value of every declared field, in order. */
  function Normalized(fields: seq<string>, read: string -> FieldValue): seq<Option<string>>
  {
    seq(|fields|, k requires 0 <= k < |fields| => Normalize(read(fields[k])))
  }

  /**
   * `buildRawValueForLocale`: the declared fields read in order, normalized, the
   * falsy ones dropped and the rest joined with one space; an unset field throws
   * InvalidArgumentException naming the first such field.
   */
  function BuildRawValue(fields: seq<string>, read: string -> FieldValue): (r: Result<string>)
    ensures r.Err? <==> exists k :: 0 <= k < |fields| && !IsSet(read(fields[k]))
    ensures r.Err? ==> exists k :: FirstUnset(fields, read, k) && r.message == MissingField(fields[k])
    ensures r.Ok? && (forall k :: 0 <= k < |fields| ==> !Truthy(Normalize(read(fields[k])))) ==> r.value == ""
    ensures r.Ok? ==> r.value == Join(TruthyOnly(Normalized(fields, read)), " ")
  {
    match NormalizedFields(fields, read)
    case Err(m) => Err(m)
    case Ok(vs) =>
      assert vs == Normalized(fields, read);
      Ok(Join(TruthyOnly(vs), " "))
  }

  /**
   * A title and a string-backed enum field, both truthy, give the title, one space
   * and the enum's backing value: the raw value of a post titled 'Test' whose
   * status is PUBLISHED is 'Test published'.
   */
  lemma RawValueOfTitleAndCase(fields: seq<string>, read: string -> FieldValue, title: string, backing: string)
    requires |fields| == 2 && read(fields[0]) == Text(title) && read(fields[1]) == BackedCase(backing)
    requires Truthy(Some(title)) && Truthy(Some(backing))
    ensures BuildRawValue(fields, read) == Ok(title + " " + backing)
  {
    var vs := Normalized(fields, read);
    assert vs == [Some(title)] + [Some(backing)];
    TruthyOnlyAppend([Some(title)], [Some(backing)]);
    assert TruthyOnly(vs) == [title, backing];
    assert Join([title, backing], " ") == title + " " + Join([backing], " ");
    assert NormalizedFields(fields, read).Ok?;
  }

  /** A falsy field ('' or '0') leaves no trace, not even its separating space. */
  lemma RawValueSkipsFalsy(fields: seq<string>, read: string -> FieldValue, title: string, empty: string)
    requires |fields| == 2 && read(fields[0]) == Text(title) && read(fields[1]) == Text(empty)
    requires Truthy(Some(title)) && !Truthy(Some(empty))
    ensures BuildRawValue(fields, read) == Ok(title)
  {
    var vs := Normalized(fields, read);
    assert vs == [Some(title)] + [Some(empty)];
    TruthyOnlyAppend([Some(title)], [Some(empty)]);
    assert TruthyOnly(vs) == [title];
    assert NormalizedFields(fields, read).Ok?;
  }

  /** The raw value of a locale: the fields read while the ambient locale is that locale. */
  function RawValueAt(fields: seq<string>, read: (string, string) -> FieldValue, locale: string): Result<string>
  {
    BuildRawValue(fields, (f: string) => read(locale, f))
  }

  // ---------------------------------------------------------------------------
  // The table as a value
  // ---------------------------------------------------------------------------

  /**
   * The table's two keys: the unique index on (slug, locale), and one row per
   * (owner, locale), which `updateOrCreate` keyed on the locale keeps.
   */
  ghost predicate UniqueKeys(rows: seq<SlugRow>)
  {
    forall i, j :: 0 <= i < |rows| && 0 <= j < |rows| && i != j ==>
      (rows[i].slug != rows[j].slug || rows[i].locale != rows[j].locale)
      && (rows[i].owner != rows[j].owner || rows[i].locale != rows[j].locale)
  }

  /** A row of another owner already holds `slug` in `locale`. */
  predicate Clashes(rows: seq<SlugRow>, slug: string, locale: string, owner: Owner)
  {
    exists i :: 0 <= i < |rows| && rows[i].locale == locale && rows[i].slug == slug && rows[i].owner != owner
  }

  /** The n-th de-duplication candidate: `base-n`. */
  function Suffixed(base: string, n: nat): string
  {
    base + "-" + NatToString(n)
  }

  /** `slug` is `base` itself or `base-n` for some n >= 1. */
  ghost predicate DerivedFrom(slug: string, base: string)
  {
    slug == base || exists n: nat :: n >= 1 && slug == Suffixed(base, n)
  }

  /** The owner has a row in `locale` whose slug derives from `base`. */
  ghost predicate HasSlugFrom(rows: seq<SlugRow>, owner: Owner, locale: string, base: string)
  {
    exists i :: 0 <= i < |rows| && rows[i].owner == owner && rows[i].locale == locale && DerivedFrom(rows[i].slug, base)
  }

  /**
   * From `before` to `after` only the owner's rows in `locales` changed (keeping
   * their owner and locale) and every appended row is the owner's, in one of `locales`.
   */
  ghost predicate OnlyTouched(before: seq<SlugRow>, after: seq<SlugRow>, owner: Owner, locales: seq<string>)
  {
    |before| <= |after|
    && (forall j :: 0 <= j < |before| && (before[j].owner != owner || before[j].locale !in locales) ==> after[j] == before[j])
    && (forall j :: 0 <= j < |before| ==> after[j].owner == before[j].owner && after[j].locale == before[j].locale)
    && (forall j :: |before| <= j < |after| ==> after[j].owner == owner && after[j].locale in locales)
  }

  function LongestSlug(rows: seq<SlugRow>): nat
  {
    if rows == [] then 0
    else if |rows[0].slug| > LongestSlug(rows[1..]) then |rows[0].slug| else LongestSlug(rows[1..])
  }

  lemma {:induction false} LongestSlugBound(rows: seq<SlugRow>, i: int)
    requires 0 <= i < |rows|
    ensures |rows[i].slug| <= LongestSlug(rows)
  {
    if i > 0 {
      LongestSlugBound(rows[1..], i - 1);
    }
  }

  /**
   * A suffix with more digits than the longest stored slug has characters is free,
   * so the de-duplication loop stops before `10^LongestSlug(rows)`.
   */
  lemma TakenSuffixIsSmall(rows: seq<SlugRow>, base: string, n: nat, locale: string, owner: Owner)
    requires Clashes(rows, Suffixed(base, n), locale, owner)
    ensures n < Pow10(LongestSlug(rows))
  {
    var i :| 0 <= i < |rows| && rows[i].locale == locale && rows[i].slug == Suffixed(base, n) && rows[i].owner != owner;
    LongestSlugBound(rows, i);
    if n >= Pow10(LongestSlug(rows)) {
      NatToStringLength(n, LongestSlug(rows));
      assert false;
    }
  }

  /** The least n >= `from` whose candidate `base-n` no other owner holds in the locale. */
  function FreeSuffixFrom(rows: seq<SlugRow>, base: string, locale: string, owner: Owner, from: nat): (n: nat)
    ensures n >= from && !Clashes(rows, Suffixed(base, n), locale, owner)
    ensures forall j: nat :: from <= j < n ==> Clashes(rows, Suffixed(base, j), locale, owner)
    decreases Pow10(LongestSlug(rows)) - from
  {
    if !Clashes(rows, Suffixed(base, from), locale, owner) then from
    else
      TakenSuffixIsSmall(rows, base, from, locale, owner);
      FreeSuffixFrom(rows, base, locale, owner, from + 1)
  }

  /**
   * The slug `resolveUniqueSlug` picks: `base` when no other owner holds it in the
   * locale, otherwise `base-n` for the least n >= 1 that no other owner holds.
   */
  function Resolved(rows: seq<SlugRow>, base: string, locale: string, owner: Owner): (slug: string)
    ensures !Clashes(rows, slug, locale, owner)
    ensures !Clashes(rows, base, locale, owner) ==> slug == base
    ensures Clashes(rows, base, locale, owner) ==>
      exists n: nat :: n >= 1 && slug == Suffixed(base, n)
        && forall j: nat :: 1 <= j < n ==> Clashes(rows, Suffixed(base, j), locale, owner)
  {
    if !Clashes(rows, base, locale, owner) then base
    else
      var n := FreeSuffixFrom(rows, base, locale, owner, 1);
      assert n >= 1 && Suffixed(base, n) == Suffixed(base, n);
      Suffixed(base, n)
  }

  /** Index of the owner's row in `locale`, or -1: the lookup half of `updateOrCreate`. */
  function FindRow(rows: seq<SlugRow>, owner: Owner, locale: string): (k: int)
    ensures -1 <= k < |rows|
    ensures k >= 0 ==> rows[k].owner == owner && rows[k].locale == locale
    ensures k >= 0 ==> forall j :: 0 <= j < k ==> rows[j].owner != owner || rows[j].locale != locale
    ensures k < 0 ==> forall j :: 0 <= j < |rows| ==> rows[j].owner != owner || rows[j].locale != locale
  {
    if rows == [] then -1
    else
      var k := FindRow(rows[..|rows| - 1], owner, locale);
      if k >= 0 then k
      else if rows[|rows| - 1].owner == owner && rows[|rows| - 1].locale == locale then |rows| - 1
      else -1
  }

  /** `upsertSlug` on the table value: overwrite the owner's row for the locale, or append one. */
  function UpsertRows(rows: seq<SlugRow>, owner: Owner, locale: string, slug: string): seq<SlugRow>
  {
    var k := FindRow(rows, owner, locale);
    if k >= 0 then rows[k := SlugRow(slug, locale, owner)] else rows + [SlugRow(slug, locale, owner)]
  }

  /**
   * Upserting a slug no other owner holds in that locale keeps both keys unique,
   * leaves the owner exactly one row in the locale, holding the new text (the old
   * text is gone), and changes nothing else.
   */
  lemma UpsertRowsSpec(rows: seq<SlugRow>, owner: Owner, locale: string, slug: string)
    requires UniqueKeys(rows)
    requires !Clashes(rows, slug, locale, owner)
    ensures var r := UpsertRows(rows, owner, locale, slug);
      && UniqueKeys(r)
      && (exists i :: 0 <= i < |r| && r[i] == SlugRow(slug, locale, owner))
      && (forall i :: 0 <= i < |r| && r[i].owner == owner && r[i].locale == locale ==> r[i].slug == slug)
      && OnlyTouched(rows, r, owner, [locale])
  {
    var r := UpsertRows(rows, owner, locale, slug);
    var k := FindRow(rows, owner, locale);
    if k >= 0 {
      assert r[k] == SlugRow(slug, locale, owner);
    } else {
      assert r[|rows|] == SlugRow(slug, locale, owner);
    }
  }

  lemma OnlyTouchedTrans(a: seq<SlugRow>, b: seq<SlugRow>, c: seq<SlugRow>, owner: Owner, l1: seq<string>, l2: seq<string>)
    requires OnlyTouched(a, b, owner, l1)
    requires OnlyTouched(b, c, owner, l2)
    ensures OnlyTouched(a, c, owner, l1 + l2)
  {
  }

  /** Touching one more locale of `active` after its first `i`. */
  lemma OnlyTouchedExtend(a: seq<SlugRow>, b: seq<SlugRow>, c: seq<SlugRow>, owner: Owner, active: seq<string>, i: nat)
    requires i < |active|
    requires OnlyTouched(a, b, owner, active[..i])
    requires OnlyTouched(b, c, owner, [active[i]])
    ensures OnlyTouched(a, c, owner, active[..i + 1])
  {
    OnlyTouchedTrans(a, b, c, owner, active[..i], [active[i]]);
    assert active[..i] + [active[i]] == active[..i + 1];
  }

  /** One round of `setSlugs` or `updateSlugs` on the table value: resolve a unique slug from `base`, then upsert it. */
  function StoreRows(rows: seq<SlugRow>, owner: Owner, locale: string, base: string): seq<SlugRow>
  {
    UpsertRows(rows, owner, locale, Resolved(rows, base, locale, owner))
  }

  /**
   * `setSlugs` on the table value: the active locales in order, each storing the
   * unique slug of its slugified raw value, stopping at the first locale whose
   * raw value throws.
   */
  function SetRows(rows: seq<SlugRow>, owner: Owner, fields: seq<string>, read: (string, string) -> FieldValue,
                   slugify: string -> string, locales: seq<string>): seq<SlugRow>
    decreases |locales|
  {
    if locales == [] then rows
    else
      match RawValueAt(fields, read, locales[0])
      case Err(_) => rows
      case Ok(raw) => SetRows(StoreRows(rows, owner, locales[0], slugify(raw)), owner, fields, read, slugify, locales[1..])
  }

  /** `updateSlugs` on the table value: each given text, in order, made unique in its locale and stored. */
  function UpdateRows(rows: seq<SlugRow>, owner: Owner, slugs: seq<(string, string)>): seq<SlugRow>
    decreases |slugs|
  {
    if slugs == [] then rows
    else UpdateRows(StoreRows(rows, owner, slugs[0].0, slugs[0].1), owner, slugs[1..])
  }

  /**
   * A text no other owner holds in the locale is stored exactly as given, and it
   * replaces the owner's previous slug there.
   */
  lemma FreeSlugStoredAsGiven(rows: seq<SlugRow>, owner: Owner, locale: string, text: string, current: string)
    requires UniqueKeys(rows)
    requires !Clashes(rows, text, locale, owner)
    ensures var r := StoreRows(rows, owner, locale, text);
      && UniqueKeys(r)
      && GetSlug(r, owner, Some(locale), current) == text
      && forall i :: 0 <= i < |r| && r[i].owner == owner && r[i].locale == locale ==> r[i].slug == text
  {
    UpsertRowsSpec(rows, owner, locale, text);
  }

  /**
   * Three owners storing the same base in turn, in one locale of an empty table,
   * get `base`, `base-1` and `base-2`: three pages titled 'Test Page' are
   * 'test-page', 'test-page-1' and 'test-page-2'.
   */
  lemma ThreeIdenticalBases(base: string, locale: string, o1: Owner, o2: Owner, o3: Owner)
    requires o1 != o2 && o2 != o3 && o1 != o3
    ensures var r1 := StoreRows([], o1, locale, base);
      var r2 := StoreRows(r1, o2, locale, base);
      var r3 := StoreRows(r2, o3, locale, base);
      r3 == [SlugRow(base, locale, o1), SlugRow(Suffixed(base, 1), locale, o2), SlugRow(Suffixed(base, 2), locale, o3)]
  {
    var r1 := StoreRows([], o1, locale, base);
    assert r1 == [SlugRow(base, locale, o1)];
    assert |Suffixed(base, 1)| > |base| && |Suffixed(base, 2)| > |base|;
    assert r1[0].locale == locale && r1[0].slug == base && r1[0].owner != o2;
    assert FreeSuffixFrom(r1, base, locale, o2, 1) == 1;
    var r2 := StoreRows(r1, o2, locale, base);
    assert r2 == [SlugRow(base, locale, o1), SlugRow(Suffixed(base, 1), locale, o2)];
    assert NatToString(1) == "1" && NatToString(2) == "2";
    assert Suffixed(base, 2)[|base| + 1] == '2' && Suffixed(base, 1)[|base| + 1] == '1';
    assert r2[0].slug == base && r2[0].owner != o3 && r2[1].slug == Suffixed(base, 1) && r2[1].owner != o3;
    assert !Clashes(r2, Suffixed(base, 2), locale, o3);
    assert FreeSuffixFrom(r2, base, locale, o3, 2) == 2;
    assert FreeSuffixFrom(r2, base, locale, o3, 1) == 2;
  }

  /** An upsert in one locale keeps the owner's slug in every other locale. */
  lemma UpsertKeepsOtherLocale(rows: seq<SlugRow>, owner: Owner, locale: string, slug: string, other: string, base: string)
    requires other != locale
    requires HasSlugFrom(rows, owner, other, base)
    ensures HasSlugFrom(UpsertRows(rows, owner, locale, slug), owner, other, base)
  {
    var i :| 0 <= i < |rows| && rows[i].owner == owner && rows[i].locale == other && DerivedFrom(rows[i].slug, base);
    assert UpsertRows(rows, owner, locale, slug)[i] == rows[i];
  }

  /** `deleteSlugs` on the table value: every row of the owner removed, the rest kept in order. */
  function WithoutOwner(rows: seq<SlugRow>, owner: Owner): (r: seq<SlugRow>)
    ensures |r| <= |rows|
    ensures forall x :: x in r <==> x in rows && x.owner != owner
  {
    if rows == [] then []
    else if rows[0].owner == owner then WithoutOwner(rows[1..], owner)
    else [rows[0]] + WithoutOwner(rows[1..], owner)
  }

  lemma {:induction false} WithoutOwnerKeepsKeys(rows: seq<SlugRow>, owner: Owner)
    requires UniqueKeys(rows)
    ensures UniqueKeys(WithoutOwner(rows, owner))
  {
    if rows != [] {
      assert UniqueKeys(rows[1..]) by {
        forall i, j | 0 <= i < |rows[1..]| && 0 <= j < |rows[1..]| && i != j
          ensures (rows[1..][i].slug != rows[1..][j].slug || rows[1..][i].locale != rows[1..][j].locale)
            && (rows[1..][i].owner != rows[1..][j].owner || rows[1..][i].locale != rows[1..][j].locale)
        {
          assert rows[1..][i] == rows[i + 1] && rows[1..][j] == rows[j + 1];
        }
      }
      WithoutOwnerKeepsKeys(rows[1..], owner);
      var tail := WithoutOwner(rows[1..], owner);
      if rows[0].owner != owner {
        var r := [rows[0]] + tail;
        forall i | 0 <= i < |tail|
          ensures (rows[0].slug != tail[i].slug || rows[0].locale != tail[i].locale)
            && (rows[0].owner != tail[i].owner || rows[0].locale != tail[i].locale)
        {
          assert tail[i] in rows[1..];
          var j :| 0 <= j < |rows[1..]| && rows[1..][j] == tail[i];
          assert rows[j + 1] == tail[i];
        }
        forall i, j | 0 <= i < |r| && 0 <= j < |r| && i != j
          ensures (r[i].slug != r[j].slug || r[i].locale != r[j].locale)
            && (r[i].owner != r[j].owner || r[i].locale != r[j].locale)
        {
          if i > 0 && j > 0 {
            assert r[i] == tail[i - 1] && r[j] == tail[j - 1];
          } else if i == 0 {
            assert r[j] == tail[j - 1];
          } else {
            assert r[i] == tail[i - 1];
          }
        }
      }
    }
  }

  // ---------------------------------------------------------------------------
  // Reads
  // ---------------------------------------------------------------------------

  /**
   * `getSlug`: the slug of the owner's first row in the locale (the ambient one
   * when none is given), or '' when it has none.
   */
  function GetSlug(rows: seq<SlugRow>, owner: Owner, locale: Option<string>, current: string): (r: string)
    ensures var l := locale.GetOr(current);
      (forall i :: 0 <= i < |rows| ==> rows[i].owner != owner || rows[i].locale != l) ==> r == ""
    ensures var l := locale.GetOr(current);
      UniqueKeys(rows) ==> forall i :: 0 <= i < |rows| && rows[i].owner == owner && rows[i].locale == l ==> r == rows[i].slug
  {
    var k := FindRow(rows, owner, locale.GetOr(current));
    if k < 0 then "" else rows[k].slug
  }

  /** `getSlugsArray`: locale => slug over the owner's rows, a later row overriding an earlier one. */
  function SlugsArray(rows: seq<SlugRow>, owner: Owner): (m: map<string, string>)
    ensures forall l :: l in m <==> exists i :: 0 <= i < |rows| && rows[i].owner == owner && rows[i].locale == l
    ensures forall l :: l in m ==> exists i :: 0 <= i < |rows| && rows[i].owner == owner && rows[i].locale == l && m[l] == rows[i].slug
  {
    if rows == [] then map[]
    else
      var init := rows[..|rows| - 1];
      var m := SlugsArray(init, owner);
      var last := rows[|rows| - 1];
      assert forall i :: 0 <= i < |init| ==> init[i] == rows[i];
      if last.owner == owner then m[last.locale := last.slug] else m
  }

  /**
   * The `forSlug` scope on the model class of morph `kind`: the owners of that
   * kind holding `slug` in the locale (the ambient one when none is given).
   */
  function ForSlug(rows: seq<SlugRow>, kind: string, slug: string, locale: Option<string>, current: string): set<Owner>
  {
    set i | 0 <= i < |rows| && rows[i].owner.kind == kind && rows[i].slug == slug && rows[i].locale == locale.GetOr(current)
      :: rows[i].owner
  }

  /** Because (slug, locale) is unique, `forSlug` finds at most one owner. */
  lemma ForSlugAtMostOne(rows: seq<SlugRow>, kind: string, slug: string, locale: Option<string>, current: string, a: Owner, b: Owner)
    requires UniqueKeys(rows)
    requires a in ForSlug(rows, kind, slug, locale, current) && b in ForSlug(rows, kind, slug, locale, current)
    ensures a == b
  {
    var i :| 0 <= i < |rows| && rows[i].slug == slug && rows[i].locale == locale.GetOr(current) && rows[i].owner == a;
    var j :| 0 <= j < |rows| && rows[j].slug == slug && rows[j].locale == locale.GetOr(current) && rows[j].owner == b;
  }

  /**
   * Once an owner has stored a slug in a locale, `forSlug` there on the owner's
   * model class finds that owner and no other; on any other class it finds none.
   */
  lemma ForSlugFindsStored(rows: seq<SlugRow>, owner: Owner, locale: string, base: string, current: string, kind: string)
    requires UniqueKeys(rows)
    ensures var r := StoreRows(rows, owner, locale, base);
      ForSlug(r, kind, Resolved(rows, base, locale, owner), Some(locale), current) == if kind == owner.kind then {owner} else {}
  {
    var slug := Resolved(rows, base, locale, owner);
    var r := StoreRows(rows, owner, locale, base);
    UpsertRowsSpec(rows, owner, locale, slug);
    var i :| 0 <= i < |r| && r[i] == SlugRow(slug, locale, owner);
    if kind == owner.kind {
      assert owner in ForSlug(r, kind, slug, Some(locale), current);
    }
    forall o | o in ForSlug(r, kind, slug, Some(locale), current)
      ensures o == owner && kind == owner.kind
    {
      var j :| 0 <= j < |r| && r[j].owner.kind == kind && r[j].slug == slug && r[j].locale == locale && r[j].owner == o;
      assert r[j].slug == r[i].slug && r[j].locale == r[i].locale;
    }
  }

  /**
   * An owner's own row never counts as a clash, so re-resolving the slug it
   * already holds gives that slug back.
   */
  lemma OwnSlugIsFree(rows: seq<SlugRow>, k: int)
    requires UniqueKeys(rows)
    requires 0 <= k < |rows|
    ensures !Clashes(rows, rows[k].slug, rows[k].locale, rows[k].owner)
  {
  }

  /**
   * Every locale in `locales` has a raw value, and the owner has a row there whose
   * slug derives from the slugified raw value.
   */
  ghost predicate SlugsFromFields(rows: seq<SlugRow>, owner: Owner, fields: seq<string>,
                                  read: (string, string) -> FieldValue, slugify: string -> string, locales: seq<string>)
  {
    forall k :: 0 <= k < |locales| ==>
      RawValueAt(fields, read, locales[k]).Ok?
      && HasSlugFrom(rows, owner, locales[k], slugify(RawValueAt(fields, read, locales[k]).value))
  }

  /** Storing the slug of one more locale extends `SlugsFromFields` to it, keeping the earlier locales. */
  lemma SlugsFromFieldsStep(before: seq<SlugRow>, after: seq<SlugRow>, owner: Owner, fields: seq<string>,
                            read: (string, string) -> FieldValue, slugify: string -> string, active: seq<string>, i: nat)
    requires i < |active| && forall a, b :: 0 <= a < b < |active| ==> active[a] != active[b]
    requires SlugsFromFields(before, owner, fields, read, slugify, active[..i])
    requires RawValueAt(fields, read, active[i]).Ok?
    requires HasSlugFrom(after, owner, active[i], slugify(RawValueAt(fields, read, active[i]).value))
    requires forall l, b :: l != active[i] && HasSlugFrom(before, owner, l, b) ==> HasSlugFrom(after, owner, l, b)
    ensures SlugsFromFields(after, owner, fields, read, slugify, active[..i + 1])
  {
    var done := active[..i + 1];
    forall k | 0 <= k < |done|
      ensures RawValueAt(fields, read, done[k]).Ok?
      ensures HasSlugFrom(after, owner, done[k], slugify(RawValueAt(fields, read, done[k]).value))
    {
      if k < i {
        assert active[..i][k] == done[k] != active[i];
      }
    }
  }

  /**
   * `setSlugs` stopped at the active locale `f`, whose raw value throws, after
   * writing the locales before it and nothing else.
   */
  ghost predicate FailedAt(before: seq<SlugRow>, after: seq<SlugRow>, owner: Owner, fields: seq<string>,
                           read: (string, string) -> FieldValue, slugify: string -> string, active: seq<string>, f: int)
  {
    && 0 <= f < |active|
    && RawValueAt(fields, read, active[f]).Err?
    && OnlyTouched(before, after, owner, active[..f])
    && SlugsFromFields(after, owner, fields, read, slugify, active[..f])
  }

  // ---------------------------------------------------------------------------
  // The table object
  // ---------------------------------------------------------------------------

  class SlugTable {
    var rows: seq<SlugRow>

    ghost predicate Valid()
      reads this
    {
      UniqueKeys(rows)
    }

    constructor ()
      ensures Valid() && rows == []
    {
      rows := [];
    }

    /**
     * `resolveUniqueSlug`: `base` when no other owner holds it in the locale,
     * otherwise `base-n` for the smallest n >= 1 that no other owner holds.
     */
    method ResolveUniqueSlug(base: string, locale: string, owner: Owner) returns (slug: string)
      ensures !Clashes(rows, slug, locale, owner)
      ensures !Clashes(rows, base, locale, owner) ==> slug == base
      ensures Clashes(rows, base, locale, owner) ==>
        exists n: nat :: n >= 1 && slug == Suffixed(base, n)
          && forall j: nat :: 1 <= j < n ==> Clashes(rows, Suffixed(base, j), locale, owner)
      ensures slug == Resolved(rows, base, locale, owner)
    {
      slug := base;
      var counter: nat := 1;
      ghost var bound := Pow10(LongestSlug(rows));
      while Clashes(rows, slug, locale, owner)
        invariant counter >= 1
        invariant counter == 1 ==> slug == base
        invariant counter > 1 ==> slug == Suffixed(base, counter - 1) && Clashes(rows, base, locale, owner)
        invariant forall j: nat :: 1 <= j < counter - 1 ==> Clashes(rows, Suffixed(base, j), locale, owner)
        invariant counter <= bound + 1
        invariant counter > 1 ==> FreeSuffixFrom(rows, base, locale, owner, 1) == FreeSuffixFrom(rows, base, locale, owner, counter - 1)
        decreases bound + 1 - counter
      {
        if counter > 1 {
          TakenSuffixIsSmall(rows, base, counter - 1, locale, owner);
        }
        slug := base + "-" + NatToString(counter);
        counter := counter + 1;
      }
    }

    /**
     * `upsertSlug`: `updateOrCreate` keyed on the owner's relation and the locale —
     * look the row up, then overwrite its slug or insert a new row.
     */
    method UpsertSlug(owner: Owner, locale: string, slug: string)
      requires Valid()
      requires !Clashes(rows, slug, locale, owner)
      modifies this
      ensures Valid()
      ensures rows == UpsertRows(old(rows), owner, locale, slug)
    {
      var k := -1;
      var i := 0;
      while i < |rows|
        invariant 0 <= i <= |rows|
        invariant k == FindRow(rows[..i], owner, locale)
      {
        assert rows[..i + 1][..i] == rows[..i];
        if k < 0 && rows[i].owner == owner && rows[i].locale == locale {
          k := i;
        }
        i := i + 1;
      }
      assert rows[..i] == rows;
      UpsertRowsSpec(rows, owner, locale, slug);
      if k >= 0 {
        rows := rows[k := SlugRow(slug, locale, owner)];
      } else {
        rows := rows + [SlugRow(slug, locale, owner)];
      }
    }

    /**
     * The step `setSlugs` and `updateSlugs` repeat per locale: resolve a unique
     * slug from `base`, then upsert it. The owner's rows in other locales and all
     * rows of other owners are left as they were.
     */
    method StoreUnique(owner: Owner, locale: string, base: string)
      requires Valid()
      modifies this
      ensures Valid()
      ensures OnlyTouched(old(rows), rows, owner, [locale])
      ensures HasSlugFrom(rows, owner, locale, base)
      ensures forall l, b :: l != locale && HasSlugFrom(old(rows), owner, l, b) ==> HasSlugFrom(rows, owner, l, b)
      ensures rows == StoreRows(old(rows), owner, locale, base)
    {
      var slug := ResolveUniqueSlug(base, locale, owner);
      UpsertRowsSpec(rows, owner, locale, slug);
      forall l, b | l != locale && HasSlugFrom(rows, owner, l, b)
        ensures HasSlugFrom(UpsertRows(rows, owner, locale, slug), owner, l, b)
      {
        UpsertKeepsOtherLocale(rows, owner, locale, slug, l, b);
      }
      UpsertSlug(owner, locale, slug);
      var w :| 0 <= w < |rows| && rows[w] == SlugRow(slug, locale, owner);
      assert DerivedFrom(rows[w].slug, base);
    }

    /** One round of `setSlugs`: the slug of `active[i]`, whose raw value is set, is stored. */
    method StoreFromFields(owner: Owner, fields: seq<string>, read: (string, string) -> FieldValue,
                           slugify: string -> string, active: seq<string>, i: nat, ghost start: seq<SlugRow>)
      requires Valid()
      requires i < |active| && forall a, b :: 0 <= a < b < |active| ==> active[a] != active[b]
      requires RawValueAt(fields, read, active[i]).Ok?
      requires OnlyTouched(start, rows, owner, active[..i])
      requires SlugsFromFields(rows, owner, fields, read, slugify, active[..i])
      requires SetRows(start, owner, fields, read, slugify, active) == SetRows(rows, owner, fields, read, slugify, active[i..])
      modifies this
      ensures Valid()
      ensures OnlyTouched(start, rows, owner, active[..i + 1])
      ensures SlugsFromFields(rows, owner, fields, read, slugify, active[..i + 1])
      ensures SetRows(start, owner, fields, read, slugify, active) == SetRows(rows, owner, fields, read, slugify, active[i + 1..])
    {
      var locale := active[i];
      ghost var before := rows;
      StoreUnique(owner, locale, slugify(RawValueAt(fields, read, locale).value));
      OnlyTouchedExtend(start, before, rows, owner, active, i);
      SlugsFromFieldsStep(before, rows, owner, fields, read, slugify, active, i);
      assert active[i..][0] == locale && active[i..][1..] == active[i + 1..];
    }

    /**
     * `setSlugs`: for each active locale in turn the ambient locale is switched to
     * it, the raw value is built and slugified, made unique and upserted. The
     * ambient locale is restored at the end; when a declared field is unset the
     * exception escapes with the ambient locale still switched and the earlier
     * locales already written.
     */
    method SetSlugs(owner: Owner, fields: seq<string>, read: (string, string) -> FieldValue,
                    slugify: string -> string, active: seq<string>, current: string)
      returns (outcome: Outcome, ambient: string)
      requires Valid()
      requires forall a, b :: 0 <= a < b < |active| ==> active[a] != active[b]
      modifies this
      ensures Valid()
      ensures OnlyTouched(old(rows), rows, owner, active)
      ensures outcome.Pass? <==> forall k :: 0 <= k < |active| ==> RawValueAt(fields, read, active[k]).Ok?
      ensures outcome.Pass? ==> ambient == current && SlugsFromFields(rows, owner, fields, read, slugify, active)
      ensures rows == SetRows(old(rows), owner, fields, read, slugify, active)
      ensures outcome.Fail? ==>
        exists f :: FailedAt(old(rows), rows, owner, fields, read, slugify, active, f)
                    && outcome.message == RawValueAt(fields, read, active[f]).message && ambient == active[f]
    {
      var i := 0;
      while i < |active|
        invariant 0 <= i <= |active|
        invariant Valid()
        invariant OnlyTouched(old(rows), rows, owner, active[..i])
        invariant SlugsFromFields(rows, owner, fields, read, slugify, active[..i])
        invariant SetRows(old(rows), owner, fields, read, slugify, active) == SetRows(rows, owner, fields, read, slugify, active[i..])
      {
        var locale := active[i];
        var raw := RawValueAt(fields, read, locale);
        if raw.Err? {
          assert active[i..][0] == locale;
          assert FailedAt(old(rows), rows, owner, fields, read, slugify, active, i);
          return Fail(raw.message), locale;
        }
        StoreFromFields(owner, fields, read, slugify, active, i, old(rows));
        i := i + 1;
      }
      assert active[..i] == active && active[i..] == [];
      return Pass, current;
    }

    /** One round of `updateSlugs`: the text given for `slugs[i]`'s locale is stored. */
    method StoreGiven(owner: Owner, slugs: seq<(string, string)>, i: nat, ghost start: seq<SlugRow>)
      requires Valid()
      requires i < |slugs| && forall a, b :: 0 <= a < b < |slugs| ==> slugs[a].0 != slugs[b].0
      requires OnlyTouched(start, rows, owner, Locales(slugs[..i]))
      requires forall k :: 0 <= k < i ==> HasSlugFrom(rows, owner, slugs[k].0, slugs[k].1)
      requires UpdateRows(start, owner, slugs) == UpdateRows(rows, owner, slugs[i..])
      modifies this
      ensures Valid()
      ensures OnlyTouched(start, rows, owner, Locales(slugs[..i + 1]))
      ensures forall k :: 0 <= k < i + 1 ==> HasSlugFrom(rows, owner, slugs[k].0, slugs[k].1)
      ensures UpdateRows(start, owner, slugs) == UpdateRows(rows, owner, slugs[i + 1..])
    {
      var (locale, text) := slugs[i];
      ghost var before := rows;
      StoreUnique(owner, locale, text);
      OnlyTouchedTrans(start, before, rows, owner, Locales(slugs[..i]), [locale]);
      assert slugs[..i + 1] == slugs[..i] + [slugs[i]];
      LocalesAppend(slugs[..i], slugs[i]);
      assert slugs[i..][0] == slugs[i] && slugs[i..][1..] == slugs[i + 1..];
    }

    /**
     * `updateSlugs`: each caller-supplied text is stored without slugifying it,
     * only made unique in its locale.
     */
    method UpdateSlugs(owner: Owner, slugs: seq<(string, string)>)
      requires Valid()
      requires forall a, b :: 0 <= a < b < |slugs| ==> slugs[a].0 != slugs[b].0
      modifies this
      ensures Valid()
      ensures OnlyTouched(old(rows), rows, owner, Locales(slugs))
      ensures forall k :: 0 <= k < |slugs| ==> HasSlugFrom(rows, owner, slugs[k].0, slugs[k].1)
      ensures rows == UpdateRows(old(rows), owner, slugs)
    {
      var i := 0;
      while i < |slugs|
        invariant 0 <= i <= |slugs|
        invariant Valid()
        invariant OnlyTouched(old(rows), rows, owner, Locales(slugs[..i]))
        invariant forall k :: 0 <= k < i ==> HasSlugFrom(rows, owner, slugs[k].0, slugs[k].1)
        invariant UpdateRows(old(rows), owner, slugs) == UpdateRows(rows, owner, slugs[i..])
      {
        StoreGiven(owner, slugs, i, old(rows));
        i := i + 1;
      }
      assert slugs[..i] == slugs && slugs[i..] == [];
    }

    /** `deleteSlugs`: every row of the owner is removed, the others stay. */
    method DeleteSlugs(owner: Owner)
      requires Valid()
      modifies this
      ensures Valid()
      ensures rows == WithoutOwner(old(rows), owner)
    {
      WithoutOwnerKeepsKeys(rows, owner);
      rows := WithoutOwner(rows, owner);
    }
  }

  /** The locales of a locale => slug list, in order. */
  function Locales(slugs: seq<(string, string)>): (r: seq<string>)
    ensures |r| == |slugs| && forall k :: 0 <= k < |slugs| ==> r[k] == slugs[k].0
  {
    if slugs == [] then [] else [slugs[0].0] + Locales(slugs[1..])
  }

  lemma LocalesAppend(slugs: seq<(string, string)>, p: (string, string))
    ensures Locales(slugs + [p]) == Locales(slugs) + [p.0]
  {
  }
}
