/**
 * The translation matrix of the `HasTranslations` trait.
 *
 * `fill` buffers the translated attributes of a model per locale; saving the
 * model (`syncTranslations`) upserts one row of the `translations` table per
 * (translated attribute, active locale), keyed on (locale, key, owner). Reads go
 * through a fallback: the current locale's non-empty body, else the first
 * non-empty body of the key, else ''.
 */
module Translations {
  import opened Wrappers
  import opened Morph
  import opened PhpStrings

  /** One row of the `translations` table; the body column is nullable. */
  datatype TranslationRow = TranslationRow(locale: string, key: string, owner: Owner, body: Option<string>)

  /**
   * A value given to `fill`: a string, a locale => text array, an integer or a
   * boolean (which the `string|array` closure parameter coerces to a string,
   * since the collection calls it from non-strict code), or anything else.
   */
  datatype Input = Text(text: string) | PerLocale(texts: map<string, string>) | IntInput(number: int)
                 | BoolInput(flag: bool) | OtherInput

  /** PHP's string coercion of a boolean. */
  function BoolText(b: bool): string
  {
    if b then "1" else ""
  }

  /** The unique index on (locale, key, translatable_type, translatable_id). */
  ghost predicate UniqueKeys(rows: seq<TranslationRow>)
  {
    forall i, j :: 0 <= i < |rows| && 0 <= j < |rows| && i != j ==>
      rows[i].locale != rows[j].locale || rows[i].key != rows[j].key || rows[i].owner != rows[j].owner
  }

  predicate Matches(row: TranslationRow, owner: Owner, locale: string, key: string)
  {
    row.owner == owner && row.locale == locale && row.key == key
  }

  /** Index of the first row of (owner, locale, key), or -1: the lookup half of `updateOrCreate`. */
  function FindRow(rows: seq<TranslationRow>, owner: Owner, locale: string, key: string): (k: int)
    ensures -1 <= k < |rows|
    ensures k >= 0 ==> Matches(rows[k], owner, locale, key)
    ensures k >= 0 ==> forall j :: 0 <= j < k ==> !Matches(rows[j], owner, locale, key)
    ensures k < 0 ==> forall j :: 0 <= j < |rows| ==> !Matches(rows[j], owner, locale, key)
  {
    if rows == [] then -1
    else
      var k := FindRow(rows[..|rows| - 1], owner, locale, key);
      if k >= 0 then k
      else if Matches(rows[|rows| - 1], owner, locale, key) then |rows| - 1
      else -1
  }

  /** `addOrUpdateTranslation` on the table value: overwrite the body of the row, or append one. */
  function UpsertRows(rows: seq<TranslationRow>, owner: Owner, locale: string, key: string, body: string): seq<TranslationRow>
  {
    var k := FindRow(rows, owner, locale, key);
    var row := TranslationRow(locale, key, owner, Some(body));
    if k >= 0 then rows[k := row] else rows + [row]
  }

  /** The owner has a row for (locale, key), and every such row holds `body`. */
  ghost predicate Holds(rows: seq<TranslationRow>, owner: Owner, locale: string, key: string, body: string)
  {
    (exists i :: 0 <= i < |rows| && Matches(rows[i], owner, locale, key))
    && forall i :: 0 <= i < |rows| && Matches(rows[i], owner, locale, key) ==> rows[i].body == Some(body)
  }

  /**
   * From `before` to `after` every old row kept its position and key columns,
   * only the owner's rows for `keys` x `locales` changed, and every appended row
   * is the owner's, for one of `keys` and one of `locales`.
   */
  ghost predicate OnlyTouched(before: seq<TranslationRow>, after: seq<TranslationRow>, owner: Owner,
                              keys: seq<string>, locales: seq<string>)
  {
    |before| <= |after|
    && (forall j :: 0 <= j < |before| ==>
          after[j].owner == before[j].owner && after[j].locale == before[j].locale && after[j].key == before[j].key)
    && (forall j :: 0 <= j < |before| && !(before[j].owner == owner && before[j].key in keys && before[j].locale in locales) ==>
          after[j] == before[j])
    && (forall j :: |before| <= j < |after| ==>
          after[j].owner == owner && after[j].key in keys && after[j].locale in locales)
  }

  lemma OnlyTouchedTrans(a: seq<TranslationRow>, b: seq<TranslationRow>, c: seq<TranslationRow>, owner: Owner,
                         k1: seq<string>, l1: seq<string>, k2: seq<string>, l2: seq<string>, ks: seq<string>, ls: seq<string>)
    requires OnlyTouched(a, b, owner, k1, l1) && OnlyTouched(b, c, owner, k2, l2)
    requires forall x :: x in k1 || x in k2 ==> x in ks
    requires forall x :: x in l1 || x in l2 ==> x in ls
    ensures OnlyTouched(a, c, owner, ks, ls)
  {
  }

  /**
   * Upserting keeps the (locale, key, owner) tuple unique, leaves exactly the new
   * body for the tuple and touches nothing else.
   */
  lemma UpsertRowsSpec(rows: seq<TranslationRow>, owner: Owner, locale: string, key: string, body: string)
    requires UniqueKeys(rows)
    ensures var r := UpsertRows(rows, owner, locale, key, body);
      && UniqueKeys(r)
      && Holds(r, owner, locale, key, body)
      && OnlyTouched(rows, r, owner, [key], [locale])
  {
    var r := UpsertRows(rows, owner, locale, key, body);
    var k := FindRow(rows, owner, locale, key);
    if k >= 0 {
      assert Matches(r[k], owner, locale, key);
    } else {
      assert Matches(r[|rows|], owner, locale, key);
    }
  }

  /** Upserting one tuple keeps what holds for every other tuple of the owner. */
  lemma UpsertKeepsHolds(rows: seq<TranslationRow>, owner: Owner, locale: string, key: string, body: string,
                         l: string, a: string, b: string)
    requires l != locale || a != key
    requires Holds(rows, owner, l, a, b)
    ensures Holds(UpsertRows(rows, owner, locale, key, body), owner, l, a, b)
  {
    var i :| 0 <= i < |rows| && Matches(rows[i], owner, l, a);
    assert UpsertRows(rows, owner, locale, key, body)[i] == rows[i];
  }

  /** Upserting the body a tuple already holds changes nothing. */
  lemma UpsertWhenHolds(rows: seq<TranslationRow>, owner: Owner, locale: string, key: string, body: string)
    requires Holds(rows, owner, locale, key, body)
    ensures UpsertRows(rows, owner, locale, key, body) == rows
  {
    var k := FindRow(rows, owner, locale, key);
    assert rows[k] == TranslationRow(locale, key, owner, Some(body));
  }

  // ---------------------------------------------------------------------------
  // The buffer and the sync
  // ---------------------------------------------------------------------------

  /** The buffered text of `key` in `locale`, or '' when there is none. */
  function Buffered(texts: map<string, map<string, string>>, key: string, locale: string): string
  {
    if key in texts && locale in texts[key] then texts[key][locale] else ""
  }

  /**
   * What `fill` buffers for each translated key it is given: a string under the
   * current locale, an array as it is, an integer or boolean as its string form
   * under the current locale.
   */
  function BufferOf(input: map<string, Input>, translated: seq<string>, current: string): (m: map<string, map<string, string>>)
    ensures forall k :: k in m <==> k in input && k in translated
    ensures forall k :: k in m && input[k].Text? ==> m[k] == map[current := input[k].text]
    ensures forall k :: k in m && input[k].PerLocale? ==> m[k] == input[k].texts
    ensures forall k :: k in m && input[k].IntInput? ==> m[k] == map[current := IntToString(input[k].number)]
    ensures forall k :: k in m && input[k].BoolInput? ==> m[k] == map[current := BoolText(input[k].flag)]
  {
    map k | k in input && k in translated ::
      match input[k]
      case Text(s) => map[current := s]
      case PerLocale(t) => t
      case IntInput(n) => map[current := IntToString(n)]
      case BoolInput(b) => map[current := BoolText(b)]
      case OtherInput => map[]
  }

  /** The keys `fill` hands to the model's own attributes, unchanged. */
  function Untranslated(input: map<string, Input>, translated: seq<string>): (m: map<string, Input>)
    ensures forall k :: k in m <==> k in input && k !in translated
    ensures forall k :: k in m ==> m[k] == input[k]
  {
    map k | k in input && k !in translated :: input[k]
  }

  /** One attribute synced over a prefix of the locales, in order. */
  function SyncAttribute(rows: seq<TranslationRow>, owner: Owner, key: string, locales: seq<string>,
                         texts: map<string, map<string, string>>): seq<TranslationRow>
  {
    if locales == [] then rows
    else
      var l := locales[|locales| - 1];
      UpsertRows(SyncAttribute(rows, owner, key, locales[..|locales| - 1], texts), owner, l, key, Buffered(texts, key, l))
  }

  /** `syncTranslations` on the table value: every attribute over every locale. */
  function SyncRows(rows: seq<TranslationRow>, owner: Owner, keys: seq<string>, locales: seq<string>,
                    texts: map<string, map<string, string>>): seq<TranslationRow>
  {
    if keys == [] then rows
    else SyncAttribute(SyncRows(rows, owner, keys[..|keys| - 1], locales, texts), owner, keys[|keys| - 1], locales, texts)
  }

  /** Every (key, locale) pair of the matrix holds its buffered text. */
  ghost predicate Matrix(rows: seq<TranslationRow>, owner: Owner, keys: seq<string>, locales: seq<string>,
                         texts: map<string, map<string, string>>)
  {
    forall a, l :: a in keys && l in locales ==> Holds(rows, owner, l, a, Buffered(texts, a, l))
  }

  lemma {:induction false} SyncAttributeSpec(rows: seq<TranslationRow>, owner: Owner, key: string, locales: seq<string>,
                                             texts: map<string, map<string, string>>)
    requires UniqueKeys(rows)
    ensures var r := SyncAttribute(rows, owner, key, locales, texts);
      && UniqueKeys(r)
      && OnlyTouched(rows, r, owner, [key], locales)
      && (forall l :: l in locales ==> Holds(r, owner, l, key, Buffered(texts, key, l)))
      && (forall a, l, b :: a != key && Holds(rows, owner, l, a, b) ==> Holds(r, owner, l, a, b))
  {
    if locales != [] {
      var init := locales[..|locales| - 1];
      var l := locales[|locales| - 1];
      var mid := SyncAttribute(rows, owner, key, init, texts);
      SyncAttributeSpec(rows, owner, key, init, texts);
      UpsertRowsSpec(mid, owner, l, key, Buffered(texts, key, l));
      var r := UpsertRows(mid, owner, l, key, Buffered(texts, key, l));
      forall l2 | l2 in locales ensures Holds(r, owner, l2, key, Buffered(texts, key, l2)) {
        if l2 != l {
          assert l2 in init;
          UpsertKeepsHolds(mid, owner, l, key, Buffered(texts, key, l), l2, key, Buffered(texts, key, l2));
        }
      }
      forall a, l2, b | a != key && Holds(rows, owner, l2, a, b) ensures Holds(r, owner, l2, a, b) {
        UpsertKeepsHolds(mid, owner, l, key, Buffered(texts, key, l), l2, a, b);
      }
      OnlyTouchedTrans(rows, mid, r, owner, [key], init, [key], [l], [key], locales);
    }
  }

  /**
   * After the sync the owner has exactly one row per (attribute, locale) of the
   * matrix, holding the buffered text or '', and nothing outside the matrix changed.
   */
  lemma {:induction false} SyncRowsSpec(rows: seq<TranslationRow>, owner: Owner, keys: seq<string>, locales: seq<string>,
                                        texts: map<string, map<string, string>>)
    requires UniqueKeys(rows)
    ensures var r := SyncRows(rows, owner, keys, locales, texts);
      && UniqueKeys(r)
      && OnlyTouched(rows, r, owner, keys, locales)
      && Matrix(r, owner, keys, locales, texts)
  {
    if keys != [] {
      var init := keys[..|keys| - 1];
      var key := keys[|keys| - 1];
      var mid := SyncRows(rows, owner, init, locales, texts);
      SyncRowsSpec(rows, owner, init, locales, texts);
      SyncAttributeSpec(mid, owner, key, locales, texts);
      var r := SyncAttribute(mid, owner, key, locales, texts);
      forall a, l | a in keys && l in locales ensures Holds(r, owner, l, a, Buffered(texts, a, l)) {
        if a != key {
          assert a in init;
        }
      }
      OnlyTouchedTrans(rows, mid, r, owner, init, locales, [key], locales, keys, locales);
    }
  }

  lemma {:induction false} SyncAttributeNoop(rows: seq<TranslationRow>, owner: Owner, key: string, locales: seq<string>,
                                             texts: map<string, map<string, string>>)
    requires forall l :: l in locales ==> Holds(rows, owner, l, key, Buffered(texts, key, l))
    ensures SyncAttribute(rows, owner, key, locales, texts) == rows
  {
    if locales != [] {
      var l := locales[|locales| - 1];
      SyncAttributeNoop(rows, owner, key, locales[..|locales| - 1], texts);
      UpsertWhenHolds(rows, owner, l, key, Buffered(texts, key, l));
    }
  }

  lemma {:induction false} SyncRowsNoop(rows: seq<TranslationRow>, owner: Owner, keys: seq<string>, locales: seq<string>,
                                        texts: map<string, map<string, string>>)
    requires Matrix(rows, owner, keys, locales, texts)
    ensures SyncRows(rows, owner, keys, locales, texts) == rows
  {
    if keys != [] {
      var key := keys[|keys| - 1];
      SyncRowsNoop(rows, owner, keys[..|keys| - 1], locales, texts);
      SyncAttributeNoop(rows, owner, key, locales, texts);
    }
  }

  /** Syncing twice, as `created` and `saved` both do, is the same as syncing once. */
  lemma SyncIdempotent(rows: seq<TranslationRow>, owner: Owner, keys: seq<string>, locales: seq<string>,
                       texts: map<string, map<string, string>>)
    requires UniqueKeys(rows)
    ensures var once := SyncRows(rows, owner, keys, locales, texts);
      SyncRows(once, owner, keys, locales, texts) == once
  {
    SyncRowsSpec(rows, owner, keys, locales, texts);
    SyncRowsNoop(SyncRows(rows, owner, keys, locales, texts), owner, keys, locales, texts);
  }

  /** A locale that is not active gets no row, whatever the buffer holds for it. */
  lemma InactiveLocaleNeverStored(rows: seq<TranslationRow>, owner: Owner, keys: seq<string>, locales: seq<string>,
                                  texts: map<string, map<string, string>>, locale: string)
    requires UniqueKeys(rows)
    requires locale !in locales
    requires forall i :: 0 <= i < |rows| ==> rows[i].owner != owner || rows[i].locale != locale
    ensures var r := SyncRows(rows, owner, keys, locales, texts);
      forall i :: 0 <= i < |r| ==> r[i].owner != owner || r[i].locale != locale
  {
    SyncRowsSpec(rows, owner, keys, locales, texts);
  }

  ghost predicate NoRowsFor(rows: seq<TranslationRow>, owner: Owner, keys: seq<string>)
  {
    forall i :: 0 <= i < |rows| && rows[i].owner == owner ==> rows[i].key !in keys
  }

  ghost predicate Distinct(s: seq<string>)
  {
    forall a, b :: 0 <= a < b < |s| ==> s[a] != s[b]
  }

  lemma {:induction false} SyncAttributeFresh(rows: seq<TranslationRow>, owner: Owner, key: string, locales: seq<string>,
                                              texts: map<string, map<string, string>>)
    requires UniqueKeys(rows)
    requires NoRowsFor(rows, owner, [key])
    requires Distinct(locales)
    ensures |SyncAttribute(rows, owner, key, locales, texts)| == |rows| + |locales|
  {
    if locales != [] {
      var init := locales[..|locales| - 1];
      var l := locales[|locales| - 1];
      assert Distinct(init);
      SyncAttributeFresh(rows, owner, key, init, texts);
      SyncAttributeSpec(rows, owner, key, init, texts);
      var mid := SyncAttribute(rows, owner, key, init, texts);
      forall j | 0 <= j < |mid| ensures !Matches(mid[j], owner, l, key) {
        if j >= |rows| {
          assert mid[j].locale in init;
        }
      }
    }
  }

  lemma MulSucc(a: nat, b: nat)
    ensures (a + 1) * b == a * b + b
  {
  }

  /** Touching the rows of some attributes creates no row for another attribute. */
  lemma TouchKeepsOtherKeyFree(before: seq<TranslationRow>, after: seq<TranslationRow>, owner: Owner,
                               keys: seq<string>, locales: seq<string>, key: string)
    requires OnlyTouched(before, after, owner, keys, locales)
    requires NoRowsFor(before, owner, [key]) && key !in keys
    ensures NoRowsFor(after, owner, [key])
  {
    forall j | 0 <= j < |after| && after[j].owner == owner ensures after[j].key !in [key] {
      if j < |before| {
        assert before[j].owner == owner;
      }
    }
  }

  /**
   * Syncing an owner that has no rows for the attributes yet appends exactly
   * |attributes| * |locales| rows.
   */
  lemma {:induction false} SyncRowsFresh(rows: seq<TranslationRow>, owner: Owner, keys: seq<string>, locales: seq<string>,
                                         texts: map<string, map<string, string>>)
    requires UniqueKeys(rows)
    requires NoRowsFor(rows, owner, keys)
    requires Distinct(keys) && Distinct(locales)
    ensures |SyncRows(rows, owner, keys, locales, texts)| == |rows| + |keys| * |locales|
  {
    if keys != [] {
      var init := keys[..|keys| - 1];
      var key := keys[|keys| - 1];
      assert Distinct(init);
      assert NoRowsFor(rows, owner, init);
      SyncRowsFresh(rows, owner, init, locales, texts);
      SyncRowsSpec(rows, owner, init, locales, texts);
      var mid := SyncRows(rows, owner, init, locales, texts);
      assert key !in init && NoRowsFor(rows, owner, [key]);
      TouchKeepsOtherKeyFree(rows, mid, owner, init, locales, key);
      SyncAttributeFresh(mid, owner, key, locales, texts);
      assert SyncRows(rows, owner, keys, locales, texts) == SyncAttribute(mid, owner, key, locales, texts);
      MulSucc(|init|, |locales|);
    }
  }

  /** Two attributes over two active locales give four new rows. */
  lemma TwoByTwoGivesFour(rows: seq<TranslationRow>, owner: Owner, texts: map<string, map<string, string>>)
    requires UniqueKeys(rows)
    requires forall i :: 0 <= i < |rows| ==> rows[i].owner != owner
    ensures |SyncRows(rows, owner, ["title", "description"], ["en", "fr"], texts)| == |rows| + 4
  {
    SyncRowsFresh(rows, owner, ["title", "description"], ["en", "fr"], texts);
  }

  // ---------------------------------------------------------------------------
  // Reads
  // ---------------------------------------------------------------------------

  /** A row `findTranslation` considers: the owner's, for the key, with a non-null non-empty body, in the locale if one is asked. */
  predicate Eligible(row: TranslationRow, owner: Owner, key: string, locale: Option<string>)
  {
    row.owner == owner && row.key == key && row.body.Some? && row.body.value != ""
    && (locale.Some? ==> row.locale == locale.value)
  }

  ghost predicate IsFirstEligible(rows: seq<TranslationRow>, owner: Owner, key: string, locale: Option<string>, i: int)
  {
    0 <= i < |rows| && Eligible(rows[i], owner, key, locale)
    && forall j :: 0 <= j < i ==> !Eligible(rows[j], owner, key, locale)
  }

  /** The first eligible row in load order. */
  function FirstEligible(rows: seq<TranslationRow>, owner: Owner, key: string, locale: Option<string>): (r: Option<TranslationRow>)
    ensures r.None? <==> forall i :: 0 <= i < |rows| ==> !Eligible(rows[i], owner, key, locale)
    ensures r.Some? ==> exists i :: IsFirstEligible(rows, owner, key, locale, i) && rows[i] == r.value
  {
    if rows == [] then None
    else if Eligible(rows[0], owner, key, locale) then Some(rows[0])
    else
      var r := FirstEligible(rows[1..], owner, key, locale);
      assert forall j :: 1 <= j < |rows| ==> rows[j] == rows[1..][j - 1];
      r
  }

  /**
   * `findTranslation`: the first non-empty row of the key in the current locale,
   * else the first non-empty row of the key in any locale.
   */
  function FindTranslation(rows: seq<TranslationRow>, owner: Owner, key: string, current: string): (r: Option<TranslationRow>)
    ensures r.None? <==> forall i :: 0 <= i < |rows| ==> !Eligible(rows[i], owner, key, None)
    ensures r.Some? ==> r.value in rows && Eligible(r.value, owner, key, None)
    ensures (exists i :: 0 <= i < |rows| && Eligible(rows[i], owner, key, Some(current))) ==> r.Some? && r.value.locale == current
    ensures r.Some? && r.value.locale != current ==>
      exists i :: 0 <= i < |rows| && rows[i] == r.value && forall j :: 0 <= j < i ==> !Eligible(rows[j], owner, key, None)
  {
    match FirstEligible(rows, owner, key, Some(current))
    case Some(t) => Some(t)
    case None => FirstEligible(rows, owner, key, None)
  }

  /** `getAttribute` on a translated key: the body `findTranslation` picks, or ''. */
  function TranslatedValue(rows: seq<TranslationRow>, owner: Owner, key: string, current: string): (r: string)
    ensures r == "" <==> forall i :: 0 <= i < |rows| ==> !Eligible(rows[i], owner, key, None)
    ensures UniqueKeys(rows) ==>
      forall i :: 0 <= i < |rows| && Eligible(rows[i], owner, key, Some(current)) ==> r == rows[i].body.value
  {
    match FindTranslation(rows, owner, key, current)
    case Some(t) => t.body.value
    case None => ""
  }

  /** `translationsFor`: locale => body over the owner's rows of the key, a later row overriding an earlier one. */
  function TranslationsFor(rows: seq<TranslationRow>, owner: Owner, key: string): (m: map<string, Option<string>>)
    ensures forall l :: l in m <==> exists i :: 0 <= i < |rows| && Matches(rows[i], owner, l, key)
    ensures forall l :: l in m ==> exists i :: 0 <= i < |rows| && Matches(rows[i], owner, l, key) && m[l] == rows[i].body
  {
    if rows == [] then map[]
    else
      var init := rows[..|rows| - 1];
      var m := TranslationsFor(init, owner, key);
      var last := rows[|rows| - 1];
      assert forall i :: 0 <= i < |init| ==> init[i] == rows[i];
      if last.owner == owner && last.key == key then m[last.locale := last.body] else m
  }

  /**
   * Filling a string for a translated attribute and saving makes the attribute
   * read back as that string in the current locale, when the locale is active
   * and the string is not empty.
   */
  lemma FillSyncRead(rows: seq<TranslationRow>, owner: Owner, translated: seq<string>, locales: seq<string>,
                     texts: map<string, map<string, string>>, input: map<string, Input>, key: string, current: string)
    requires UniqueKeys(rows)
    requires key in input && input[key].Text? && input[key].text != ""
    requires key in translated && current in locales
    ensures var r := SyncRows(rows, owner, translated, locales, texts + BufferOf(input, translated, current));
      TranslatedValue(r, owner, key, current) == input[key].text
  {
    var t := texts + BufferOf(input, translated, current);
    assert Buffered(t, key, current) == input[key].text;
    SyncRowsSpec(rows, owner, translated, locales, t);
    var r := SyncRows(rows, owner, translated, locales, t);
    assert Holds(r, owner, current, key, Buffered(t, key, current));
    var i :| 0 <= i < |r| && Matches(r[i], owner, current, key);
    assert Eligible(r[i], owner, key, Some(current));
  }

  /** After a sync `translationsFor` maps every active locale to its buffered text, '' included. */
  lemma SyncTranslationsFor(rows: seq<TranslationRow>, owner: Owner, keys: seq<string>, locales: seq<string>,
                            texts: map<string, map<string, string>>, key: string, locale: string)
    requires UniqueKeys(rows)
    requires key in keys && locale in locales
    ensures var m := TranslationsFor(SyncRows(rows, owner, keys, locales, texts), owner, key);
      locale in m && m[locale] == Some(Buffered(texts, key, locale))
  {
    SyncRowsSpec(rows, owner, keys, locales, texts);
    assert Holds(SyncRows(rows, owner, keys, locales, texts), owner, locale, key, Buffered(texts, key, locale));
  }

  /** `deleteTranslations` on the table value: every row of the owner removed, the rest kept in order. */
  function WithoutOwner(rows: seq<TranslationRow>, owner: Owner): (r: seq<TranslationRow>)
    ensures |r| <= |rows|
    ensures forall x :: x in r <==> x in rows && x.owner != owner
  {
    if rows == [] then []
    else if rows[0].owner == owner then WithoutOwner(rows[1..], owner)
    else [rows[0]] + WithoutOwner(rows[1..], owner)
  }

  lemma {:induction false} WithoutOwnerKeepsKeys(rows: seq<TranslationRow>, owner: Owner)
    requires UniqueKeys(rows)
    ensures UniqueKeys(WithoutOwner(rows, owner))
  {
    if rows != [] {
      assert UniqueKeys(rows[1..]) by {
        forall i, j | 0 <= i < |rows[1..]| && 0 <= j < |rows[1..]| && i != j
          ensures rows[1..][i].locale != rows[1..][j].locale || rows[1..][i].key != rows[1..][j].key
            || rows[1..][i].owner != rows[1..][j].owner
        {
          assert rows[1..][i] == rows[i + 1] && rows[1..][j] == rows[j + 1];
        }
      }
      WithoutOwnerKeepsKeys(rows[1..], owner);
      var tail := WithoutOwner(rows[1..], owner);
      if rows[0].owner != owner {
        var r := [rows[0]] + tail;
        forall i | 0 <= i < |tail|
          ensures rows[0].locale != tail[i].locale || rows[0].key != tail[i].key || rows[0].owner != tail[i].owner
        {
          assert tail[i] in rows[1..];
          var j :| 0 <= j < |rows[1..]| && rows[1..][j] == tail[i];
          assert rows[j + 1] == tail[i];
        }
        forall i, j | 0 <= i < |r| && 0 <= j < |r| && i != j
          ensures r[i].locale != r[j].locale || r[i].key != r[j].key || r[i].owner != r[j].owner
        {
          if i > 0 && j > 0 {
            assert r[i] == tail[i - 1] && r[j] == tail[j - 1];
          } else if i == 0 {
            assert r[j] == tail[j - 1];
          } else {
            assert r[i] == tail[i - 1];
          }
        }
      }
    }
  }

  // ---------------------------------------------------------------------------
  // The table and the model objects
  // ---------------------------------------------------------------------------

  class TranslationTable {
    var rows: seq<TranslationRow>

    ghost predicate Valid()
      reads this
    {
      UniqueKeys(rows)
    }

    constructor ()
      ensures Valid() && rows == []
    {
      rows := [];
    }

    /** `addOrUpdateTranslation`: `updateOrCreate` keyed on (locale, key, owner), writing the body. */
    method AddOrUpdate(owner: Owner, locale: string, key: string, body: string)
      requires Valid()
      modifies this
      ensures Valid()
      ensures rows == UpsertRows(old(rows), owner, locale, key, body)
    {
      var k := -1;
      var i := 0;
      while i < |rows|
        invariant 0 <= i <= |rows|
        invariant k == FindRow(rows[..i], owner, locale, key)
      {
        assert rows[..i + 1][..i] == rows[..i];
        if k < 0 && Matches(rows[i], owner, locale, key) {
          k := i;
        }
        i := i + 1;
      }
      assert rows[..i] == rows;
      UpsertRowsSpec(rows, owner, locale, key, body);
      var row := TranslationRow(locale, key, owner, Some(body));
      if k >= 0 {
        rows := rows[k := row];
      } else {
        rows := rows + [row];
      }
    }
  }

  /** A model using the trait: its own attributes and the pending translation buffer. */
  class TranslatableModel {
    const owner: Owner
    const translatedAttributes: seq<string>
    var attributes: map<string, Input>
    var translatedTexts: map<string, map<string, string>>

    constructor (owner: Owner, translatedAttributes: seq<string>)
      ensures this.owner == owner && this.translatedAttributes == translatedAttributes
      ensures attributes == map[] && translatedTexts == map[]
    {
      this.owner := owner;
      this.translatedAttributes := translatedAttributes;
      attributes := map[];
      translatedTexts := map[];
    }

    /**
     * `fill`: each translated key is buffered (a string under the current locale,
     * an array as it is, replacing what was buffered for that key); the other
     * keys go to the model's attributes unchanged.
     */
    method Fill(input: map<string, Input>, current: string)
      requires forall k :: k in input && k in translatedAttributes ==> !input[k].OtherInput?
      modifies this
      ensures translatedTexts == old(translatedTexts) + BufferOf(input, translatedAttributes, current)
      ensures attributes == old(attributes) + Untranslated(input, translatedAttributes)
    {
      translatedTexts := translatedTexts + BufferOf(input, translatedAttributes, current);
      attributes := attributes + Untranslated(input, translatedAttributes);
    }

    /** One attribute of `syncTranslations`: its buffered text upserted for every active locale, in order. */
    method SyncAttributeInto(table: TranslationTable, key: string, locales: seq<string>)
      requires table.Valid()
      modifies table
      ensures table.Valid()
      ensures table.rows == SyncAttribute(old(table.rows), owner, key, locales, translatedTexts)
    {
      var l := 0;
      while l < |locales|
        invariant 0 <= l <= |locales|
        invariant table.Valid()
        invariant table.rows == SyncAttribute(old(table.rows), owner, key, locales[..l], translatedTexts)
      {
        assert locales[..l + 1][..l] == locales[..l];
        table.AddOrUpdate(owner, locales[l], key, Buffered(translatedTexts, key, locales[l]));
        l := l + 1;
      }
      assert locales[..l] == locales;
    }

    /** `syncTranslations`: every translated attribute, over every active locale, upserted in order. */
    method SyncTranslations(table: TranslationTable, locales: seq<string>)
      requires table.Valid()
      modifies table
      ensures table.Valid()
      ensures table.rows == SyncRows(old(table.rows), owner, translatedAttributes, locales, translatedTexts)
    {
      var a := 0;
      while a < |translatedAttributes|
        invariant 0 <= a <= |translatedAttributes|
        invariant table.Valid()
        invariant table.rows == SyncRows(old(table.rows), owner, translatedAttributes[..a], locales, translatedTexts)
      {
        SyncAttributeInto(table, translatedAttributes[a], locales);
        assert translatedAttributes[..a + 1][..a] == translatedAttributes[..a];
        a := a + 1;
      }
      assert translatedAttributes[..a] == translatedAttributes;
    }

    /** `deleteTranslations`: every row of this model is removed, the others stay. */
    method DeleteTranslations(table: TranslationTable)
      requires table.Valid()
      modifies table
      ensures table.Valid()
      ensures table.rows == WithoutOwner(old(table.rows), owner)
    {
      WithoutOwnerKeepsKeys(table.rows, owner);
      table.rows := WithoutOwner(table.rows, owner);
    }
  }
}
