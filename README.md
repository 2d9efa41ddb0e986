# wire-up core, modelled in Dafny

wire-up is a Laravel application for managing multilingual pages with media. This project
models the logic at its core and proves properties of it:

- **Per-locale slugs** (`HasSlugs`). A slug is derived from one or more model fields for every
  active locale. When another model already holds it, the slug is made unique with `-1`, `-2`, …
  suffixes. Slugs can be stored, updated, read, looked up and deleted.
- **Per-locale translations** (`HasTranslations`). `fill` buffers translated attributes. On save
  they are synchronised into the translations table for every active locale. Reads fall back from
  the current locale to any non-empty translation.
- **Image delivery** (`ImageService`). An option string such as `w=..,h=..,crop=..,q=..,fm=..`
  is parsed. The crop rectangle is validated. The scaling arguments are clamped, and the response
  format and encoder are chosen.
- **Media selection** (`HasMedia`). Attachments are selected by type, role, crop variant and locale.
  The option string for an image link is rendered and round-trips through `ImageService`.
- **Locale handling** (`LocalizationService`, `LocaleRedirect`). The locale is taken from the
  request's first path segment. Locale metadata is looked up. The default locale's prefix is
  stripped, a URL is localized into another locale, and GET requests that name the default
  locale are redirected.
- **Smaller pieces.**
  - Page status and media type enums.
  - A page's computed status and its published scope.
  - The page update action's publication rules.
  - The sortable list state.
  - User initials and photo URL.
  - The throttled last-access update.
  - The `make:action` command's name normalisation.

Each PHP file is one Dafny module:

| file | module | form |
|---|---|---|
| `has_slugs.dfy` | `Slugs` | specification functions and lemmas on slug rows; class `SlugTable` whose methods update the table |
| `has_translations.dfy` | `Translations` | specification functions and lemmas on translation rows; classes `TranslationTable` and `TranslatableModel` |
| `image_service.dfy` | `Images` | option/crop parsing as functions; class `ImageService` holding options, image size and scale calls |
| `has_media.dfy` | `Media` | selectors and the option string as functions and lemmas |
| `localization.dfy` | `Localization` | lookups, stripping, URL localization as functions; class `LocalizationService` for `setLocale` |
| `locale_redirect.dfy` | `LocaleRedirects` | the middleware's decision as a function |
| `page_status.dfy`, `media_type.dfy` | `PageStatuses`, `MediaTypes` | enums as datatypes |
| `page.dfy` | `Pages` | computed status and published scope |
| `update_page_action.dfy` | `PageActions` | publication rules; method `Handle` updating a `PageModel` and its slugs |
| `with_sorting.dfy` | `Sorting` | sort step as a function; class `SortableList` |
| `user.dfy` | `Users` | initials and photo URL |
| `user_last_access.dfy` | `UserAccess` | class `UserRecord` with the throttled update |
| `make_action.dfy` | `ActionNames` | `mb_trim` and `Str::replaceEnd` chain |
| `php_strings.dfy` | `PhpStrings` | PHP built-ins the core relies on: `intval`, decimal formatting, `explode`/`preg_split`, `implode`, `ltrim` |
| `wrappers.dfy`, `morph.dfy` | `Wrappers`, `Morph` | `Option`, `Result`, `Outcome`; the polymorphic owner of a slug/translation/media row |

Database tables are sequences of rows. The predicate `UniqueKeys` holds the keys of each table: for
slugs, the unique index on (slug, locale) plus one row per (owner, locale), which `updateOrCreate`
keyed on the locale keeps; for translations, the unique index on (locale, key, owner). And
every table method preserves it. The ambient application locale, the active-locale list, the
clock, field reads and `Str::slug` are explicit parameters.

Some behaviour follows the code rather than its documentation or intuition:

- `UpdatePageAction::handlePublication` matches the requested status strictly against enum cases.
  A raw string such as `'published'` therefore yields a draft.
- Carbon 3's `diffInMinutes` is signed. The last-access update fires when more than 30 minutes
  have elapsed.
- The regular expression in `stripDefaultLocale` allows `$` before a final newline. So `"en\n"`
  is stripped as well as `"en"` and `"en/…"`.
- `ImageService::parseCrop` splits on both `,` and `-`. A negative offset is therefore a separator
  followed by a positive number, and a leading `-` makes the first part empty (`intval` of it is 0,
  so the crop is rejected).
- `ImageService::applyOptions` passes a negative `w`/`h` on to `scale`. A negative integer is
  truthy and smaller than the image size.

## Model

| member | source | states |
|---|---|---|
| Slugs.NormalizedFields | app/Traits/HasSlugs.php:88-107 | fails exactly when some field is unset (undefined or null), with the first such field named in the message; otherwise one normalized value per field |
| Slugs.TruthyOnly | app/Traits/HasSlugs.php:96 | keeps only values that are neither empty nor "0"; a single value is kept iff it is truthy; all falsy input gives no parts |
| Slugs.TruthyOnlyAppend | app/Traits/HasSlugs.php:96 | filtering a concatenation filters each part and keeps them in order, so the kept values are the truthy ones in field order |
| Slugs.BuildRawValue | app/Traits/HasSlugs.php:88-98 | error iff some field is unset, naming the first one; otherwise the truthy normalized field values, in field order, joined with one space (empty when every field is falsy) |
| Slugs.RawValueOfTitleAndCase | app/Traits/HasSlugs.php:88-98 | a title and a backed enum field give "title backing" (a "Test" page with status published gives "Test published") |
| Slugs.RawValueSkipsFalsy | app/Traits/HasSlugs.php:88-98 | a falsy second field adds nothing: the raw value is the title alone |
| Slugs.FindRow | app/Traits/HasSlugs.php:111-113 | returns the first row with this owner and locale, or -1 when there is none |
| Slugs.TakenSuffixIsSmall | app/Traits/HasSlugs.php:126-138 | a taken candidate `base-n` has n below 10^(longest stored slug): the suffix search terminates |
| Slugs.FreeSuffixFrom | app/Traits/HasSlugs.php:126-138 | the least suffix n >= from whose candidate `base-n` does not clash: every suffix between from and n clashes |
| Slugs.Resolved | app/Traits/HasSlugs.php:121-141 | the slug the resolution yields: the base when no other owner holds it in the locale, else `base-n` for the least free n >= 1; never a clash |
| Slugs.SlugTable.ResolveUniqueSlug | app/Traits/HasSlugs.php:121-141 | the loop returns exactly `Resolved`: the base when that is free (the owner's own row is ignored), else `base-n` for the least n >= 1 that is free |
| Slugs.SlugTable.UpsertSlug | app/Traits/HasSlugs.php:109-119 | the table becomes the upsert of the row keyed by owner and locale; the unique index keeps holding |
| Slugs.UpsertRowsSpec | app/Traits/HasSlugs.php:109-119 | the upsert keeps the unique index, leaves the owner holding the slug in that locale, and changes no other owner's or locale's row |
| Slugs.UpsertKeepsOtherLocale | app/Traits/HasSlugs.php:109-119 | upserting one locale keeps the slug the owner derived for another locale |
| Slugs.OnlyTouchedTrans | app/Traits/HasSlugs.php:41-53 | "only this owner's rows for these locales changed" composes across successive upserts |
| Slugs.SlugTable.StoreUnique | app/Traits/HasSlugs.php:47-49 | the table becomes the upsert of the resolved slug under (owner, locale); the owner then holds a slug derived from the base, and nothing else changes |
| Slugs.SlugTable.SetSlugs | app/Traits/HasSlugs.php:41-53 | the table becomes the fold of resolve-and-store over the active locales, stopping at the first raw value that fails; succeeds iff every active locale's raw value builds; then each locale holds a slug derived from slugify(raw value) and the ambient locale is restored; on failure the first failing locale's message is returned, earlier locales are stored and the ambient locale is left at the failing one; only the owner's rows for active locales change |
| Slugs.SlugTable.UpdateSlugs | app/Traits/HasSlugs.php:58-63 | the table becomes the fold of resolve-and-store over the given (locale, slug) pairs, in order; every pair is stored, made unique against other owners, and only those locales' rows of the owner change |
| Slugs.FreeSlugStoredAsGiven | app/Traits/HasSlugs.php:58-63 | a slug no other owner holds in the locale is stored unchanged: reading the owner's slug there gives it back, and the unique index holds |
| Slugs.ThreeIdenticalBases | app/Traits/HasSlugs.php:121-141 | three owners storing the same base in one locale get `base`, `base-1` and `base-2`, in that order |
| Slugs.SlugTable.DeleteSlugs | app/Traits/HasSlugs.php:155-158 | the table becomes the rows of other owners, in order |
| Slugs.WithoutOwner | app/Traits/HasSlugs.php:155-158 | removes exactly the owner's rows and keeps every other row |
| Slugs.WithoutOwnerKeepsKeys | app/Traits/HasSlugs.php:155-158 | deleting an owner's slugs keeps the unique index |
| Slugs.GetSlug | app/Traits/HasSlugs.php:26-31 | empty when the owner has no row in the requested (or current) locale; otherwise that row's slug |
| Slugs.SlugsArray | app/Traits/HasSlugs.php:36-39 | the map's keys are exactly the locales the owner has rows in, each mapped to that row's slug |
| Slugs.ForSlugAtMostOne | app/Traits/HasSlugs.php:147-153 | under the unique index, at most one owner holds a given slug in a locale |
| Slugs.ForSlugFindsStored | app/Traits/HasSlugs.php:147-153 | after an owner stores a slug in a locale, `forSlug` with that slug and locale on the owner's model class finds exactly that owner, and on another class finds none |
| Slugs.OwnSlugIsFree | app/Traits/HasSlugs.php:130-133 | an owner's stored slug never clashes with itself, so re-saving keeps it |
| Slugs.Locales | app/Traits/HasSlugs.php:58-63 | the locales of a (locale, slug) list, in order |
| Slugs.SlugTable.constructor | database/migrations/2025_11_10_032733_create_slugs_table.php:21 | an empty slugs table satisfies the unique index |
| Translations.FindRow | app/Traits/HasTranslations.php:125-127 | returns the first row with this owner, locale and key, or -1 when there is none |
| Translations.UpsertRowsSpec | app/Traits/HasTranslations.php:123-133 | the upsert keeps the unique index, stores the body under (owner, locale, key), and changes nothing else |
| Translations.UpsertKeepsHolds | app/Traits/HasTranslations.php:123-133 | an upsert keeps every other (locale, key) value of the owner |
| Translations.UpsertWhenHolds | app/Traits/HasTranslations.php:123-133 | upserting the value already stored changes nothing |
| Translations.OnlyTouchedTrans | app/Traits/HasTranslations.php:114-121 | changes limited to some keys and locales compose |
| Translations.TranslationTable.AddOrUpdate | app/Traits/HasTranslations.php:123-133 | the table becomes the upsert; the unique index keeps holding |
| Translations.TranslationTable.constructor | database/migrations/2025_11_10_032728_create_traslations_table.php:22 | an empty translations table satisfies the unique index |
| Translations.BufferOf | app/Traits/HasTranslations.php:51-55 | buffers exactly the input keys that are translated attributes: a string as {current locale: string}, an array as given, an integer or boolean as {current locale: its string form} |
| Translations.Untranslated | app/Traits/HasTranslations.php:57-59 | passes on exactly the input keys that are not translated attributes, with their values |
| Translations.TranslatableModel.Fill | app/Traits/HasTranslations.php:49-60 | the buffer gains the translated keys as `BufferOf` states (later fills override a key); the attributes gain the other keys |
| Translations.SyncAttributeSpec | app/Traits/HasTranslations.php:116-119 | syncing one attribute stores its buffered text (default "") in every active locale, keeps the unique index, and touches only that key |
| Translations.SyncRowsSpec | app/Traits/HasTranslations.php:114-121 | after a sync, every (translated key, active locale) pair holds the buffered text; nothing outside those pairs of the owner changes; the unique index holds |
| Translations.TranslatableModel.SyncAttributeInto | app/Traits/HasTranslations.php:116-119 | the table becomes the one-attribute sync of the buffer |
| Translations.TranslatableModel.SyncTranslations | app/Traits/HasTranslations.php:114-121 | the table becomes the sync of every translated attribute over the active locales |
| Translations.SyncAttributeNoop | app/Traits/HasTranslations.php:114-121 | syncing an attribute whose texts are already stored changes nothing |
| Translations.SyncRowsNoop | app/Traits/HasTranslations.php:114-121 | a sync whose texts are already stored changes nothing |
| Translations.SyncIdempotent | app/Traits/HasTranslations.php:114-121 | syncing twice is the same as syncing once |
| Translations.InactiveLocaleNeverStored | app/Traits/HasTranslations.php:114-121 | a sync never creates rows for a locale that is not active |
| Translations.SyncAttributeFresh | app/Traits/HasTranslations.php:116-119 | for an owner with no rows for the key, one attribute's sync adds one row per active locale |
| Translations.SyncRowsFresh | app/Traits/HasTranslations.php:114-121 | for a new owner the sync adds exactly keys times locales rows |
| Translations.TwoByTwoGivesFour | app/Traits/HasTranslations.php:114-121 | two attributes in two locales give four new rows |
| Translations.FirstEligible | app/Traits/HasTranslations.php:106-112 | returns the first row of the owner and key with a non-empty body (in the given locale, if any), or none when no such row exists |
| Translations.FindTranslation | app/Traits/HasTranslations.php:106-112 | prefers the current locale's non-empty translation, otherwise the first non-empty one in any locale; none only when no non-empty translation exists |
| Translations.TranslatedValue | app/Traits/HasTranslations.php:65-78 | "" exactly when no non-empty translation exists; the current locale's body when that one is non-empty |
| Translations.TranslationsFor | app/Traits/HasTranslations.php:83-89 | the map's keys are exactly the locales with a row for the key, each mapped to that row's body |
| Translations.FillSyncRead | app/Traits/HasTranslations.php:49-78 | a non-empty string filled for a translated attribute, once synced over locales including the current one, is what reading the attribute returns |
| Translations.SyncTranslationsFor | app/Traits/HasTranslations.php:83-121 | after a sync, `translationsFor` has every active locale, holding the buffered text |
| Translations.TranslatableModel.DeleteTranslations | app/Traits/HasTranslations.php:37-41 | the table becomes the rows of other owners |
| Translations.WithoutOwner | app/Traits/HasTranslations.php:37-41 | removes exactly the owner's rows |
| Translations.WithoutOwnerKeepsKeys | app/Traits/HasTranslations.php:37-41 | deleting an owner's translations keeps the unique index |
| Images.Placeholder | app/Services/ImageService.php:42-45 | the placeholder is a base64 PNG data URI |
| Images.OptionPair | app/Services/ImageService.php:66-68 | a token without '=' is dropped; otherwise it splits at the first '=' into key and value, with the key free of '=' |
| Images.OptionPairOf | app/Services/ImageService.php:66-68 | `key=value` with an '='-free key parses back to (key, value) |
| Images.OptionsFromTokensKeys | app/Services/ImageService.php:63-73 | a key is an option iff some token sets it |
| Images.OptionsFromTokensLast | app/Services/ImageService.php:63-73 | each option's value comes from the last token setting that key |
| Images.OptionValuesHaveNoComma | app/Services/ImageService.php:63 | no parsed option value contains ',' |
| Images.ParseCrop | app/Services/ImageService.php:81-101 | null for fewer than four parts; otherwise the intval of the first four parts when width and height are in 1..1920 and both offsets are non-negative, else null |
| Images.ParseCropRoundTrip | app/Services/ImageService.php:81-101 | a valid crop written as four numbers joined by ',' or '-' parses back to itself |
| Images.LeadingMinusIsSeparator | app/Services/ImageService.php:83-91 | a crop string starting with '-' has an empty first part and is rejected |
| Images.ScaleArgument | app/Services/ImageService.php:116-124 | the scale argument is the requested size capped at 1920, passed only when non-zero and below the current size; absent when not requested or when the request reads as 0 |
| Images.NegativeRequestIsPassedOn | app/Services/ImageService.php:118-122 | a request of -5 on a 100-pixel side is passed to scale as -5 |
| Images.ImageService.constructor | app/Services/ImageService.php:106-127 | a fresh service holds the image's size, no options and no scale calls |
| Images.ImageService.ApplyOptions | app/Services/ImageService.php:106-127 | the options are stored; a valid crop sets the image size to the crop's; one scale call with the clamped arguments when 'w' or 'h' is given, none otherwise |
| Images.ImageService.ApplyOptionsString | app/Services/ImageService.php:61-76 | the same as applying the parsed option string |
| Images.MimeFor | app/Services/ImageService.php:133-138 | png, gif and webp (any case) select their MIME types; every other format is JPEG |
| Images.EncoderFor | app/Services/ImageService.php:133-138 | the encoder matches the MIME type, carrying the quality for WebP and JPEG |
| Images.CacheControl | app/Services/ImageService.php:142 | the header value starts with "public, max-age=" and ends with ", immutable" |
| Images.DefaultCacheAgeText | app/Services/ImageService.php:129 | the default lifetime of thirty days is written 2592000 |
| Images.Quality | app/Services/ImageService.php:131 | the quality is 80 when no `q` option is given |
| Images.QualityReadsBack | app/Services/ImageService.php:131 | a `q` option holding a decimal integer gives that integer as the quality |
| Images.ResponseFor | app/Services/ImageService.php:129-143 | status 200; Content-Type is the MIME of the format (default jpg); the encoder is the one for that format with the quality (default 80); Cache-Control gives the lifetime as both max-age and s-maxage, public and immutable |
| Images.ImageService.Response | app/Services/ImageService.php:129-143 | the response is the one for the stored options and the given lifetime, thirty days (2592000 seconds) when none is given |
| Media.AllMedia | app/Traits/HasMedia.php:40-49 | keeps exactly the attachments of the type and role whose pivot locale is the current one; a single attachment is kept iff it matches |
| Media.AllMediaAppend | app/Traits/HasMedia.php:40-49 | the selection of a concatenation is the selections of the parts, in order: relation order and multiplicity are kept |
| Media.FirstMedia | app/Traits/HasMedia.php:29-35 | none exactly when nothing matches; otherwise the attachment at the first matching position, with no match before it |
| Media.FirstMediaIsHeadOfAll | app/Traits/HasMedia.php:29-49 | the first medium is the head of the list of all media |
| Media.FindImage | app/Traits/HasMedia.php:106-113 | none exactly when no photo of the role has a truthy crop variant in the current locale; otherwise the first such attachment in relation order |
| Media.HasImage | app/Traits/HasMedia.php:51-54 | true iff some attachment qualifies |
| Media.Image | app/Traits/HasMedia.php:59-68 | a given attachment links directly; otherwise the found image's link; with nothing found, the placeholder when fallback is on, else null |
| Media.Candidates | app/Traits/HasMedia.php:74-85 | exactly the qualifying image attachments; a single attachment is kept iff it qualifies |
| Media.CandidatesAppend | app/Traits/HasMedia.php:74-85 | the candidates of a concatenation are those of the parts, in order: relation order and multiplicity are kept |
| Media.ImageLinks | app/Traits/HasMedia.php:74-85 | one link per candidate, in order |
| Media.ImagesAgreeWithImage | app/Traits/HasMedia.php:59-85 | the link list is empty iff there is no image, and otherwise starts with the single image's link |
| Media.ImageAltText | app/Traits/HasMedia.php:87-92 | the given attachment's alt text, else the found default-crop image's alt text (either "" when null); "" when there is no image |
| Media.ImageCaption | app/Traits/HasMedia.php:94-99 | the given attachment's caption, else the found default-crop image's caption (either "" when null); "" when there is no image |
| Media.UnknownKeysIgnored | app/Traits/HasMedia.php:131 | keys other than w, h, crop, q and fm do not affect the option string |
| Media.FiveOptions | app/Traits/HasMedia.php:141-147 | the five comma-free options joined with ',' parse back as the five-key map |
| Media.CropStringRoundTrip | app/Traits/HasMedia.php:118-148 | the image service parses the rendered option string back into the five resolved values, and its crop into the crop given |
| Localization.FirstNonEmpty | app/Services/LocalizationService.php:30-31 | none iff every piece is empty; otherwise the first non-empty piece |
| Localization.FirstSegment | app/Services/LocalizationService.php:30-31 | the request's first path segment is non-empty and free of '/' |
| Localization.LocalizationService.constructor | app/Services/LocalizationService.php:19-26 | starts at the default locale with the given active locales |
| Localization.LocalizationService.SetLocale | app/Services/LocalizationService.php:28-50 | an active first segment becomes the current locale and is returned; otherwise the default locale is set and null returned |
| Localization.LocaleName | app/Services/LocalizationService.php:132-138 | the name exactly when the (given or current) locale is active |
| Localization.LocaleNative | app/Services/LocalizationService.php:140-146 | the native name of an active locale; null otherwise |
| Localization.CurrentLocaleRegional | app/Services/LocalizationService.php:124-130 | the regional code of the active current locale; null otherwise |
| Localization.LocaleDirection | app/Services/LocalizationService.php:148-154 | "rtl" iff the locale is active and marked right-to-left, else "ltr" |
| Localization.StripCodeSpec | app/Services/LocalizationService.php:52-55 | the result is a suffix of the path; the default-locale segment and its '/' are dropped; a path not starting with it is unchanged |
| Localization.StripExamples | app/Services/LocalizationService.php:52-55 | "en/dashboard" becomes "dashboard"; "en-GB/dashboard" is kept |
| Localization.StripChangesOnlyDefaultSegment | app/Services/LocalizationService.php:52-55 | the path changes iff its first segment is the default locale (or it is that locale followed by a newline) |
| Localization.PathWithoutLocaleSpec | app/Services/LocalizationService.php:62-67 | an active locale first segment is removed from the trimmed path; any other path is only trimmed |
| Localization.LocalizedPath | app/Services/LocalizationService.php:71-75 | the new path starts with exactly one '/' |
| Localization.LocalizedPathPrefix | app/Services/LocalizationService.php:71-75 | a non-default locale prefixes the path without its old locale |
| Localization.RelocalizeReplacesLocale | app/Services/LocalizationService.php:57-75 | localizing an already localized path replaces its locale |
| Localization.LocalizedUrlParts | app/Services/LocalizationService.php:77-88 | relative URLs start with the new path, absolute ones with scheme, host and port before it; query and fragment are kept at the end |
| LocaleRedirects.LocaleSegment | app/Http/Middleware/LocaleRedirect.php:24-26 | the locale parameter is a single path segment |
| LocaleRedirects.Handle | app/Http/Middleware/LocaleRedirect.php:18-40 | write methods pass on; a redirect happens iff the first segment is the active default locale, to the stripped path with status 302 and Vary: Accept-Language |
| LocaleRedirects.RedirectDropsDefaultSegment | app/Http/Middleware/LocaleRedirect.php:24-35 | a GET to /default/rest redirects to rest |
| LocaleRedirects.RedirectShortens | app/Http/Middleware/LocaleRedirect.php:32-35 | the redirect target is shorter than the request path |
| LocaleRedirects.RedirectedPathSelectsDefault | app/Http/Middleware/LocaleRedirect.php:24-35 | a redirected path's first segment is the default locale |
| PageStatuses.FromValue | app/Enums/PageStatus.php:9-11 | the case whose value is the string, or none when no case has it |
| PageStatuses.FromValueOfValue | app/Enums/PageStatus.php:9-11 | from(value(s)) is s |
| PageStatuses.Label | app/Enums/PageStatus.php:13-20 | every status has a non-empty label |
| PageStatuses.CasesAreDistinguishable | app/Enums/PageStatus.php:9-29 | distinct statuses have distinct values, labels and colors |
| MediaTypes.ValueInjective | app/Enums/MediaType.php:9-12 | distinct cases have distinct values |
| MediaTypes.FromMimeType | app/Enums/MediaType.php:14-26 | image/, video/ and audio/ prefixes select their case; anything else, or no MIME type, is a document; never photo |
| MediaTypes.UpperCaseMimeIsDocument | app/Enums/MediaType.php:14-26 | the prefix test is case-sensitive: "IMAGE/PNG" is a document |
| MediaTypes.Icon | app/Enums/MediaType.php:38-46 | every declared case has an icon; photo has none |
| MediaTypes.Label | app/Enums/MediaType.php:28-36 | every declared case has a non-empty label; photo has none |
| MediaTypes.PluralAddsS | app/Enums/MediaType.php:28-36 | the plural label is the singular plus "s" |
| MediaTypes.DeclaredCasesDistinguishable | app/Enums/MediaType.php:28-46 | distinct declared cases have distinct icons and labels |
| Pages.ComputedStatus | app/Models/Page.php:64-73 | scheduled iff stored as scheduled, or published with a future publication date; otherwise the stored status |
| Pages.ScopeShowsPublished | app/Models/Page.php:78-84 | every page in the published scope shows as published |
| Pages.ShownPublishedIsInScope | app/Models/Page.php:64-84 | a dated page that shows as published is in the scope |
| Pages.ScheduledBecomesPublished | app/Models/Page.php:64-84 | a scheduled published page shows as published, and is in scope, once its date has passed |
| Pages.TranslatedAttributes | app/Models/Page.php:56-59 | the translated attributes are "title" then "description" |
| Pages.NewPageTranslationRows | app/Models/Page.php:56-59 | saving a new page adds two rows per active locale |
| PageActions.HandlePublication | app/Actions/UpdatePageAction.php:38-46 | error iff scheduled without a publication date; requested published gives published at `now`; scheduled gives published at the given date; private gives private with a null date; anything else gives draft with a null date |
| PageActions.ComputedStatusFollowsRequest | app/Actions/UpdatePageAction.php:38-46 | the stored page computes to the requested status: published before the date shows scheduled |
| PageActions.WithoutSlugsAndStatus | app/Actions/UpdatePageAction.php:21-24 | removes exactly "slugs" and "status"; every other attribute is kept |
| PageActions.PageColumns | app/Traits/HasTranslations.php:57-59 | the request keys that reach the page's own columns: all but "slugs", "status" and the translated attributes, with their values |
| PageActions.EntriesMap | app/Traits/HasTranslations.php:51-55 | a request array's keys are exactly the keys of its entries |
| PageActions.EntriesMapLastWins | app/Traits/HasTranslations.php:51-55 | an entry whose key no later entry repeats keeps its value |
| PageActions.FilledTexts | app/Traits/HasTranslations.php:51-55 | the buffer `fill` builds from the request: exactly its translated keys; a string, an int (as its decimal text) or a bool (as '1' or '') under the ambient locale; an array as its locale => text map |
| PageActions.PageModel.Update | app/Traits/HasTranslations.php:49-60 | fails, changing nothing, iff a translated attribute is not a string, int, bool or array; otherwise the translated attributes are added to the buffer and the others are written to the page's columns |
| PageActions.PageModel.constructor | app/Actions/UpdatePageAction.php:17-32 | a page with its owner key and attributes, and nothing buffered |
| PageActions.Handle | app/Actions/UpdatePageAction.php:17-32 | fails iff publication fails, a translated attribute is not a string, int, bool or array, or slugs are not an array; a failure leaves the page's columns and the slug table as they were, and only a failure of the slugs leaves the filled texts in the buffer; otherwise the page's columns get the non-translated attributes and the publication, its translation buffer gains the translated ones, and the slug table becomes the resolve-and-store fold of the given slugs when present |
| PageActions.UpdateBuffersNumberTitle | app/Traits/HasTranslations.php:51-55 | a title given as the int 5 is buffered as '5' under the ambient locale |
| PageActions.UpdateBuffersTitle | app/Actions/UpdatePageAction.php:21-24 | a new title is buffered under the ambient locale and never written to the page's columns |
| PageActions.UpdateStoresFreeSlug | app/Actions/UpdatePageAction.php:26-28 | updating with a slug no other page holds in the locale stores it as given |
| PageActions.UpdateKeepsSlugsOutOfPage | app/Actions/UpdatePageAction.php:21-24 | the updated page attributes hold no "slugs" key, and the status and date of the publication |
| Sorting.Initial | app/Traits/WithSorting.php:9-11 | a fresh list is sorted by "created_at", descending |
| Sorting.Flip | app/Traits/WithSorting.php:15-17 | the result is a direction different from a valid input; any value other than "asc" gives "asc" |
| Sorting.SortStep | app/Traits/WithSorting.php:13-21 | sorts by the field; a new field starts ascending, the same field toggles |
| Sorting.SortTwiceRestores | app/Traits/WithSorting.php:13-21 | sorting twice by the current field restores the state |
| Sorting.NewFieldTwiceIsDescending | app/Traits/WithSorting.php:13-21 | clicking a new field twice sorts descending |
| Sorting.SortableList.constructor | app/Traits/WithSorting.php:9-11 | starts in the initial state |
| Sorting.SortableList.Sort | app/Traits/WithSorting.php:13-21 | the state becomes the sort step of the old state |
| Users.FirstChar | app/Models/User.php:87 | at most one character, the word's first, empty only for the empty word |
| Users.FirstChars | app/Models/User.php:84-88 | at most one character per word |
| Users.FirstCharsOfNonEmptyWords | app/Models/User.php:84-88 | when no word is empty, exactly one character per word: each word's first, in order |
| Users.FirstCharsAppend | app/Models/User.php:84-88 | the first characters of concatenated word lists are those of each list, in order |
| Users.Initials | app/Models/User.php:81-90 | at most two characters |
| Users.FirstCharsAreWordStarts | app/Models/User.php:84-88 | first characters of space-free words contain no space |
| Users.InitialsHaveNoSpace | app/Models/User.php:81-90 | initials never contain a space |
| Users.InitialsOfWords | app/Models/User.php:81-90 | the initials of space-joined words are the first characters of the first two words |
| Users.InitialsOfTwoWords | app/Models/User.php:81-90 | "John Doe" gives "JD" |
| Users.InitialsOfOneWord | app/Models/User.php:81-90 | "Alice" gives "A" |
| Users.InitialsOfThreeWords | app/Models/User.php:81-90 | "Bob Charles Dylan" gives "BC" |
| Users.InitialsOfDoubleSpace | app/Models/User.php:81-90 | "John  Doe" gives "J": the second word is empty |
| Users.PhotoUrl | app/Models/User.php:95-102 | null iff the photo path is falsy; otherwise the path |
| UserAccess.FreshForThirtyMinutes | app/Actions/UpdateUserLastAccessAction.php:13 | within 30 minutes of the last record nothing is updated |
| UserAccess.UserRecord.constructor | app/Actions/UpdateUserLastAccessAction.php:11-20 | a user with the given last access, IP and agent |
| UserAccess.UserRecord.Handle | app/Actions/UpdateUserLastAccessAction.php:11-20 | when stale, last access, IP and agent are set from the request; otherwise nothing changes |
| ActionNames.TrimStart | app/Console/Commands/MakeActionCommand.php:43 | a suffix of the input that does not start with a trimmable character |
| ActionNames.TrimEnd | app/Console/Commands/MakeActionCommand.php:43 | a prefix of the input that does not end with a trimmable character |
| ActionNames.MbTrim | app/Console/Commands/MakeActionCommand.php:43 | the result neither starts nor ends with a trimmable character |
| ActionNames.MbTrimOfTrimmed | app/Console/Commands/MakeActionCommand.php:43 | trimming is the identity on trimmed strings |
| ActionNames.ReplaceEnd | app/Console/Commands/MakeActionCommand.php:44-45 | a present non-empty suffix is replaced; otherwise the string is unchanged |
| ActionNames.BaseName | app/Console/Commands/MakeActionCommand.php:43-45 | the base name is a prefix of the trimmed input |
| ActionNames.NameInput | app/Console/Commands/MakeActionCommand.php:38-48 | the class name always ends in "Action" |
| ActionNames.NameInputOfBase | app/Console/Commands/MakeActionCommand.php:43-47 | a plain name gets "Action" appended |
| ActionNames.NameInputOfFile | app/Console/Commands/MakeActionCommand.php:43-47 | a ".php" file name loses the extension and gets "Action" |
| ActionNames.NameInputOfAction | app/Console/Commands/MakeActionCommand.php:43-47 | a name already ending in "Action" is kept |
| ActionNames.NameInputIdempotent | app/Console/Commands/MakeActionCommand.php:43-47 | normalising a normalised name changes nothing |
| ActionNames.NameInputIgnoresSurroundingSpace | app/Console/Commands/MakeActionCommand.php:43 | surrounding whitespace does not change the class name |
| ActionNames.NameInputOfCreateTest | app/Console/Commands/MakeActionCommand.php:43-47 | "CreateTest" and "CreateTest.php" both give "CreateTestAction" |
| ActionNames.NameInputKeepsSuffix | app/Console/Commands/MakeActionCommand.php:43-47 | "FooAction" stays "FooAction" |
| PhpStrings.Split | app/Services/ImageService.php:83 | a split gives at least one part, none containing a separator |
| PhpStrings.SplitJoin | app/Traits/HasMedia.php:141-147 | splitting separator-free parts joined by the separator gives the parts back |
| PhpStrings.JoinSplit | app/Services/ImageService.php:63 | joining the parts of a split gives the original string |
| PhpStrings.IntValOfIntToString | app/Services/ImageService.php:89 | intval of a decimal rendering is the integer rendered |

## Left out

- I/O, HTTP and Eloquent machinery are not modelled: `url()`, `route()`, `Storage::url`, `app()->setLocale`, translator and `setlocale` calls, caching of active locales, relation caching, events and transactions. Lifecycle hooks (`saved`, `deleting`) are modelled as explicit calls.
- The SQL scopes `orderByTranslation` and `whereTranslationLike` are left out: they build queries and compute nothing in PHP.
- `Str::slug` transliteration is a function parameter (`slugify`). The table methods prove their properties for any such function.
- Image pixel work (GD cropping, scaling, encoding) is foreign code. The image is modelled by its size, and `scale` by the arguments it receives.
- The placeholder returned by `Media.Image` is the constant `PlaceholderUri`, standing for `Images.Placeholder()`.
- Percent-decoding of the request path is left out. Paths are taken as already decoded.
- `preg_replace` returning null (on a malformed pattern) is left out. The default locale is matched literally, as if it contained no regular-expression metacharacters.
- Localization.StripDefaultLocale: has no contract of its own; `StripCodeSpec`, `StripExamples` and `StripChangesOnlyDefaultSegment` state its properties.
- Localization.LocalizedUrl: has no contract of its own; `LocalizedUrlParts` states its shape.
- PageActions.Handle: does not include the translation sync that the page's `saved` hook runs after `update`. The texts it buffers (`translatedTexts`) are what `Translations.TranslatableModel.SyncTranslations` syncs.
- PageActions.Handle: when `fill` rejects a translated value, the source has already buffered the translated values before it in request order. The model keeps the request in a map, which has no order, so it leaves the buffer unchanged then.
- PageActions.AttributeValue: float values are left out (floating point). A float title would be coerced to its string form like an int.
- Media.CropVariant: a crop variant is a JSON object (named and positional entries). A truthy variant that is not an array, such as `true` or a string, would be found by `findImage` and then make `image()` fail on the spread; that case is not modelled.
- Slugs.Normalize: an int-backed enum case in a slug field is read as `OtherValue` and dropped. In the source, `normalizeAttributeValue`'s `?string` return type then throws a `TypeError` under `strict_types`; that failure is not modelled.
- Laravel's mass-assignment (`$fillable`) guard on `update` and `fill` is left out. All attributes are accepted.
- A `published_at` that is neither a time nor null has no stored record (Carbon casting is left out).
- Null, boolean and float values in the `cropString` parameters are left out. Parameters are integers or strings.
- Captions and alt texts that are not strings are left out.
- The `__()` translation of labels is left out. Labels are the source's English keys.
- `PageStatus::SCHEDULED` and `MediaType::PHOTO` are used by the code (HasMedia.php:77,108; Page.php:68; UpdatePageAction.php:42) but not declared by the enum files, so as written every evaluation of them is an undefined-constant `Error`. The model declares both cases as the code intends them. SCHEDULED's label ('Scheduled') and colour ('blue') are the ones tests/Unit/Enums/PageStatusTest.php expects; its value 'scheduled' follows the lower-case values of the declared cases. PHOTO has no `icon` or `label` arm (an `UnhandledMatchError` in PHP), so those are `None`.
- `intval` is modelled for decimal strings: leading whitespace, an optional sign, then digits. Integer overflow, exponents and hexadecimal are left out.
- Translations.TranslatableModel.Fill: requires translated inputs to be strings, arrays, integers or booleans. The collection calls the `string|array` closure from non-strict code, so integers and booleans are coerced to strings, as modelled. A float would be coerced too, but floating point is left out. Null and objects are a `TypeError`.
- Slugs.SlugTable.SetSlugs: requires the active locales to be distinct, as they are keys of the active-locale configuration.
- ActionNames.NameInput: literal examples other than "CreateTest" and "FooAction" are covered by the general lemmas and not stated one by one.
- `MakeActionCommand::handle` (stub rendering and the file-exists check) is filesystem work and is left out.
- Concurrency (two requests racing on the same slug) is left out. The model is sequential.
