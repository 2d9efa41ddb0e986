/**
 * The locale-prefixed URL scheme of `LocalizationService`: which locale a request
 * selects, how the default locale's prefix is stripped, how a URL is moved to
 * another locale, and the lookups in the active-locale map.
 *
 * The active-locale map (code to `locales` row) and the configured default
 * locale are parameters; a URL arrives already split into its parts.
 */
module Localization {
  import opened Wrappers
  import opened PhpStrings

  /** The columns of an active `locales` row that the service reads. */
  datatype LocaleInfo = LocaleInfo(name: string, endonym: Option<string>, regional: Option<string>, rtl: bool)

  /** The parts of a URL as `parse_url` returns them; a missing part is None. */
  datatype Url = Url(
    scheme: Option<string>,
    host: Option<string>,
    port: Option<int>,
    path: Option<string>,
    query: Option<string>,
    fragment: Option<string>)

  /** `isActiveLocale`: the code is a key of the active-locale map. */
  predicate IsActiveLocale(active: map<string, LocaleInfo>, code: string)
  {
    code in active
  }

  // ---------------------------------------------------------------------------
  // Choosing the locale of a request
  // ---------------------------------------------------------------------------

  /** The first non-empty piece of a list of path pieces. */
  function FirstNonEmpty(pieces: seq<string>): (r: Option<string>)
    ensures r.None? <==> forall i :: 0 <= i < |pieces| ==> pieces[i] == ""
    ensures r.Some? ==> r.value != "" && exists i :: (0 <= i < |pieces| && pieces[i] == r.value
                                                      && forall j :: 0 <= j < i ==> pieces[j] == "")
  {
    if pieces == [] then None
    else if pieces[0] != "" then Some(pieces[0])
    else
      var r := FirstNonEmpty(pieces[1..]);
      if r.Some? then
        var i :| 0 <= i < |pieces[1..]| && pieces[1..][i] == r.value && forall j :: 0 <= j < i ==> pieces[1..][j] == "";
        assert pieces[i + 1] == r.value && forall j :: 0 <= j < i + 1 ==> pieces[j] == "";
        r
      else r
  }

  /** `segment(1)` of a request: the first non-empty piece of its path. */
  function FirstSegment(path: string): (r: Option<string>)
    ensures r.Some? ==> r.value != "" && '/' !in r.value
  {
    var pieces := Split(path, {'/'});
    var r := FirstNonEmpty(pieces);
    if r.Some? then
      var i :| 0 <= i < |pieces| && pieces[i] == r.value;
      assert NoneOf(pieces[i], {'/'});
      r
    else r
  }

  /** The service's state: the current locale, chosen per request. */
  class LocalizationService {
    const defaultLocale: string
    const active: map<string, LocaleInfo>
    var currentLocale: string

    /** The current locale is the default or an active one. */
    predicate Valid()
      reads this
    {
      currentLocale == defaultLocale || IsActiveLocale(active, currentLocale)
    }

    /** A new service starts in the configured default locale. */
    constructor (defaultLocale: string, active: map<string, LocaleInfo>)
      ensures this.defaultLocale == defaultLocale && this.active == active
      ensures currentLocale == defaultLocale && Valid()
    {
      this.defaultLocale := defaultLocale;
      this.active := active;
      currentLocale := defaultLocale;
    }

    /**
     * `setLocale` (the choice of locale): the first path segment when it is an
     * active code, which is also returned; otherwise the default, and null.
     */
    method SetLocale(path: string) returns (r: Option<string>)
      modifies this
      ensures Valid()
      ensures var segment := FirstSegment(path);
        if segment.Some? && IsActiveLocale(active, segment.value)
        then r == segment && currentLocale == segment.value
        else r.None? && currentLocale == defaultLocale
    {
      var segment := FirstSegment(path);
      if segment.Some? && IsActiveLocale(active, segment.value) {
        currentLocale := segment.value;
        r := segment;
      } else {
        currentLocale := defaultLocale;
        r := None;
      }
    }
  }

  // ---------------------------------------------------------------------------
  // Lookups in the active-locale map
  // ---------------------------------------------------------------------------

  /** A lookup's code: the one asked for, or the current locale. */
  function CodeOf(locale: Option<string>, current: string): string
  {
    locale.GetOr(current)
  }

  /** `getLocaleName`: the name of an active locale, null for any other code. */
  function LocaleName(active: map<string, LocaleInfo>, locale: Option<string>, current: string): (r: Option<string>)
    ensures r.Some? <==> IsActiveLocale(active, CodeOf(locale, current))
    ensures r.Some? ==> r.value == active[CodeOf(locale, current)].name
  {
    var code := CodeOf(locale, current);
    if code in active then Some(active[code].name) else None
  }

  /** `getLocaleNative`: the endonym of an active locale, null when unknown or unset. */
  function LocaleNative(active: map<string, LocaleInfo>, locale: Option<string>, current: string): (r: Option<string>)
    ensures !IsActiveLocale(active, CodeOf(locale, current)) ==> r.None?
    ensures IsActiveLocale(active, CodeOf(locale, current)) ==> r == active[CodeOf(locale, current)].endonym
  {
    var code := CodeOf(locale, current);
    if code in active then active[code].endonym else None
  }

  /** `getCurrentLocaleRegional`: the regional code of the current locale, null when unknown or unset. */
  function CurrentLocaleRegional(active: map<string, LocaleInfo>, current: string): (r: Option<string>)
    ensures !IsActiveLocale(active, current) ==> r.None?
    ensures IsActiveLocale(active, current) ==> r == active[current].regional
  {
    if current in active then active[current].regional else None
  }

  /** `getLocaleDirection`: 'rtl' for an active right-to-left locale, 'ltr' otherwise, unknown codes included. */
  function LocaleDirection(active: map<string, LocaleInfo>, locale: Option<string>, current: string): (r: string)
    ensures r == "rtl" || r == "ltr"
    ensures r == "rtl" <==> IsActiveLocale(active, CodeOf(locale, current)) && active[CodeOf(locale, current)].rtl
  {
    var code := CodeOf(locale, current);
    if code in active && active[code].rtl then "rtl" else "ltr"
  }

  // ---------------------------------------------------------------------------
  // Stripping the default locale
  // ---------------------------------------------------------------------------

  /**
   * The pattern of `stripDefaultLocale` applied to a path with no leading '/':
   * a leading default code is removed with the '/' after it, or when it ends the
   * path. The pattern's `$` also matches before a final line feed, which stays.
   */
  function StripCode(d: string, t: string): string
  {
    if |t| > |d| && t[..|d|] == d && t[|d|] == '/' then t[|d| + 1..]
    else if t == d then ""
    else if t == d + "\n" then "\n"
    else t
  }

  /** `stripDefaultLocale` before `url()`: leading '/' removed, then the default code's segment. */
  function StripDefaultLocale(defaultLocale: string, url: string): string
  {
    StripCode(defaultLocale, LTrimChar(url, '/'))
  }

  /** The pattern removes a prefix of the path: the default code and its '/', or nothing else. */
  lemma StripCodeSpec(d: string, t: string)
    ensures var r := StripCode(d, t);
      && |r| <= |t| && r == t[|t| - |r|..]
      && (StartsWith(t, d + "/") ==> r == t[|d| + 1..])
      && (!StartsWith(t, d + "/") && t != d && t != d + "\n" ==> r == t)
  {
    var r := StripCode(d, t);
    if StartsWith(t, d + "/") {
      assert t[..|d| + 1][..|d|] == t[..|d|] && (d + "/")[..|d|] == d;
      assert t[|d|] == t[..|d| + 1][|d|];
    }
    if t == d + "\n" {
      assert t[|t| - 1..] == "\n";
    }
  }

  /** The default code's segment goes, a longer code that merely starts with it stays. */
  lemma StripExamples()
    ensures StripCode("en", "en/dashboard") == "dashboard"
    ensures StripCode("en", "en-GB/dashboard") == "en-GB/dashboard"
  {
    var t := "en/dashboard";
    assert t[..2] == "en" && t[2] == '/' && t[3..] == "dashboard";
    var u := "en-GB/dashboard";
    assert u[2] == '-' && u != "en" && |u| != 3;
  }

  /**
   * Stripping changes a path exactly when its first piece is the default code,
   * or when the path is the code and a final line feed.
   */
  lemma StripChangesOnlyDefaultSegment(d: string, t: string)
    requires d != "" && NoneOf(d, {'/'})
    ensures StripCode(d, t) != t <==> (Split(t, {'/'})[0] == d && t != "") || t == d + "\n"
  {
    if |t| > |d| && t[..|d|] == d && t[|d|] == '/' {
      assert t == d + t[|d|..];
      assert t[|d|..] == ['/'] + t[|d| + 1..];
      SplitAfterPlainPrefix(d, t[|d|..], {'/'});
      assert Split(t[|d|..], {'/'})[0] == "";
      assert d + "" == d;
    } else if t == d {
      SplitAfterPlainPrefix(d, "", {'/'});
      assert d + "" == d;
    } else if t == d + "\n" {
      assert |StripCode(d, t)| < |t|;
    } else {
      FirstPieceIsPrefix(t);
    }
  }

  /** The first piece of a split on '/' is a prefix, followed by '/' when it is not all of the string. */
  lemma {:induction false} FirstPieceIsPrefix(s: string)
    ensures var p := Split(s, {'/'})[0];
      |p| <= |s| && s[..|p|] == p && (|p| < |s| ==> s[|p|] == '/')
  {
    if s != [] && s[0] != '/' {
      FirstPieceIsPrefix(s[1..]);
    }
  }

  // ---------------------------------------------------------------------------
  // Moving a URL to another locale
  // ---------------------------------------------------------------------------

  /** The path's pieces after its leading '/' are removed, with a leading active code dropped. */
  function PathWithoutLocale(active: map<string, LocaleInfo>, path: string): string
  {
    var segments := Split(LTrimChar(path, '/'), {'/'});
    if IsActiveLocale(active, segments[0]) then Join(segments[1..], "/") else Join(segments, "/")
  }

  /**
   * At most the first piece is dropped, and only when it is an active code: the
   * rest of the path is kept as it was.
   */
  lemma PathWithoutLocaleSpec(active: map<string, LocaleInfo>, path: string)
    ensures var t := LTrimChar(path, '/');
      var first := Split(t, {'/'})[0];
      && (!IsActiveLocale(active, first) ==> PathWithoutLocale(active, path) == t)
      && (IsActiveLocale(active, first) ==>
            t == first || t == first + "/" + PathWithoutLocale(active, path))
  {
    var t := LTrimChar(path, '/');
    var segments := Split(t, {'/'});
    JoinSplit(t, '/');
    if |segments| > 1 {
      assert Join(segments, "/") == segments[0] + "/" + Join(segments[1..], "/");
    }
  }

  /**
   * The new path of `getLocalizedURL`: the path without its locale, prefixed
   * with the target locale unless that is the default, and with one leading '/'.
   */
  function LocalizedPath(active: map<string, LocaleInfo>, defaultLocale: string, path: string, locale: string): (r: string)
    ensures |r| >= 1 && r[0] == '/' && (|r| > 1 ==> r[1] != '/')
  {
    var rest := PathWithoutLocale(active, path);
    var newPath := if locale == defaultLocale then rest else locale + "/" + rest;
    "/" + LTrimChar(newPath, '/')
  }

  /** A non-default target locale becomes the first piece of the path. */
  lemma LocalizedPathPrefix(active: map<string, LocaleInfo>, defaultLocale: string, path: string, locale: string)
    requires locale != defaultLocale && locale != "" && locale[0] != '/'
    ensures LocalizedPath(active, defaultLocale, path, locale) == "/" + locale + "/" + PathWithoutLocale(active, path)
  {
    var newPath := locale + "/" + PathWithoutLocale(active, path);
    assert newPath[0] == locale[0];
  }

  /**
   * Moving a URL to an active non-default locale and then to any other locale
   * is the same as moving it there directly: the first move's prefix is the
   * one the second drops.
   */
  lemma {:induction false} RelocalizeReplacesLocale(active: map<string, LocaleInfo>, defaultLocale: string,
                                                    path: string, first: string, second: string)
    requires IsActiveLocale(active, first) && first != defaultLocale
    requires first != "" && NoneOf(first, {'/'})
    ensures LocalizedPath(active, defaultLocale, LocalizedPath(active, defaultLocale, path, first), second)
         == LocalizedPath(active, defaultLocale, path, second)
  {
    var rest := PathWithoutLocale(active, path);
    var moved := LocalizedPath(active, defaultLocale, path, first);
    LocalizedPathPrefix(active, defaultLocale, path, first);
    var t := first + "/" + rest;
    assert moved == "/" + t;
    assert LTrimChar(moved, '/') == t by {
      assert moved[0] == '/' && moved[1..] == t && t[0] == first[0];
    }
    assert t == first + (['/'] + rest);
    SplitAfterPlainPrefix(first, ['/'] + rest, {'/'});
    assert (['/'] + rest)[1..] == rest;
    var segments := Split(t, {'/'});
    assert segments == [first] + Split(rest, {'/'}) by {
      assert Split(['/'] + rest, {'/'}) == [""] + Split(rest, {'/'});
      assert first + "" == first;
    }
    assert segments[1..] == Split(rest, {'/'});
    JoinSplit(rest, '/');
    assert PathWithoutLocale(active, moved) == rest;
  }

  /** `$parsed['query']` and `$parsed['fragment']`, each with its marker when set. */
  function QueryAndFragment(u: Url): string
  {
    (if u.query.Some? then "?" + u.query.value else "") + (if u.fragment.Some? then "#" + u.fragment.value else "")
  }

  /** The scheme, host and port of an absolute URL: https when no scheme, the port only when non-zero. */
  function Origin(u: Url): string
    requires u.host.Some?
  {
    u.scheme.GetOr("https") + "://" + u.host.value + (if u.port.Some? && u.port.value != 0 then ":" + IntToString(u.port.value) else "")
  }

  /**
   * `getLocalizedURL`: the URL with its path moved to `locale`; a relative URL
   * stays relative, an absolute one keeps its origin; query and fragment are
   * carried over.
   */
  function LocalizedUrl(active: map<string, LocaleInfo>, defaultLocale: string, u: Url, locale: string): string
  {
    var path := LocalizedPath(active, defaultLocale, u.path.GetOr(""), locale);
    (if u.host.None? then "" else Origin(u)) + path + QueryAndFragment(u)
  }

  lemma ThreeParts(a: string, b: string, c: string)
    ensures StartsWith(a + b + c, a + b) && EndsWith(a + b + c, b + c)
  {
    assert (a + b + c)[..|a + b|] == a + b;
    assert (a + b + c)[|a + b + c| - |b + c|..] == b + c;
  }

  /**
   * The localized URL is the new path, after the origin for an absolute URL and
   * nothing for a relative one, and followed by the original query and fragment.
   */
  lemma LocalizedUrlParts(active: map<string, LocaleInfo>, defaultLocale: string, u: Url, locale: string)
    ensures var r := LocalizedUrl(active, defaultLocale, u, locale);
      var path := LocalizedPath(active, defaultLocale, u.path.GetOr(""), locale);
      && (u.host.None? ==> StartsWith(r, path))
      && (u.host.Some? ==> StartsWith(r, Origin(u) + path))
      && EndsWith(r, path + QueryAndFragment(u))
  {
    var path := LocalizedPath(active, defaultLocale, u.path.GetOr(""), locale);
    var origin := if u.host.None? then "" else Origin(u);
    ThreeParts(origin, path, QueryAndFragment(u));
    assert "" + path == path;
  }
}
