/**
 * The `LocaleRedirect` middleware's decision: a read request whose path starts
 * with the default locale's segment is redirected to the same path without it.
 */
module LocaleRedirects {
  import opened Wrappers
  import opened PhpStrings
  import opened Localization

  /** What the middleware does with a request: hand it on, or answer with a redirect. */
  datatype Response = PassOn | Redirect(target: string, status: int, vary: string)

  /** The methods that always pass (a strict, case-sensitive list). */
  predicate IsWriteMethod(verb: string)
  {
    verb == "POST" || verb == "PUT" || verb == "PATCH" || verb == "DELETE"
  }

  /** The piece of the path info after its first '/', if there is one. */
  function LocaleSegment(pathInfo: string): (r: string)
    ensures NoneOf(r, {'/'})
  {
    var pieces := Split(pathInfo, {'/'});
    if |pieces| > 1 then pieces[1] else ""
  }

  /**
   * `handle`: write methods pass; otherwise a path whose first segment is an
   * active locale equal to the default is redirected (302, `Vary:
   * Accept-Language`) to the path with that segment stripped.
   */
  function Handle(verb: string, pathInfo: string, active: map<string, LocaleInfo>, defaultLocale: string): (r: Response)
    ensures IsWriteMethod(verb) ==> r == PassOn
    ensures r.Redirect? <==>
      && !IsWriteMethod(verb)
      && |Split(pathInfo, {'/'})| > 1
      && IsActiveLocale(active, LocaleSegment(pathInfo))
      && LocaleSegment(pathInfo) == defaultLocale
    ensures r.Redirect? ==> r.target == StripDefaultLocale(defaultLocale, pathInfo) && r.status == 302 && r.vary == "Accept-Language"
  {
    if IsWriteMethod(verb) then PassOn
    else
      var params := Split(pathInfo, {'/'})[1..];
      if |params| > 0 && IsActiveLocale(active, params[0]) && params[0] == defaultLocale
      then Redirect(StripDefaultLocale(defaultLocale, pathInfo), 302, "Accept-Language")
      else PassOn
  }

  /** `/{default}/{rest}` is sent to `{rest}`. */
  lemma {:induction false} RedirectDropsDefaultSegment(verb: string, rest: string, active: map<string, LocaleInfo>, defaultLocale: string)
    requires !IsWriteMethod(verb)
    requires IsActiveLocale(active, defaultLocale) && defaultLocale != "" && NoneOf(defaultLocale, {'/'})
    ensures Handle(verb, "/" + defaultLocale + "/" + rest, active, defaultLocale) == Redirect(rest, 302, "Accept-Language")
  {
    var d := defaultLocale;
    var t := d + "/" + rest;
    var path := "/" + t;
    assert path == "/" + d + "/" + rest;
    assert t == d + (['/'] + rest);
    SplitAfterPlainPrefix(d, ['/'] + rest, {'/'});
    assert (['/'] + rest)[1..] == rest;
    assert Split(['/'] + rest, {'/'}) == [""] + Split(rest, {'/'});
    assert d + "" == d;
    assert Split(path, {'/'}) == [""] + Split(t, {'/'}) by {
      assert path[0] == '/' && path[1..] == t;
    }
    assert LocaleSegment(path) == d;
    assert LTrimChar(path, '/') == t by {
      assert path[0] == '/' && path[1..] == t && t[0] == d[0];
    }
    StripCodeSpec(d, t);
    assert t[..|d + "/"|] == d + "/";
    assert t[|d| + 1..] == rest;
  }

  /** A redirect shortens a path that starts with '/', so redirects cannot go on forever. */
  lemma RedirectShortens(verb: string, pathInfo: string, active: map<string, LocaleInfo>, defaultLocale: string)
    requires pathInfo != [] && pathInfo[0] == '/'
    ensures var r := Handle(verb, pathInfo, active, defaultLocale);
      r.Redirect? ==> |r.target| < |pathInfo|
  {
    var t := LTrimChar(pathInfo, '/');
    StripCodeSpec(defaultLocale, t);
  }

  /** A request that is redirected would have selected the default locale anyway. */
  lemma {:induction false} RedirectedPathSelectsDefault(verb: string, pathInfo: string, active: map<string, LocaleInfo>, defaultLocale: string)
    requires pathInfo != [] && pathInfo[0] == '/'
    requires Handle(verb, pathInfo, active, defaultLocale).Redirect?
    ensures defaultLocale != "" ==> FirstSegment(pathInfo) == Some(defaultLocale)
  {
    var pieces := Split(pathInfo, {'/'});
    assert pieces == [""] + Split(pathInfo[1..], {'/'});
    assert pieces[1] == defaultLocale;
  }
}
