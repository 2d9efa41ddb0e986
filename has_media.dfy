/**
 * The media selectors and the image-option serialiser of the `HasMedia` trait.
 *
 * A model's media relation is a sequence of attachments in relation order (pivot
 * position, then newest first); each attachment joins a media row with its pivot
 * (role, locale, crop variants, caption). The ambient locale is a parameter, and
 * a generated image route is kept as its two route parameters.
 */
module Media {
  import opened Wrappers
  import opened PhpStrings
  import opened MediaTypes
  import Images

  /** A value in a crop variant or in the caller's image parameters: an integer or a string. */
  datatype Param = PInt(i: int) | PStr(s: string)

  /**
   * One entry of the pivot's `crop` JSON: its string-keyed parameters, and how
   * many list (integer-keyed) entries it also has.
   */
  datatype CropVariant = CropVariant(named: map<string, Param>, positional: nat)

  /** A media row joined with its pivot row. */
  datatype Attachment = Attachment(
    mediaId: int,
    mtype: MediaType,
    url: string,
    altText: Option<string>,
    role: Option<string>,
    locale: Option<string>,
    crop: map<string, CropVariant>,
    caption: Option<string>)

  /** Where `image` points: the image route with its options and path, or the placeholder data URI. */
  datatype ImageSource = RouteTo(options: string, path: string) | PlaceholderUri

  /** A PHP array is truthy when it is not empty. */
  predicate TruthyVariant(v: CropVariant)
  {
    v.named != map[] || v.positional > 0
  }

  // ---------------------------------------------------------------------------
  // Selectors
  // ---------------------------------------------------------------------------

  /** The filter of `firstMedia` and `allMedia`: the type, the role and the current locale. */
  predicate Selected(a: Attachment, t: MediaType, role: string, current: string)
  {
    a.mtype == t && a.role == Some(role) && a.locale == Some(current)
  }

  /**
   * `allMedia`: the attachments passing the filter, in relation order and with
   * their multiplicity. With `AllMediaAppend`, the one-attachment clause fixes
   * the result for every relation.
   */
  function AllMedia(media: seq<Attachment>, t: MediaType, role: string, current: string): (r: seq<Attachment>)
    ensures |r| <= |media|
    ensures forall x :: x in r <==> x in media && Selected(x, t, role, current)
    ensures |media| == 1 ==> r == if Selected(media[0], t, role, current) then media else []
  {
    if media == [] then []
    else if Selected(media[0], t, role, current) then [media[0]] + AllMedia(media[1..], t, role, current)
    else AllMedia(media[1..], t, role, current)
  }

  /** Filtering a concatenated relation filters each part and keeps them in order. */
  lemma {:induction false} AllMediaAppend(a: seq<Attachment>, b: seq<Attachment>, t: MediaType, role: string, current: string)
    ensures AllMedia(a + b, t, role, current) == AllMedia(a, t, role, current) + AllMedia(b, t, role, current)
  {
    if a == [] {
      assert a + b == b;
    } else {
      var ab := a + b;
      assert ab[0] == a[0] && ab[1..] == a[1..] + b;
      AllMediaAppend(a[1..], b, t, role, current);
      var head := if Selected(a[0], t, role, current) then [a[0]] else [];
      assert AllMedia(ab, t, role, current) == head + AllMedia(a[1..] + b, t, role, current);
      assert AllMedia(a, t, role, current) == head + AllMedia(a[1..], t, role, current);
    }
  }

  ghost predicate IsFirstSelected(media: seq<Attachment>, t: MediaType, role: string, current: string, i: int)
  {
    0 <= i < |media| && Selected(media[i], t, role, current)
    && forall j :: 0 <= j < i ==> !Selected(media[j], t, role, current)
  }

  /** `firstMedia`: the first attachment passing the filter, or null. */
  function FirstMedia(media: seq<Attachment>, t: MediaType, role: string, current: string): (r: Option<Attachment>)
    ensures r.None? <==> forall i :: 0 <= i < |media| ==> !Selected(media[i], t, role, current)
    ensures r.Some? ==> exists i :: IsFirstSelected(media, t, role, current, i) && media[i] == r.value
  {
    if media == [] then None
    else if Selected(media[0], t, role, current) then Some(media[0])
    else
      var r := FirstMedia(media[1..], t, role, current);
      assert forall j :: 1 <= j < |media| ==> media[j] == media[1..][j - 1];
      r
  }

  /** `firstMedia` is the head of `allMedia`. */
  lemma {:induction false} FirstMediaIsHeadOfAll(media: seq<Attachment>, t: MediaType, role: string, current: string)
    ensures var all := AllMedia(media, t, role, current);
      FirstMedia(media, t, role, current) == if all == [] then None else Some(all[0])
  {
    if media != [] {
      FirstMediaIsHeadOfAll(media[1..], t, role, current);
    }
  }

  /** The filter of `findImage` and `images`: a photo with the role, a truthy crop variant and the current locale. */
  predicate ImageCandidate(a: Attachment, role: string, crop: string, current: string)
  {
    a.mtype == Photo && a.role == Some(role) && crop in a.crop && TruthyVariant(a.crop[crop])
    && a.locale == Some(current)
  }

  ghost predicate IsFirstCandidate(media: seq<Attachment>, role: string, crop: string, current: string, i: int)
  {
    0 <= i < |media| && ImageCandidate(media[i], role, crop, current)
    && forall j :: 0 <= j < i ==> !ImageCandidate(media[j], role, crop, current)
  }

  /** `findImage`: the first image candidate, or null. */
  function FindImage(media: seq<Attachment>, role: string, crop: string, current: string): (r: Option<Attachment>)
    ensures r.None? <==> forall i :: 0 <= i < |media| ==> !ImageCandidate(media[i], role, crop, current)
    ensures r.Some? ==> exists i :: IsFirstCandidate(media, role, crop, current, i) && media[i] == r.value
  {
    if media == [] then None
    else if ImageCandidate(media[0], role, crop, current) then Some(media[0])
    else
      var r := FindImage(media[1..], role, crop, current);
      assert forall j :: 1 <= j < |media| ==> media[j] == media[1..][j - 1];
      r
  }

  /** `hasImage`: whether there is an image candidate. */
  function HasImage(media: seq<Attachment>, role: string, crop: string, current: string): (r: bool)
    ensures r <==> exists i :: 0 <= i < |media| && ImageCandidate(media[i], role, crop, current)
  {
    FindImage(media, role, crop, current).Some?
  }

  // ---------------------------------------------------------------------------
  // The option string of an image route
  // ---------------------------------------------------------------------------

  /** The keys `cropString` knows, with their defaults. */
  function Defaults(): map<string, Param>
  {
    map["crop_w" := PInt(1200), "crop_h" := PInt(800), "crop_x" := PInt(0), "crop_y" := PInt(0),
        "w" := PInt(1200), "h" := PInt(800), "q" := PInt(80), "fm" := PStr("jpg")]
  }

  /** The value a known key takes: the caller's if given, the default otherwise. */
  function Resolved(params: map<string, Param>, key: string): Param
    requires key in Defaults()
  {
    if key in params then params[key] else Defaults()[key]
  }

  /** `%d` of a value: an integer as it is, a string read as an integer. */
  function AsInt(p: Param): int
  {
    match p
    case PInt(i) => i
    case PStr(s) => IntVal(s)
  }

  /** A value interpolated into a string. */
  function Render(p: Param): string
  {
    match p
    case PInt(i) => IntToString(i)
    case PStr(s) => s
  }

  /** The crop the four crop keys describe, read as `%d` reads them. */
  function CropOf(params: map<string, Param>): Images.Crop
  {
    Images.Crop(AsInt(Resolved(params, "crop_w")), AsInt(Resolved(params, "crop_h")),
                AsInt(Resolved(params, "crop_x")), AsInt(Resolved(params, "crop_y")))
  }

  /** The crop part `W-H-X-Y` of the option string. */
  function CropPart(params: map<string, Param>): string
  {
    Images.CropText(CropOf(params), '-')
  }

  /** The five tokens of the option string, in their fixed order. */
  function CropTokens(params: map<string, Param>): seq<string>
  {
    ["w=" + Render(Resolved(params, "w")), "h=" + Render(Resolved(params, "h")), "crop=" + CropPart(params),
     "q=" + Render(Resolved(params, "q")), "fm=" + Render(Resolved(params, "fm"))]
  }

  /** `cropString`: the defaults overridden by the caller's known keys, written as w, h, crop, q, fm. */
  function CropString(params: map<string, Param>): string
  {
    Join(CropTokens(params), ",")
  }

  /** Keys outside the default set do not change the option string. */
  lemma UnknownKeysIgnored(params: map<string, Param>)
    ensures CropString(params) == CropString(map k | k in params && k in Defaults() :: params[k])
  {
    var known := map k | k in params && k in Defaults() :: params[k];
    assert forall k :: k in Defaults() ==> Resolved(params, k) == Resolved(known, k);
    assert CropTokens(params) == CropTokens(known);
  }

  /** A `key=value` token has no ',' when its value has none. */
  lemma TokenHasNoComma(key: string, value: string)
    requires NoneOf(key, {','}) && NoneOf(value, {','})
    ensures NoneOf(key + "=" + value, {','})
  {
    var t := key + "=" + value;
    assert forall i :: 0 <= i < |t| ==> t[i] == (if i < |key| then key[i] else if i == |key| then '=' else value[i - |key| - 1]);
  }

  /** Five `key=value` tokens joined with ',' parse to the map of their five keys. */
  lemma FiveOptions(w: string, h: string, crop: string, q: string, fm: string)
    requires NoneOf(w, {','}) && NoneOf(h, {','}) && NoneOf(crop, {','}) && NoneOf(q, {','}) && NoneOf(fm, {','})
    ensures Images.ParseOptions(Join(["w=" + w, "h=" + h, "crop=" + crop, "q=" + q, "fm=" + fm], ","))
         == map["w" := w, "h" := h, "crop" := crop, "q" := q, "fm" := fm]
  {
    var tokens := ["w=" + w, "h=" + h, "crop=" + crop, "q=" + q, "fm=" + fm];
    TokenHasNoComma("w", w);
    TokenHasNoComma("h", h);
    TokenHasNoComma("crop", crop);
    TokenHasNoComma("q", q);
    TokenHasNoComma("fm", fm);
    SplitJoin(tokens, ',', {','});
    assert Split(Join(tokens, ","), {','}) == tokens;
    FiveTokens(w, h, crop, q, fm);
  }

  /** The first three tokens, read in order, set their three keys. */
  lemma ThreeTokens(w: string, h: string, crop: string)
    ensures Images.OptionsFromTokens(["w=" + w, "h=" + h, "crop=" + crop]) == map["w" := w, "h" := h, "crop" := crop]
  {
    assert "w" + "=" == "w=" && "h" + "=" == "h=" && "crop" + "=" == "crop=";
    var m1 := OptionsAfter([], "w", w, map[]);
    var t1 := [] + ["w=" + w];
    var m2 := OptionsAfter(t1, "h", h, m1);
    var t2 := t1 + ["h=" + h];
    var m3 := OptionsAfter(t2, "crop", crop, m2);
    assert t2 + ["crop=" + crop] == ["w=" + w, "h=" + h, "crop=" + crop];
  }

  /** The five tokens, read in order, set the five keys. */
  lemma FiveTokens(w: string, h: string, crop: string, q: string, fm: string)
    ensures Images.OptionsFromTokens(["w=" + w, "h=" + h, "crop=" + crop, "q=" + q, "fm=" + fm])
         == map["w" := w, "h" := h, "crop" := crop, "q" := q, "fm" := fm]
  {
    assert "q" + "=" == "q=" && "fm" + "=" == "fm=";
    var t3 := ["w=" + w, "h=" + h, "crop=" + crop];
    ThreeTokens(w, h, crop);
    var m4 := OptionsAfter(t3, "q", q, map["w" := w, "h" := h, "crop" := crop]);
    var t4 := t3 + ["q=" + q];
    var m5 := OptionsAfter(t4, "fm", fm, m4);
    assert t4 + ["fm=" + fm] == ["w=" + w, "h=" + h, "crop=" + crop, "q=" + q, "fm=" + fm];
  }

  /** Appending a `key=value` token sets the key in the options of the tokens before it. */
  lemma OptionsAfter(tokens: seq<string>, key: string, value: string, m: map<string, string>) returns (m': map<string, string>)
    requires '=' !in key && Images.OptionsFromTokens(tokens) == m
    ensures m' == m[key := value] && Images.OptionsFromTokens(tokens + [key + "=" + value]) == m'
  {
    Images.OptionPairOf(key, value);
    assert (tokens + [key + "=" + value])[..|tokens|] == tokens;
    m' := m[key := value];
  }

  /**
   * The option string parses back: the option map has exactly the five keys,
   * with w, h, q and fm as written, and the crop part parses to the four crop
   * numbers. This needs crop sizes in 1..1920, non-negative offsets, and no ','
   * in the other values.
   */
  lemma CropStringRoundTrip(params: map<string, Param>)
    requires Images.ValidCrop(CropOf(params))
    requires NoneOf(Render(Resolved(params, "w")), {','}) && NoneOf(Render(Resolved(params, "h")), {','})
    requires NoneOf(Render(Resolved(params, "q")), {','}) && NoneOf(Render(Resolved(params, "fm")), {','})
    ensures var opts := Images.ParseOptions(CropString(params));
      && opts == map["w" := Render(Resolved(params, "w")), "h" := Render(Resolved(params, "h")),
                     "crop" := CropPart(params), "q" := Render(Resolved(params, "q")), "fm" := Render(Resolved(params, "fm"))]
      && Images.ParseCrop(opts["crop"]) == Some(CropOf(params))
  {
    var c := CropOf(params);
    Images.DigitsHaveNoSeparator(c.width, {','});
    Images.DigitsHaveNoSeparator(c.height, {','});
    Images.DigitsHaveNoSeparator(c.offsetX, {','});
    Images.DigitsHaveNoSeparator(c.offsetY, {','});
    JoinKeepsNoneOf([IntToString(c.width), IntToString(c.height), IntToString(c.offsetX), IntToString(c.offsetY)], '-', {','});
    FiveOptions(Render(Resolved(params, "w")), Render(Resolved(params, "h")), CropPart(params),
                Render(Resolved(params, "q")), Render(Resolved(params, "fm")));
    Images.ParseCropRoundTrip(c, '-');
  }

  lemma {:induction false} JoinKeepsNoneOf(parts: seq<string>, sep: char, seps: set<char>)
    requires sep !in seps
    requires forall k :: 0 <= k < |parts| ==> NoneOf(parts[k], seps)
    ensures NoneOf(Join(parts, [sep]), seps)
  {
    if |parts| > 1 {
      JoinKeepsNoneOf(parts[1..], sep, seps);
    }
  }

  // ---------------------------------------------------------------------------
  // Image links and texts
  // ---------------------------------------------------------------------------

  /** The variant's own keys, overridden by the caller's parameters. */
  function MergedParams(a: Attachment, crop: string, params: map<string, Param>): map<string, Param>
  {
    (if crop in a.crop then a.crop[crop].named else map[]) + params
  }

  /** The image route of an attachment. */
  function LinkOf(a: Attachment, crop: string, params: map<string, Param>): ImageSource
  {
    RouteTo(CropString(MergedParams(a, crop, params)), a.url)
  }

  /**
   * `image`: the route of the given attachment, or of the first image
   * candidate; with neither, the placeholder when `fallback` is set, else null.
   */
  function Image(media: seq<Attachment>, role: string, crop: string, params: map<string, Param>,
                 fallback: bool, given: Option<Attachment>, current: string): (r: Option<ImageSource>)
    ensures given.Some? ==> r == Some(LinkOf(given.value, crop, params))
    ensures given.None? && HasImage(media, role, crop, current) ==>
      r == Some(LinkOf(FindImage(media, role, crop, current).value, crop, params))
    ensures given.None? && !HasImage(media, role, crop, current) ==>
      (fallback ==> r == Some(PlaceholderUri)) && (!fallback ==> r.None?)
  {
    var m := if given.Some? then given else FindImage(media, role, crop, current);
    if m.Some? then Some(LinkOf(m.value, crop, params))
    else if fallback then Some(PlaceholderUri)
    else None
  }

  /** The image candidates, in relation order and with their multiplicity (see `CandidatesAppend`). */
  function Candidates(media: seq<Attachment>, role: string, crop: string, current: string): (r: seq<Attachment>)
    ensures |r| <= |media|
    ensures forall x :: x in r <==> x in media && ImageCandidate(x, role, crop, current)
    ensures |media| == 1 ==> r == if ImageCandidate(media[0], role, crop, current) then media else []
  {
    if media == [] then []
    else if ImageCandidate(media[0], role, crop, current) then [media[0]] + Candidates(media[1..], role, crop, current)
    else Candidates(media[1..], role, crop, current)
  }

  /** The candidates of a concatenated relation are those of each part, in order. */
  lemma {:induction false} CandidatesAppend(a: seq<Attachment>, b: seq<Attachment>, role: string, crop: string, current: string)
    ensures Candidates(a + b, role, crop, current) == Candidates(a, role, crop, current) + Candidates(b, role, crop, current)
  {
    if a == [] {
      assert a + b == b;
    } else {
      var ab := a + b;
      assert ab[0] == a[0] && ab[1..] == a[1..] + b;
      CandidatesAppend(a[1..], b, role, crop, current);
      var head := if ImageCandidate(a[0], role, crop, current) then [a[0]] else [];
      assert Candidates(ab, role, crop, current) == head + Candidates(a[1..] + b, role, crop, current);
      assert Candidates(a, role, crop, current) == head + Candidates(a[1..], role, crop, current);
    }
  }

  /** `images`: the route of every image candidate, in relation order. */
  function ImageLinks(media: seq<Attachment>, role: string, crop: string, params: map<string, Param>, current: string): (r: seq<ImageSource>)
    ensures var c := Candidates(media, role, crop, current);
      |r| == |c| && forall i :: 0 <= i < |c| ==> r[i] == LinkOf(c[i], crop, params)
  {
    var c := Candidates(media, role, crop, current);
    seq(|c|, i requires 0 <= i < |c| => LinkOf(c[i], crop, params))
  }

  /** `images` is empty exactly when `hasImage` is false, and otherwise starts with what `image` gives. */
  lemma {:induction false} ImagesAgreeWithImage(media: seq<Attachment>, role: string, crop: string,
                                                params: map<string, Param>, current: string)
    ensures var links := ImageLinks(media, role, crop, params, current);
      && (links == [] <==> !HasImage(media, role, crop, current))
      && (links != [] ==> Image(media, role, crop, params, true, None, current) == Some(links[0]))
  {
    if media != [] {
      ImagesAgreeWithImage(media[1..], role, crop, params, current);
    }
  }

  /** `imageAltText`: the alt text of the given attachment or the default-crop image, or ''. */
  function ImageAltText(media: seq<Attachment>, role: string, given: Option<Attachment>, current: string): (r: string)
    ensures given.Some? ==> r == given.value.altText.GetOr("")
    ensures given.None? && HasImage(media, role, "default", current) ==>
      r == FindImage(media, role, "default", current).value.altText.GetOr("")
    ensures given.None? && !HasImage(media, role, "default", current) ==> r == ""
  {
    var m := if given.Some? then given else FindImage(media, role, "default", current);
    match m
    case Some(a) => a.altText.GetOr("")
    case None => ""
  }

  /** `imageCaption`: the pivot caption of the given attachment or the default-crop image, or ''. */
  function ImageCaption(media: seq<Attachment>, role: string, given: Option<Attachment>, current: string): (r: string)
    ensures given.Some? ==> r == given.value.caption.GetOr("")
    ensures given.None? && HasImage(media, role, "default", current) ==>
      r == FindImage(media, role, "default", current).value.caption.GetOr("")
    ensures given.None? && !HasImage(media, role, "default", current) ==> r == ""
  {
    var m := if given.Some? then given else FindImage(media, role, "default", current);
    match m
    case Some(a) => a.caption.GetOr("")
    case None => ""
  }
}
