/**
 * The option grammar of `ImageService`: the `key=value,...` option string, the
 * crop grammar, the no-upscale choice of scale dimensions and the
 * format/quality/header rules of the response.
 *
 * An image is only its (width, height); the pixel work is the image library's,
 * so a scale request is recorded as the arguments handed to it.
 */
module Images {
  import opened Wrappers
  import opened PhpStrings

  /** The largest width or height a request may ask for. */
  const MaxDimension: int := 1920

  /** The response lifetime used when none is given: thirty days, in seconds. */
  const DefaultCacheAge: int := 30 * 86400

  /** A 1x1 transparent PNG as a data URI, served when a model has no image. */
  function Placeholder(): (uri: string)
    ensures StartsWith(uri, "data:image/png;base64,")
  {
    var scheme := "data:image/png;base64,";
    var payload := "iVBORw0KGgoAAAANSUhEUgAAAAEAAAABCAQAAAC1HAwCAAAAC0lEQVR4nGNgYAAAAAMAASsJTYQAAAAASUVORK5CYII=";
    assert (scheme + payload)[..|scheme|] == scheme;
    scheme + payload
  }

  // ---------------------------------------------------------------------------
  // The option string
  // ---------------------------------------------------------------------------

  /**
   * One token `key=value`, split at its first '='. A token without '=' reads a
   * missing array element, which the framework turns into an exception that the
   * token's handler catches: the token contributes nothing.
   */
  function OptionPair(token: string): (r: Option<(string, string)>)
    ensures r.None? <==> '=' !in token
    ensures r.Some? ==> token == r.value.0 + "=" + r.value.1 && '=' !in r.value.0
  {
    var i := IndexOf(token, '=');
    if i < 0 then None
    else
      assert token == token[..i] + "=" + token[i + 1..];
      Some((token[..i], token[i + 1..]))
  }

  lemma {:induction false} IndexOfAfterPlainPrefix(p: string, c: char, t: string)
    requires c !in p
    ensures IndexOf(p + [c] + t, c) == |p|
  {
    var s := p + [c] + t;
    if p != [] {
      assert s[0] == p[0] && s[1..] == p[1..] + [c] + t;
      IndexOfAfterPlainPrefix(p[1..], c, t);
    } else {
      assert s[0] == c;
    }
  }

  lemma OptionPairOf(key: string, value: string)
    requires '=' !in key
    ensures OptionPair(key + "=" + value) == Some((key, value))
  {
    var t := key + "=" + value;
    IndexOfAfterPlainPrefix(key, '=', value);
    assert t[..|key|] == key && t[|key| + 1..] == value;
  }

  /** Token `i` is the last one that sets `key`. */
  ghost predicate LastSetting(tokens: seq<string>, key: string, i: int)
  {
    0 <= i < |tokens| && OptionPair(tokens[i]).Some? && OptionPair(tokens[i]).value.0 == key
    && forall j :: i < j < |tokens| ==> OptionPair(tokens[j]).None? || OptionPair(tokens[j]).value.0 != key
  }

  /** `mapWithKeys` over the tokens, in order: a later token overrides an earlier one with the same key. */
  function OptionsFromTokens(tokens: seq<string>): map<string, string>
  {
    if tokens == [] then map[]
    else
      var m := OptionsFromTokens(tokens[..|tokens| - 1]);
      match OptionPair(tokens[|tokens| - 1])
      case None => m
      case Some(p) => m[p.0 := p.1]
  }

  /** The keys of the options are exactly the keys of the tokens that have an '='. */
  lemma {:induction false} OptionsFromTokensKeys(tokens: seq<string>, k: string)
    ensures k in OptionsFromTokens(tokens) <==>
      exists i :: 0 <= i < |tokens| && OptionPair(tokens[i]).Some? && OptionPair(tokens[i]).value.0 == k
  {
    if tokens != [] {
      var init := tokens[..|tokens| - 1];
      OptionsFromTokensKeys(init, k);
      assert forall i :: 0 <= i < |init| ==> init[i] == tokens[i];
    }
  }

  /** The value of a key is the text after the first '=' of the last token setting it. */
  lemma {:induction false} OptionsFromTokensLast(tokens: seq<string>, k: string)
    requires k in OptionsFromTokens(tokens)
    ensures exists i :: LastSetting(tokens, k, i) && OptionsFromTokens(tokens)[k] == OptionPair(tokens[i]).value.1
  {
    var init := tokens[..|tokens| - 1];
    var last := tokens[|tokens| - 1];
    var m := OptionsFromTokens(init);
    if OptionPair(last).Some? && OptionPair(last).value.0 == k {
      assert OptionsFromTokens(tokens) == m[k := OptionPair(last).value.1];
      assert LastSetting(tokens, k, |tokens| - 1);
    } else {
      assert OptionsFromTokens(tokens)[k] == m[k] && k in m;
      OptionsFromTokensLast(init, k);
      var i :| LastSetting(init, k, i) && m[k] == OptionPair(init[i]).value.1;
      assert tokens[i] == init[i];
      forall j | i < j < |tokens| ensures OptionPair(tokens[j]).None? || OptionPair(tokens[j]).value.0 != k {
        if j < |tokens| - 1 {
          assert tokens[j] == init[j];
        }
      }
      assert LastSetting(tokens, k, i);
    }
  }

  /** `applyOptionsString`'s parsing: split on ',' first, then each token on its first '='. */
  function ParseOptions(s: string): map<string, string>
  {
    OptionsFromTokens(Split(s, {','}))
  }

  /** A token free of some characters has a value free of them too. */
  lemma OptionValueNoneOf(token: string, seps: set<char>)
    requires NoneOf(token, seps) && OptionPair(token).Some?
    ensures NoneOf(OptionPair(token).value.1, seps)
  {
    var key := OptionPair(token).value.0;
    var v := OptionPair(token).value.1;
    assert forall j :: 0 <= j < |v| ==> v[j] == token[|key| + 1 + j];
  }

  /** No option value holds a ',': the comma form of a crop cannot travel in the option string. */
  lemma OptionValuesHaveNoComma(s: string, k: string)
    requires k in ParseOptions(s)
    ensures ',' !in ParseOptions(s)[k]
  {
    var tokens := Split(s, {','});
    OptionsFromTokensLast(tokens, k);
    var i :| LastSetting(tokens, k, i) && ParseOptions(s)[k] == OptionPair(tokens[i]).value.1;
    OptionValueNoneOf(tokens[i], {','});
  }

  // ---------------------------------------------------------------------------
  // The crop grammar
  // ---------------------------------------------------------------------------

  datatype Crop = Crop(width: int, height: int, offsetX: int, offsetY: int)

  /** The crops `parseCrop` accepts: sizes in 1..1920, offsets non-negative. */
  predicate ValidCrop(c: Crop)
  {
    0 < c.width <= MaxDimension && 0 < c.height <= MaxDimension && c.offsetX >= 0 && c.offsetY >= 0
  }

  /**
   * `parseCrop`: split on ',' and '-', read the first four parts as integers
   * (extra parts ignored), and keep the crop only if it is valid.
   */
  function ParseCrop(s: string): (r: Option<Crop>)
    ensures r.Some? ==> ValidCrop(r.value)
    ensures |Split(s, {',', '-'})| < 4 ==> r.None?
    ensures var p := Split(s, {',', '-'});
      |p| >= 4 ==> var c := Crop(IntVal(p[0]), IntVal(p[1]), IntVal(p[2]), IntVal(p[3]));
        (ValidCrop(c) ==> r == Some(c)) && (!ValidCrop(c) ==> r.None?)
  {
    var parts := Split(s, {',', '-'});
    if |parts| < 4 then None
    else
      var c := Crop(IntVal(parts[0]), IntVal(parts[1]), IntVal(parts[2]), IntVal(parts[3]));
      if c.width <= 0 || c.height <= 0 || c.offsetX < 0 || c.offsetY < 0 || c.width > MaxDimension || c.height > MaxDimension
      then None
      else Some(c)
  }

  /** The four numbers of a crop written out with one separator character. */
  function CropText(c: Crop, sep: char): string
  {
    Join([IntToString(c.width), IntToString(c.height), IntToString(c.offsetX), IntToString(c.offsetY)], [sep])
  }

  lemma DigitsHaveNoSeparator(n: nat, seps: set<char>)
    requires forall c :: c in seps ==> !IsDigit(c)
    ensures NoneOf(NatToString(n), seps)
  {
  }

  /** A valid crop written with ',' or '-' between its numbers parses back to itself. */
  lemma ParseCropRoundTrip(c: Crop, sep: char)
    requires ValidCrop(c)
    requires sep == ',' || sep == '-'
    ensures ParseCrop(CropText(c, sep)) == Some(c)
  {
    var seps := {',', '-'};
    var parts := [IntToString(c.width), IntToString(c.height), IntToString(c.offsetX), IntToString(c.offsetY)];
    DigitsHaveNoSeparator(c.width, seps);
    DigitsHaveNoSeparator(c.height, seps);
    DigitsHaveNoSeparator(c.offsetX, seps);
    DigitsHaveNoSeparator(c.offsetY, seps);
    SplitJoin(parts, sep, seps);
    IntValOfIntToString(c.width);
    IntValOfIntToString(c.height);
    IntValOfIntToString(c.offsetX);
    IntValOfIntToString(c.offsetY);
  }

  /**
   * A leading '-' is a separator, not a sign: the first part is empty, so the
   * width reads 0 and every crop string starting with '-' is refused.
   */
  lemma LeadingMinusIsSeparator(rest: string)
    ensures Split(['-'] + rest, {',', '-'})[0] == ""
    ensures ParseCrop(['-'] + rest).None?
  {
    var s := ['-'] + rest;
    assert s[0] == '-' && s[1..] == rest;
    assert SkipNumericSpace("") == "";
    assert IntVal("") == 0;
  }

  // ---------------------------------------------------------------------------
  // Scaling and the response
  // ---------------------------------------------------------------------------

  /**
   * The scale argument for one dimension: the requested value clamped to 1920,
   * passed on only if it is non-zero and smaller than the current size.
   */
  function ScaleArgument(requested: Option<string>, current: int): (r: Option<int>)
    ensures r.Some? ==> r.value != 0 && r.value < current && r.value <= MaxDimension
    ensures r.Some? ==> requested.Some? && (r.value == IntVal(requested.value) || r.value == MaxDimension)
    ensures requested.Some? && IntVal(requested.value) != 0 && IntVal(requested.value) < current && IntVal(requested.value) <= MaxDimension
      ==> r == Some(IntVal(requested.value))
    ensures requested.Some? && IntVal(requested.value) > MaxDimension && MaxDimension < current ==> r == Some(MaxDimension)
    ensures requested.None? ==> r.None?
    ensures requested.Some? && IntVal(requested.value) == 0 ==> r.None?
  {
    match requested
    case None => None
    case Some(v) =>
      var w := if IntVal(v) < MaxDimension then IntVal(v) else MaxDimension;
      if w != 0 && w < current then Some(w) else None
  }

  /** A negative request is non-zero and below any positive size, so it reaches the image library. */
  lemma NegativeRequestIsPassedOn()
    ensures ScaleArgument(Some("-5"), 100) == Some(-5)
  {
    assert SkipNumericSpace("-5") == "-5";
    assert LeadingDigits("5") == "5";
    assert DigitsValue("5") == 5;
  }

  /** The arguments of one call to the image library's proportional scale. */
  datatype ScaleCall = ScaleCall(width: Option<int>, height: Option<int>)

  /** The encoder a response uses; webp and jpeg carry the quality. */
  datatype Encoder = PngEncoder | GifEncoder | WebpEncoder(quality: int) | JpegEncoder(quality: int)

  /** The response head: status, Content-Type, Cache-Control and the encoder of the body. */
  datatype ImageResponse = ImageResponse(status: int, contentType: string, cacheControl: string, encoder: Encoder)

  /** The Content-Type for a requested format, matched case-insensitively; jpeg for anything else. */
  function MimeFor(format: string): (mime: string)
    ensures mime == "image/png" <==> AsciiLower(format) == "png"
    ensures mime == "image/gif" <==> AsciiLower(format) == "gif"
    ensures mime == "image/webp" <==> AsciiLower(format) == "webp"
    ensures mime == "image/jpeg" <==> AsciiLower(format) !in {"png", "gif", "webp"}
  {
    var f := AsciiLower(format);
    if f == "png" then "image/png"
    else if f == "gif" then "image/gif"
    else if f == "webp" then "image/webp"
    else "image/jpeg"
  }

  /** The encoder for a format and quality, in step with `MimeFor`. */
  function EncoderFor(format: string, quality: int): (e: Encoder)
    ensures e.PngEncoder? <==> MimeFor(format) == "image/png"
    ensures e.GifEncoder? <==> MimeFor(format) == "image/gif"
    ensures e == WebpEncoder(quality) <==> MimeFor(format) == "image/webp"
    ensures e == JpegEncoder(quality) <==> MimeFor(format) == "image/jpeg"
  {
    var f := AsciiLower(format);
    if f == "png" then PngEncoder
    else if f == "gif" then GifEncoder
    else if f == "webp" then WebpEncoder(quality)
    else JpegEncoder(quality)
  }

  /** The Cache-Control value for a lifetime in seconds, shared and immutable. */
  function CacheControl(age: int): (v: string)
    ensures StartsWith(v, "public, max-age=") && EndsWith(v, ", immutable")
  {
    var v := "public, max-age=" + IntToString(age) + ", s-maxage=" + IntToString(age) + ", immutable";
    assert v[..16] == "public, max-age=";
    assert v[|v| - 11..] == ", immutable";
    v
  }

  /** The default lifetime, thirty days, is written 2592000 in the header. */
  lemma DefaultCacheAgeText()
    ensures IntToString(DefaultCacheAge) == "2592000"
  {
    assert DigitChar(0) == '0' && DigitChar(2) == '2' && DigitChar(5) == '5' && DigitChar(9) == '9';
    var s2 := NatToString(2);
    assert s2 == "2";
    var s25 := NatToString(25);
    assert s25 == s2 + [DigitChar(5)] == "25";
    var s259 := NatToString(259);
    assert s259 == s25 + [DigitChar(9)] == "259";
    var s2592 := NatToString(2592);
    assert s2592 == s259 + [DigitChar(2)] == "2592";
    var s25920 := NatToString(25920);
    assert s25920 == s2592 + [DigitChar(0)] == "25920";
    var s259200 := NatToString(259200);
    assert s259200 == s25920 + [DigitChar(0)] == "259200";
    var s2592000 := NatToString(2592000);
    assert s2592000 == s259200 + [DigitChar(0)] == "2592000";
    assert IntToString(DefaultCacheAge) == s2592000;
  }

  /** The value of option `key`, if it was given. */
  function Get(options: map<string, string>, key: string): Option<string>
  {
    if key in options then Some(options[key]) else None
  }

  /**
   * `response` for the stored options: quality `q` (default 80) read as an
   * integer, format `fm` (default jpg), and the cache lifetime in both
   * max-age and s-maxage.
   */
  function ResponseFor(options: map<string, string>, cacheAge: int): (r: ImageResponse)
    ensures r.status == 200
    ensures r.contentType in {"image/png", "image/gif", "image/webp", "image/jpeg"}
    ensures "fm" !in options ==> r.contentType == "image/jpeg" && r.encoder == JpegEncoder(Quality(options))
    ensures r.contentType == MimeFor(Get(options, "fm").GetOr("jpg"))
    ensures r.encoder == EncoderFor(Get(options, "fm").GetOr("jpg"), Quality(options))
    ensures r.cacheControl == "public, max-age=" + IntToString(cacheAge) + ", s-maxage=" + IntToString(cacheAge) + ", immutable"
  {
    var format := Get(options, "fm").GetOr("jpg");
    assert "fm" !in options ==> AsciiLower(format) == "jpg";
    ImageResponse(200, MimeFor(format), CacheControl(cacheAge), EncoderFor(format, Quality(options)))
  }

  /** The quality option read as an integer, 80 when it is absent. */
  function Quality(options: map<string, string>): (q: int)
    ensures "q" !in options ==> q == 80
  {
    if "q" in options then IntVal(options["q"]) else 80
  }

  /** A quality written as PHP writes an integer reads back as that integer. */
  lemma QualityReadsBack(options: map<string, string>, n: int)
    ensures Quality(options["q" := IntToString(n)]) == n
  {
    IntValOfIntToString(n);
  }

  // ---------------------------------------------------------------------------
  // The service object
  // ---------------------------------------------------------------------------

  /** One image being served: the options applied, its current size, and the scale calls made. */
  class ImageService {
    var options: map<string, string>
    var width: int
    var height: int
    var scaleCalls: seq<ScaleCall>

    /** `make` after the source file is read: no options yet, the decoded image's size. */
    constructor (width: int, height: int)
      ensures this.width == width && this.height == height
      ensures options == map[] && scaleCalls == []
    {
      this.width := width;
      this.height := height;
      options := map[];
      scaleCalls := [];
    }

    /**
     * `applyOptions`: store the options, crop to the parsed crop if there is one,
     * then, if 'w' or 'h' is given, ask for a proportional scale with the
     * no-upscale arguments computed against the cropped size.
     */
    method ApplyOptions(opts: map<string, string>)
      modifies this
      ensures options == opts
      ensures var c := ParseCrop(Get(opts, "crop").GetOr(""));
        && (c.Some? ==> width == c.value.width && height == c.value.height)
        && (c.None? ==> width == old(width) && height == old(height))
      ensures "w" in opts || "h" in opts ==>
        scaleCalls == old(scaleCalls) + [ScaleCall(ScaleArgument(Get(opts, "w"), width), ScaleArgument(Get(opts, "h"), height))]
      ensures !("w" in opts || "h" in opts) ==> scaleCalls == old(scaleCalls)
    {
      options := opts;
      var crop := ParseCrop(Get(opts, "crop").GetOr(""));
      if crop.Some? {
        width := crop.value.width;
        height := crop.value.height;
      }
      if "w" in opts || "h" in opts {
        var w := ScaleArgument(Get(opts, "w"), width);
        var h := ScaleArgument(Get(opts, "h"), height);
        scaleCalls := scaleCalls + [ScaleCall(w, h)];
      }
    }

    /** `applyOptionsString`: parse the option string, then apply it. */
    method ApplyOptionsString(s: string)
      modifies this
      ensures options == ParseOptions(s)
      ensures var c := ParseCrop(Get(options, "crop").GetOr(""));
        && (c.Some? ==> width == c.value.width && height == c.value.height)
        && (c.None? ==> width == old(width) && height == old(height))
      ensures "w" in options || "h" in options ==>
        scaleCalls == old(scaleCalls) + [ScaleCall(ScaleArgument(Get(options, "w"), width), ScaleArgument(Get(options, "h"), height))]
      ensures !("w" in options || "h" in options) ==> scaleCalls == old(scaleCalls)
    {
      ApplyOptions(ParseOptions(s));
    }

    /** `response`: the head of the response for the stored options; the lifetime defaults to thirty days. */
    method Response(cacheAge: Option<int>) returns (r: ImageResponse)
      ensures r == ResponseFor(options, cacheAge.GetOr(DefaultCacheAge))
      ensures cacheAge.None? ==> r.cacheControl == "public, max-age=" + "2592000" + ", s-maxage=" + "2592000" + ", immutable"
    {
      r := ResponseFor(options, cacheAge.GetOr(DefaultCacheAge));
      DefaultCacheAgeText();
    }
  }
}
