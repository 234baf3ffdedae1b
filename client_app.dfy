/** The browser client's start-up: the user's configuration laid over the defaults, its
    validation, and the location read from the page path. */
module ClientApp {
  import opened Wrappers
  import opened Strings
  import BibleConverters

  /** The most colours the palette may hold. */
  const MaxColors := 5

  /** The JavaScript values a configuration can hold; numbers are taken to be integers. */
  datatype JsValue =
    | Undefined
    | Null
    | Bool(b: bool)
    | Number(n: int)
    | Str(s: string)
    | Array(items: seq<JsValue>)
    | Object(fields: map<string, JsValue>)

  predicate Truthy(v: JsValue)
  {
    match v
    case Undefined => false
    case Null => false
    case Bool(b) => b
    case Number(n) => n != 0
    case Str(s) => s != ""
    case Array(_) => true
    case Object(_) => true
  }

  /** `item && typeof item === 'string'`. */
  predicate NonEmptyString(v: JsValue)
  {
    v.Str? && v.s != ""
  }

  /** `String(v)`: an array prints its items joined by ',', with null and undefined items
      printed empty. */
  function ToText(v: JsValue): string
  {
    match v
    case Undefined => "undefined"
    case Null => "null"
    case Bool(b) => if b then "true" else "false"
    case Number(n) => IntToString(n)
    case Str(s) => s
    case Array(items) =>
      Join(seq(|items|, k requires 0 <= k < |items| =>
                 if items[k].Null? || items[k].Undefined? then "" else ToText(items[k])), ',')
    case Object(_) => "[object Object]"
  }

  /** Reading a property: a missing one is `undefined`, only objects have the fields the
      configuration reads, and reading from null or undefined throws. */
  function Property(v: JsValue, key: string, name: string): (r: Result<JsValue>)
    ensures r.Err? <==> v.Null? || v.Undefined?
    ensures v.Object? && key in v.fields ==> r == Ok(v.fields[key])
    ensures !v.Object? && r.Ok? ==> r.value.Undefined?
  {
    match v
    case Null => Err(TypeError("Cannot destructure property '" + key + "' of '" + name + "' as it is null."))
    case Undefined => Err(TypeError("Cannot destructure property '" + key + "' of '" + name + "' as it is undefined."))
    case Object(fields) => Ok(if key in fields then fields[key] else Undefined)
    case _ => Ok(Undefined)
  }

  /** A field of the configuration object, `undefined` when absent. */
  function Field(config: map<string, JsValue>, key: string): JsValue
  {
    if key in config then config[key] else Undefined
  }

  // ---------------------------------------------------------------------------
  // Defaults and merge
  // ---------------------------------------------------------------------------

  function ColorDefinition(code: string, name: string): JsValue
  {
    Object(map["code" := Str(code), "name" := Str(name)])
  }

  /** The configuration used where the user gives none. */
  function DefaultConfig(): map<string, JsValue>
  {
    map[
      "baseUrl" := Str("http://localhost"),
      "defaultLocation" := Object(map["versionId" := Str("KJV"), "bookId" := Str("JHN"), "chapterId" := Str("1")]),
      "colors" := Array([ColorDefinition("#ffff00", "Yellow"), ColorDefinition("#90ee90", "Green"),
                         ColorDefinition("#ffb6c1", "Pink"), ColorDefinition("#add8e6", "Blue"),
                         ColorDefinition("#f08080", "Red")])
    ]
  }

  /** `{...defaultConfig, ...config}`: every key the user gives replaces the default one
      whole, and the other defaults stay. */
  function MergeConfig(config: map<string, JsValue>): (r: map<string, JsValue>)
    ensures r.Keys == DefaultConfig().Keys + config.Keys
    ensures forall key :: key in config ==> r[key] == config[key]
    ensures forall key :: key in DefaultConfig() && key !in config ==> r[key] == DefaultConfig()[key]
  {
    DefaultConfig() + config
  }

  // ---------------------------------------------------------------------------
  // Validation
  // ---------------------------------------------------------------------------

  predicate IsHexDigit(c: char)
  {
    '0' <= c <= '9' || 'a' <= c <= 'f' || 'A' <= c <= 'F'
  }

  /** `/^#[0-9a-f]{6}$/i`: a '#' and six hexadecimal digits in either case, nothing else. */
  predicate IsColorCode(s: string)
  {
    |s| == 7 && s[0] == '#' && forall k :: 1 <= k < 7 ==> IsHexDigit(s[k])
  }

  /** `isValidLocation`, on a truthy location. */
  predicate IsValidLocation(location: JsValue)
  {
    location.Object?
    && NonEmptyString(Field(location.fields, "versionId"))
    && NonEmptyString(Field(location.fields, "bookId"))
    && NonEmptyString(Field(location.fields, "chapterId"))
  }

  /** `isValidColor`: destructuring a null or undefined entry throws; otherwise a truthy code
      whose text matches the colour pattern, and a non-empty name. */
  function IsValidColor(color: JsValue): (r: Result<bool>)
    ensures r.Err? <==> color.Null? || color.Undefined?
    ensures r.Err? ==> r.error.TypeError?
    ensures r == Ok(true) <==>
      (color.Object? && Truthy(Field(color.fields, "code"))
       && IsColorCode(ToText(Field(color.fields, "code"))) && NonEmptyString(Field(color.fields, "name")))
  {
    var code := Property(color, "code", "color");
    if code.Err? then Err(code.error)
    else
      var name := Property(color, "name", "color");
      Ok(Truthy(code.value) && IsColorCode(ToText(code.value)) && NonEmptyString(name.value))
  }

  /** `colors.every(isValidColor)`: the entries in order, stopping at the first invalid one;
      an entry that throws before that makes the whole call throw. */
  function EveryValidColor(colors: seq<JsValue>): (r: Result<bool>)
    ensures r.Err? ==> r.error.TypeError?
    decreases |colors|
  {
    if |colors| == 0 then Ok(true)
    else
      var first := IsValidColor(colors[0]);
      if first.Err? then first
      else if !first.value then Ok(false)
      else EveryValidColor(colors[1..])
  }

  /** `every` holds exactly when each entry is valid, and throws exactly when some null or
      undefined entry comes before any invalid one. */
  lemma {:induction false} EveryValidColorSpec(colors: seq<JsValue>)
    ensures EveryValidColor(colors) == Ok(true) <==> forall k :: 0 <= k < |colors| ==> IsValidColor(colors[k]) == Ok(true)
    ensures EveryValidColor(colors).Err? <==>
      exists k :: 0 <= k < |colors| && IsValidColor(colors[k]).Err?
                  && forall j :: 0 <= j < k ==> IsValidColor(colors[j]) == Ok(true)
    decreases |colors|
  {
    if |colors| > 0 {
      var rest := colors[1..];
      EveryValidColorSpec(rest);
      if EveryValidColor(colors) == Ok(true) {
        forall k | 0 <= k < |colors| ensures IsValidColor(colors[k]) == Ok(true) {
          if k > 0 { assert colors[k] == rest[k - 1]; }
        }
      }
      if forall k :: 0 <= k < |colors| ==> IsValidColor(colors[k]) == Ok(true) {
        forall k | 0 <= k < |rest| ensures IsValidColor(rest[k]) == Ok(true) {
          assert rest[k] == colors[k + 1];
        }
      }
      if EveryValidColor(colors).Err? && IsValidColor(colors[0]).Ok? {
        var k :| 0 <= k < |rest| && IsValidColor(rest[k]).Err? && forall j :: 0 <= j < k ==> IsValidColor(rest[j]) == Ok(true);
        assert colors[k + 1] == rest[k];
        forall j | 0 <= j < k + 1 ensures IsValidColor(colors[j]) == Ok(true) {
          if j > 0 { assert colors[j] == rest[j - 1]; }
        }
      }
      if exists k :: 0 <= k < |colors| && IsValidColor(colors[k]).Err?
                     && forall j :: 0 <= j < k ==> IsValidColor(colors[j]) == Ok(true) {
        var k :| 0 <= k < |colors| && IsValidColor(colors[k]).Err?
                 && forall j :: 0 <= j < k ==> IsValidColor(colors[j]) == Ok(true);
        if k > 0 {
          assert rest[k - 1] == colors[k];
          forall j | 0 <= j < k - 1 ensures IsValidColor(rest[j]) == Ok(true) {
            assert rest[j] == colors[j + 1];
          }
        }
      }
    }
  }

  /** `_validateConfig`: the base URL, then the default location, then the colours; the
      first failing check throws its message. */
  function ValidateConfig(config: map<string, JsValue>): (r: Outcome)
    ensures r == Fail(ClientError("Invalid base URL")) <==> !NonEmptyString(Field(config, "baseUrl"))
    ensures r == Fail(ClientError("Invalid default location")) <==>
      NonEmptyString(Field(config, "baseUrl"))
      && !(Truthy(Field(config, "defaultLocation")) && IsValidLocation(Field(config, "defaultLocation")))
  {
    var baseUrl := Field(config, "baseUrl");
    var location := Field(config, "defaultLocation");
    var colors := Field(config, "colors");
    if !NonEmptyString(baseUrl) then Fail(ClientError("Invalid base URL"))
    else if !Truthy(location) || !IsValidLocation(location) then Fail(ClientError("Invalid default location"))
    else if !colors.Array? || |colors.items| == 0 || |colors.items| > MaxColors then Fail(ClientError("Invalid colors"))
    else
      var every := EveryValidColor(colors.items);
      if every.Err? then Fail(every.error)
      else if !every.value then Fail(ClientError("Invalid colors"))
      else Pass
  }

  /** A configuration passes exactly when its base URL is a non-empty string, its default
      location holds three non-empty strings, and it has one to five colours, each with a
      '#'-and-six-hex-digits code and a non-empty name. */
  lemma ValidateConfigPasses(config: map<string, JsValue>)
    ensures ValidateConfig(config).Pass? <==>
      NonEmptyString(Field(config, "baseUrl"))
      && IsValidLocation(Field(config, "defaultLocation"))
      && Field(config, "colors").Array?
      && 1 <= |Field(config, "colors").items| <= MaxColors
      && forall k :: 0 <= k < |Field(config, "colors").items| ==> IsValidColor(Field(config, "colors").items[k]) == Ok(true)
  {
    var colors := Field(config, "colors");
    if colors.Array? {
      EveryValidColorSpec(colors.items);
    }
  }

  /** A colour list of the right length fails with "Invalid colors" or with the error of a
      null or undefined entry; too short or too long a list never reads its entries. */
  lemma ValidateColorsOutcome(config: map<string, JsValue>)
    requires NonEmptyString(Field(config, "baseUrl")) && IsValidLocation(Field(config, "defaultLocation"))
    ensures var colors := Field(config, "colors");
      !colors.Array? || |colors.items| == 0 || |colors.items| > MaxColors ==>
        ValidateConfig(config) == Fail(ClientError("Invalid colors"))
    ensures ValidateConfig(config).Fail? && ValidateConfig(config).error.TypeError? ==>
      var colors := Field(config, "colors");
      colors.Array? && exists k :: 0 <= k < |colors.items| && (colors.items[k].Null? || colors.items[k].Undefined?)
  {
    var colors := Field(config, "colors");
    if colors.Array? {
      EveryValidColorSpec(colors.items);
    }
  }

  /** The defaults are valid, and so is a configuration that only sets the base URL. */
  lemma DefaultConfigIsValid(baseUrl: string)
    requires baseUrl != ""
    ensures ValidateConfig(MergeConfig(map[])) == Pass
    ensures ValidateConfig(MergeConfig(map["baseUrl" := Str(baseUrl)])) == Pass
  {
    BaseUrlOnlyIsValid(map[]);
    BaseUrlOnlyIsValid(map["baseUrl" := Str(baseUrl)]);
  }

  /** A configuration that sets nothing but a non-empty base URL passes over the defaults. */
  lemma BaseUrlOnlyIsValid(config: map<string, JsValue>)
    requires config.Keys <= {"baseUrl"} && ("baseUrl" in config ==> NonEmptyString(config["baseUrl"]))
    ensures ValidateConfig(MergeConfig(config)) == Pass
  {
    var merged := MergeConfig(config);
    assert Field(merged, "colors") == DefaultConfig()["colors"];
    assert Field(merged, "defaultLocation") == DefaultConfig()["defaultLocation"];
    DefaultColorsValid();
    ValidateConfigPasses(merged);
  }

  lemma DefaultColorsValid()
    ensures forall k :: 0 <= k < |DefaultConfig()["colors"].items| ==> IsValidColor(DefaultConfig()["colors"].items[k]) == Ok(true)
  {
    var colors := DefaultConfig()["colors"].items;
    forall k | 0 <= k < |colors| ensures IsValidColor(colors[k]) == Ok(true) {
      var code := Field(colors[k].fields, "code");
      assert code.Str? && IsColorCode(code.s);
    }
  }

  /** The pattern ignores case and demands the '#'. */
  lemma ColorCodeExamples()
    ensures IsColorCode("#FFff00")
    ensures !IsColorCode("ffff00") && !IsColorCode("#fff") && !IsColorCode("#ffff0g")
    ensures IsValidColor(Array([Str("#ffff00")])) == Ok(false)
    ensures ToText(Array([Str("#ffff00")])) == "#ffff00"
  {
    assert !IsHexDigit("#ffff0g"[6]);
    assert Join(["#ffff00"], ',') == "#ffff00";
  }

  // ---------------------------------------------------------------------------
  // Location
  // ---------------------------------------------------------------------------

  datatype Location = Location(versionId: string, bookId: string, chapterId: string)

  /** The default location of a validated configuration. */
  function DefaultLocation(config: map<string, JsValue>): Location
    requires IsValidLocation(Field(config, "defaultLocation"))
  {
    var fields := Field(config, "defaultLocation").fields;
    Location(Field(fields, "versionId").s, Field(fields, "bookId").s, Field(fields, "chapterId").s)
  }

  /** A path segment, empty when the path has fewer. */
  function Segment(parts: seq<string>, k: nat): string
  {
    if k < |parts| then parts[k] else ""
  }

  /** `_getLocation`: the second to fourth '/'-separated segments of the path; an empty or
      missing one falls back to the default. */
  function GetLocation(pathname: string, defaults: Location): (r: Location)
    ensures var parts := Split(pathname, '/');
      (r.versionId == if Segment(parts, 1) != "" then parts[1] else defaults.versionId)
      && (r.bookId == if Segment(parts, 2) != "" then parts[2] else defaults.bookId)
      && (r.chapterId == if Segment(parts, 3) != "" then parts[3] else defaults.chapterId)
  {
    var parts := Split(pathname, '/');
    Location(if Segment(parts, 1) != "" then Segment(parts, 1) else defaults.versionId,
             if Segment(parts, 2) != "" then Segment(parts, 2) else defaults.bookId,
             if Segment(parts, 3) != "" then Segment(parts, 3) else defaults.chapterId)
  }

  /** The page the server links to, "/version/book/chapter", opens at that chapter whatever
      the defaults. */
  lemma GetLocationOfHref(versionId: string, bookId: string, chapterId: string, defaults: Location)
    requires versionId != "" && bookId != "" && chapterId != ""
    requires Free(versionId, '/') && Free(bookId, '/') && Free(chapterId, '/')
    ensures GetLocation(BibleConverters.Href(versionId, bookId, chapterId), defaults) == Location(versionId, bookId, chapterId)
  {
    BibleConverters.HrefRoundTrip(versionId, bookId, chapterId);
  }

  /** The site root and a bare version path take the rest from the defaults. */
  lemma GetLocationDefaults(defaults: Location)
    ensures GetLocation("/", defaults) == defaults
    ensures GetLocation("/ESV", defaults) == Location("ESV", defaults.bookId, defaults.chapterId)
  {
  }

  /** What the client starts with. */
  datatype Start = Start(config: map<string, JsValue>, location: Location)

  /** The `App` constructor up to the controller: merge, validate (a failed check throws),
      then read the location from the path. */
  function StartApp(config: map<string, JsValue>, pathname: string): (r: Result<Start>)
    ensures r.Err? <==> ValidateConfig(MergeConfig(config)).Fail?
    ensures r.Err? ==> r.error == ValidateConfig(MergeConfig(config)).error
    ensures r.Ok? ==> r.value.config == MergeConfig(config)
                      && IsValidLocation(Field(r.value.config, "defaultLocation"))
                      && r.value.location == GetLocation(pathname, DefaultLocation(r.value.config))
  {
    var merged := MergeConfig(config);
    var check := ValidateConfig(merged);
    if check.Fail? then Err(check.error)
    else
      ValidateConfigPasses(merged);
      Ok(Start(merged, GetLocation(pathname, DefaultLocation(merged))))
  }
}
