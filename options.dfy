/** Validation of the options object given to the `Form` constructor
    (lib/form.js). The checks run in the source's order and the first failing
    one decides the error. */
module Options {
  import opened Wrappers
  import opened Dom

  /** The JavaScript values an option can hold, as far as the checks can tell
      them apart. None of the checks looks inside a number, so numbers are
      integers here. */
  datatype JsVal =
    | JUndefined
    | JNull
    | JBool(b: bool)
    | JNum(n: int)
    | JStr(s: string)
    | JArray(elems: seq<JsVal>)
    | JElement(tagName: string)
    | JKey
    | JObject(fields: map<string, JsVal>)

  const VALID_OPTIONS: set<string> := {"key", "el", "room", "include", "displayTimer", "ui"}
  const DEFAULT_DISPLAY_TIMER: int := 1000
  const DEFAULT_UI: bool := true

  datatype OptionsError =
    | NotAnObject
    | InvalidOptions(names: set<string>)
    | NotAForm
    | IncludeNotArray
    | IncludeNotStrings
    | DisplayTimerNotNumber
    | UiNotBoolean
    | NotAKey

  /** What the constructor keeps. */
  datatype Config = Config(included: Option<seq<string>>, displayTimer: int, ui: bool)

  /** `_.defaults`: an option that is missing or `undefined` takes its default. */
  function WithDefault(fields: map<string, JsVal>, name: string, fallback: JsVal): (r: JsVal)
    ensures name in fields && fields[name] != JUndefined ==> r == fields[name]
    ensures (name !in fields || fields[name] == JUndefined) ==> r == fallback
  {
    if name in fields && fields[name] != JUndefined then fields[name] else fallback
  }

  function Lookup(fields: map<string, JsVal>, name: string): JsVal {
    if name in fields then fields[name] else JUndefined
  }

  predicate AllStrings(xs: seq<JsVal>) {
    forall i :: 0 <= i < |xs| ==> xs[i].JStr?
  }

  function Strings(xs: seq<JsVal>): (r: seq<string>)
    requires AllStrings(xs)
    ensures |r| == |xs| && forall i :: 0 <= i < |xs| ==> r[i] == xs[i].s
  {
    seq(|xs|, i requires 0 <= i < |xs| && AllStrings(xs) => xs[i].s)
  }

  /** Options that pass every check: an object with known names only, a
      FORM element, an `include` (when given) that is an array of strings,
      a number and a boolean for `displayTimer` and `ui` once defaulted, and
      a key. */
  predicate WellFormed(opts: JsVal) {
    && opts.JObject?
    && opts.fields.Keys <= VALID_OPTIONS
    && Lookup(opts.fields, "el") == JElement(FORM)
    && ("include" in opts.fields ==> opts.fields["include"].JArray? && AllStrings(opts.fields["include"].elems))
    && WithDefault(opts.fields, "displayTimer", JNum(DEFAULT_DISPLAY_TIMER)).JNum?
    && WithDefault(opts.fields, "ui", JBool(DEFAULT_UI)).JBool?
    && Lookup(opts.fields, "key") == JKey
  }

  /** The `Form` constructor's checks. The `options.key` test on the line
      after `_.defaults` is always false as written, so it is not one of them;
      a value that is not a key fails later, when `opts.key.key(...)` throws. */
  function Validate(opts: JsVal): (r: Result<Config, OptionsError>)
    ensures r.Ok? <==> WellFormed(opts)
    ensures r.Ok? ==> opts.JObject? && opts.fields.Keys <= VALID_OPTIONS
    ensures r.Ok? ==> Lookup(opts.fields, "el") == JElement(FORM) && Lookup(opts.fields, "key") == JKey
    ensures r.Ok? && "include" in opts.fields ==>
      opts.fields["include"].JArray? && AllStrings(opts.fields["include"].elems)
      && r.value.included == Some(Strings(opts.fields["include"].elems))
    ensures r.Ok? && "include" !in opts.fields ==> r.value.included == None
    ensures r.Ok? ==> JNum(r.value.displayTimer) == WithDefault(opts.fields, "displayTimer", JNum(DEFAULT_DISPLAY_TIMER))
    ensures r.Ok? ==> JBool(r.value.ui) == WithDefault(opts.fields, "ui", JBool(DEFAULT_UI))
  {
    if !opts.JObject? then Err(NotAnObject)
    else
      var fields := opts.fields;
      var invalid := fields.Keys - VALID_OPTIONS;
      if invalid != {} then Err(InvalidOptions(invalid))
      else
        var displayTimer := WithDefault(fields, "displayTimer", JNum(DEFAULT_DISPLAY_TIMER));
        var ui := WithDefault(fields, "ui", JBool(DEFAULT_UI));
        if Lookup(fields, "el") != JElement(FORM) then Err(NotAForm)
        else if "include" in fields && !fields["include"].JArray? then Err(IncludeNotArray)
        else if "include" in fields && !AllStrings(fields["include"].elems) then Err(IncludeNotStrings)
        else if !displayTimer.JNum? then Err(DisplayTimerNotNumber)
        else if !ui.JBool? then Err(UiNotBoolean)
        else if Lookup(fields, "key") != JKey then Err(NotAKey)
        else
          var included := if "include" in fields then Some(Strings(fields["include"].elems)) else None;
          Ok(Config(included, displayTimer.n, ui.b))
  }

  /** Each way the constructor rejects its options, with the earlier checks
      passing. */
  lemma RejectsEachBadOption(fields: map<string, JsVal>)
    ensures fields.Keys - VALID_OPTIONS != {} ==>
      Validate(JObject(fields)) == Err(InvalidOptions(fields.Keys - VALID_OPTIONS))
    ensures fields.Keys <= VALID_OPTIONS && Lookup(fields, "el") != JElement(FORM) ==>
      Validate(JObject(fields)) == Err(NotAForm)
    ensures fields.Keys <= VALID_OPTIONS && Lookup(fields, "el") == JElement(FORM)
            && "include" in fields && !fields["include"].JArray? ==>
      Validate(JObject(fields)) == Err(IncludeNotArray)
    ensures fields.Keys <= VALID_OPTIONS && Lookup(fields, "el") == JElement(FORM)
            && "include" in fields && fields["include"].JArray? && !AllStrings(fields["include"].elems) ==>
      Validate(JObject(fields)) == Err(IncludeNotStrings)
    ensures fields.Keys <= VALID_OPTIONS && Lookup(fields, "el") == JElement(FORM) && "include" !in fields
            && "displayTimer" in fields && fields["displayTimer"] != JUndefined && !fields["displayTimer"].JNum? ==>
      Validate(JObject(fields)) == Err(DisplayTimerNotNumber)
    ensures fields.Keys <= VALID_OPTIONS && Lookup(fields, "el") == JElement(FORM) && "include" !in fields
            && "displayTimer" !in fields && "ui" in fields && fields["ui"] != JUndefined && !fields["ui"].JBool? ==>
      Validate(JObject(fields)) == Err(UiNotBoolean)
    ensures fields.Keys <= VALID_OPTIONS && Lookup(fields, "el") == JElement(FORM)
            && Lookup(fields, "key") != JKey && "include" !in fields && "displayTimer" !in fields
            && "ui" !in fields ==>
      Validate(JObject(fields)) == Err(NotAKey)
  {
  }

  /** The unit tests' accepted options: a key, a FORM element and a room,
      with the defaults filled in. */
  lemma AcceptsMinimalOptions(room: JsVal)
    ensures Validate(JObject(map["key" := JKey, "el" := JElement(FORM), "room" := room]))
         == Ok(Config(None, DEFAULT_DISPLAY_TIMER, DEFAULT_UI))
  {
    var fields := map["key" := JKey, "el" := JElement(FORM), "room" := room];
    assert fields.Keys == {"key", "el", "room"};
  }

  /** The unit tests' rejected options. */
  lemma RejectsUnitTestOptions(room: JsVal)
    ensures Validate(JObject(map["teehee" := JStr("hoo")])).Err?
    ensures Validate(JObject(map["key" := JObject(map[]), "el" := JElement(FORM), "room" := room])) == Err(NotAKey)
    ensures Validate(JObject(map["el" := JElement(FORM), "room" := room])) == Err(NotAKey)
    ensures Validate(JObject(map["key" := JKey, "room" := room])) == Err(NotAForm)
    ensures Validate(JObject(map["key" := JKey, "el" := JElement(INPUT), "room" := room])) == Err(NotAForm)
    ensures Validate(JObject(map["key" := JKey, "el" := JStr(""), "room" := room])) == Err(NotAForm)
  {
    assert "teehee" in map["teehee" := JStr("hoo")].Keys - VALID_OPTIONS;
    assert map["key" := JObject(map[]), "el" := JElement(FORM), "room" := room].Keys == {"key", "el", "room"};
    assert map["el" := JElement(FORM), "room" := room].Keys == {"el", "room"};
    assert map["key" := JKey, "room" := room].Keys == {"key", "room"};
    assert map["key" := JKey, "el" := JElement(INPUT), "room" := room].Keys == {"key", "el", "room"};
    assert map["key" := JKey, "el" := JStr(""), "room" := room].Keys == {"key", "el", "room"};
  }
}
