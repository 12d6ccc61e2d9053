/** Keyword configuration shared by both widgets: a table of recognised
    option names with their defaults, overridden by the caller's keyword
    arguments. An unrecognised name is a configuration error raised at
    construction time. */
module Config {
  import opened Basics

  /** Image sizes are all the model needs of a surface. */
  datatype Surface = Surface(w: int, h: int)

  /** The sizes of the stock images the widgets fall back on. The arrow
      buttons are fixed 24x25 cuts of the button sheet, so the sheet itself
      is not needed. */
  datatype Gfx = Gfx(barBg: Surface, bar: Surface, handle: Surface)

  /** The values an option can hold. Fonts and other host objects are opaque. */
  datatype Value =
    | NoneValue
    | BoolValue(b: bool)
    | IntValue(i: int)
    | ColorValue(rgba: seq<int>)
    | TextValue(s: string)
    | SurfaceValue(surface: Surface)
    | SurfaceList(surfaces: seq<Surface>)
    | OpaqueValue

  /** Python truthiness of an option value. */
  predicate Truthy(v: Value)
  {
    match v
    case NoneValue => false
    case BoolValue(b) => b
    case IntValue(i) => i != 0
    case ColorValue(c) => |c| > 0
    case TextValue(s) => |s| > 0
    case SurfaceValue(_) => true
    case SurfaceList(l) => |l| > 0
    case OpaqueValue => true
  }

  datatype ConfigError = InvalidKeyword(key: string)

  /** Keyword arguments in the order the caller gave them. */
  type Kwargs = seq<(string, Value)>

  /** The options after applying `kwargs` to `defaults` one by one, stopping
      at the first name that is not in the table. */
  function Merged(defaults: map<string, Value>, kwargs: Kwargs): Result<map<string, Value>, ConfigError>
    decreases |kwargs|
  {
    if kwargs == [] then Success(defaults)
    else
      match Merged(defaults, kwargs[..|kwargs| - 1])
      case Failure(e) => Failure(e)
      case Success(m) =>
        var (key, v) := kwargs[|kwargs| - 1];
        if key in m then Success(m[key := v]) else Failure(InvalidKeyword(key))
  }

  /** The value the caller gave for `key`, the last one if it was given twice. */
  function Given(kwargs: Kwargs, key: string): (r: Option<Value>)
    ensures r.Some? ==> exists j :: 0 <= j < |kwargs| && kwargs[j] == (key, r.value)
    ensures r.None? ==> forall j :: 0 <= j < |kwargs| ==> kwargs[j].0 != key
    decreases |kwargs|
  {
    if kwargs == [] then None
    else if kwargs[|kwargs| - 1].0 == key then Some(kwargs[|kwargs| - 1].1)
    else Given(kwargs[..|kwargs| - 1], key)
  }

  /** Index of the first keyword not in the table, or |kwargs| if all are known. */
  function FirstUnknown(defaults: map<string, Value>, kwargs: Kwargs): (k: nat)
    ensures k <= |kwargs|
    ensures forall j :: 0 <= j < k ==> kwargs[j].0 in defaults
    ensures k < |kwargs| ==> kwargs[k].0 !in defaults
    decreases |kwargs|
  {
    if kwargs == [] then 0
    else if kwargs[0].0 !in defaults then 0
    else 1 + FirstUnknown(defaults, kwargs[1..])
  }

  /** What merging means: it fails exactly when some name is unrecognised,
      naming the first such; otherwise the option table keeps exactly the
      recognised names, each given name takes the caller's value and every
      other name keeps its default. */
  lemma {:induction false} MergedMeaning(defaults: map<string, Value>, kwargs: Kwargs)
    ensures var k := FirstUnknown(defaults, kwargs);
      Merged(defaults, kwargs).Failure? <==> k < |kwargs|
    ensures var k := FirstUnknown(defaults, kwargs);
      k < |kwargs| ==> Merged(defaults, kwargs) == Failure(InvalidKeyword(kwargs[k].0))
    ensures Merged(defaults, kwargs).Success? ==>
      var m := Merged(defaults, kwargs).value;
      m.Keys == defaults.Keys &&
      forall key :: key in defaults ==>
        m[key] == (if Given(kwargs, key).Some? then Given(kwargs, key).value else defaults[key])
    decreases |kwargs|
  {
    if kwargs != [] {
      var init := kwargs[..|kwargs| - 1];
      MergedMeaning(defaults, init);
      var k := FirstUnknown(defaults, kwargs);
      var ki := FirstUnknown(defaults, init);
      FirstUnknownOfPrefix(defaults, kwargs);
      forall key | key in defaults
        ensures Given(kwargs, key) ==
          (if kwargs[|kwargs| - 1].0 == key then Some(kwargs[|kwargs| - 1].1) else Given(init, key))
      {
      }
    }
  }

  /** A recognised name the caller did not pass keeps its default. */
  lemma MergedKeepsDefault(defaults: map<string, Value>, kwargs: Kwargs, key: string)
    requires Merged(defaults, kwargs).Success? && key in defaults
    requires forall j :: 0 <= j < |kwargs| ==> kwargs[j].0 != key
    ensures key in Merged(defaults, kwargs).value
    ensures Merged(defaults, kwargs).value[key] == defaults[key]
  {
    MergedMeaning(defaults, kwargs);
    assert Given(kwargs, key).None?;
  }

  /** The first unknown name of a sequence is the first unknown name of its
      prefix without the last element, unless that prefix has none. */
  lemma {:induction false} FirstUnknownOfPrefix(defaults: map<string, Value>, kwargs: Kwargs)
    requires kwargs != []
    ensures var init := kwargs[..|kwargs| - 1];
      var ki := FirstUnknown(defaults, init);
      FirstUnknown(defaults, kwargs) ==
        (if ki < |init| then ki
         else if kwargs[|kwargs| - 1].0 in defaults then |kwargs| else |init|)
    decreases |kwargs|
  {
    if kwargs[0].0 in defaults && |kwargs| > 1 {
      var tail := kwargs[1..];
      assert tail[..|tail| - 1] == kwargs[..|kwargs| - 1][1..];
      FirstUnknownOfPrefix(defaults, tail);
    }
  }

  /** Once merging has failed on a prefix, later keywords change nothing. */
  lemma {:induction false} MergedFailureSticks(defaults: map<string, Value>, kwargs: Kwargs, i: nat)
    requires i <= |kwargs|
    requires Merged(defaults, kwargs[..i]).Failure?
    ensures Merged(defaults, kwargs) == Merged(defaults, kwargs[..i])
    decreases |kwargs| - i
  {
    if i < |kwargs| {
      var next := kwargs[..i + 1];
      assert next[..|next| - 1] == kwargs[..i];
      MergedFailureSticks(defaults, kwargs, i + 1);
    } else {
      assert kwargs[..i] == kwargs;
    }
  }

  /** Copies each keyword argument into the option table, raising on a name
      the table does not have. */
  method ProcessKwargs(defaults: map<string, Value>, kwargs: Kwargs)
    returns (r: Result<map<string, Value>, ConfigError>)
    ensures r == Merged(defaults, kwargs)
  {
    var options := defaults;
    var i := 0;
    while i < |kwargs|
      invariant 0 <= i <= |kwargs|
      invariant Merged(defaults, kwargs[..i]) == Success(options)
    {
      var (key, v) := kwargs[i];
      assert kwargs[..i + 1][..i] == kwargs[..i];
      if key in options {
        options := options[key := v];
      } else {
        MergedFailureSticks(defaults, kwargs, i + 1);
        return Failure(InvalidKeyword(key));
      }
      i := i + 1;
    }
    assert kwargs[..i] == kwargs;
    return Success(options);
  }
}
