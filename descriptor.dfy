/**
 * The hotfix descriptor: the keys of a hotfix dictionary, the strict record
 * `Hotfix` that a dictionary is parsed into, and the applicability filter that
 * compares a hotfix's constraints with the running environment.
 */
module Descriptor {
  import opened Wrappers

  /** A value found in a hotfix dictionary: a string, or any other object
      (a number, a boolean, an array, a nested dictionary, null). */
  datatype Value = Str(s: string) | Other(id: nat)

  /** A decoded hotfix dictionary, keyed by string. */
  type Dict = map<string, Value>

  // The dictionary keys the parser reads (the `Key` enumeration).
  const AppVersionKey := "AppVersion"
  const OSVersionKey := "OSVersion"
  const InterfaceIdiomKey := "InterfaceIdiom"
  const ClassKey := "Class"
  const SelectorKey := "Selector"
  const MethodTypeKey := "MethodType"
  const ReplacementSelectorKey := "ReplacementSelector"
  const ReplacementReturnValueKey := "ReplacementReturnValue"

  /** A handle to a class of the host program. */
  type ClassHandle = nat

  /** What looking a class up by name can find: the host's classes by name. */
  type ClassRegistry = map<string, ClassHandle>

  /** The device class; `Unspecified` is only ever an environment value. */
  datatype Idiom = Unspecified | Phone | Pad

  /** Whether the selector to replace is an instance or a class method. */
  datatype MethodType = Instance | Class

  /** How the replacement behaves; returning a configured object is the only strategy. */
  datatype ReplacementSelector = ReturnObject

  datatype Hotfix = Hotfix(
    appVersion: Option<string>,
    osVersion: Option<string>,
    interfaceIdiom: Option<Idiom>,
    targetClass: ClassHandle,
    selector: Option<string>,
    methodType: MethodType,
    replacementSelector: ReplacementSelector,
    replacementReturnValue: Option<Value>)

  /** Why a dictionary was rejected; the parser reports the first failing field. */
  datatype ParseError =
    | NotAString(key: string)
    | UnexpectedIdiom(value: string)
    | ClassMissing
    | ClassNotFound(name: string)

  const PadAliases: set<string> := {"pad", "ipad", "iPad"}
  const PhoneAliases: set<string> := {"phone", "iphone", "iPhone"}

  /** The strings each device class accepts as a constraint. */
  function AliasesOf(idiom: Idiom): set<string>
  {
    match idiom
    case Unspecified => {}
    case Phone => PhoneAliases
    case Pad => PadAliases
  }

  /** The six accepted spellings of a device class, matched case-sensitively. */
  function IdiomFromString(s: string): (r: Option<Idiom>)
    ensures r.Some? <==> s in PadAliases + PhoneAliases
    ensures r.Some? ==> r.value != Unspecified && s in AliasesOf(r.value)
  {
    if s == "pad" || s == "ipad" || s == "iPad" then Some(Pad)
    else if s == "phone" || s == "iphone" || s == "iPhone" then Some(Phone)
    else None
  }

  function Lookup(d: Dict, key: string): Option<Value>
  {
    if key in d then Some(d[key]) else None
  }

  /** An optional string field: absent is fine, present must be a string. */
  function OptionalString(d: Dict, key: string): Result<Option<string>, ParseError>
  {
    if key !in d then Ok(None)
    else if d[key].Str? then Ok(Some(d[key].s))
    else Err(NotAString(key))
  }

  function OptionalIdiom(d: Dict): Result<Option<Idiom>, ParseError>
  {
    if InterfaceIdiomKey !in d then Ok(None)
    else match d[InterfaceIdiomKey]
      case Str(s) =>
        (match IdiomFromString(s)
         case Some(idiom) => Ok(Some(idiom))
         case None => Err(UnexpectedIdiom(s)))
      case Other(_) => Err(NotAString(InterfaceIdiomKey))
  }

  function TargetClass(d: Dict, classes: ClassRegistry): Result<ClassHandle, ParseError>
  {
    if ClassKey in d && d[ClassKey].Str? then
      var name := d[ClassKey].s;
      if name in classes then Ok(classes[name]) else Err(ClassNotFound(name))
    else Err(ClassMissing)
  }

  /** Soft default: anything but the string "class" is an instance method. */
  function MethodTypeOf(d: Dict): MethodType
  {
    if MethodTypeKey in d && d[MethodTypeKey] == Str("class") then Class else Instance
  }

  /** Soft default: the only strategy, whatever the dictionary says. */
  function ReplacementSelectorOf(d: Dict): ReplacementSelector
  {
    ReturnObject
  }

  // Field-by-field acceptance, the reference the parser is checked against.

  predicate StringOrAbsent(d: Dict, key: string)
  {
    key in d ==> d[key].Str?
  }

  predicate IdiomOrAbsent(d: Dict)
  {
    InterfaceIdiomKey in d ==>
      d[InterfaceIdiomKey].Str? && d[InterfaceIdiomKey].s in PadAliases + PhoneAliases
  }

  predicate ClassResolves(d: Dict, classes: ClassRegistry)
  {
    ClassKey in d && d[ClassKey].Str? && d[ClassKey].s in classes
  }

  predicate Acceptable(d: Dict, classes: ClassRegistry)
  {
    StringOrAbsent(d, AppVersionKey) && StringOrAbsent(d, OSVersionKey) && IdiomOrAbsent(d)
    && ClassResolves(d, classes) && StringOrAbsent(d, SelectorKey)
  }

  /** The string a field holds, if the field is present. */
  function StringAt(d: Dict, key: string): Option<string>
    requires StringOrAbsent(d, key)
  {
    if key in d then Some(d[key].s) else None
  }

  /**
   * Parses a hotfix dictionary. Identity and filter fields are strict; the
   * method type and the replacement strategy fall back to defaults; the
   * replacement return value passes through.
   */
  function Parse(d: Dict, classes: ClassRegistry): (r: Result<Hotfix, ParseError>)
    ensures r.Ok? <==> Acceptable(d, classes)
    ensures r.Ok? ==>
      && r.value.appVersion == StringAt(d, AppVersionKey)
      && r.value.osVersion == StringAt(d, OSVersionKey)
      && r.value.selector == StringAt(d, SelectorKey)
      && (r.value.interfaceIdiom.None? <==> InterfaceIdiomKey !in d)
      && (r.value.interfaceIdiom.Some? ==>
            r.value.interfaceIdiom.value != Unspecified &&
            d[InterfaceIdiomKey].s in AliasesOf(r.value.interfaceIdiom.value))
      && r.value.targetClass == classes[d[ClassKey].s]
      && (r.value.methodType == Class <==> Lookup(d, MethodTypeKey) == Some(Str("class")))
      && r.value.replacementReturnValue == Lookup(d, ReplacementReturnValueKey)
  {
    var appVersion :- OptionalString(d, AppVersionKey);
    var osVersion :- OptionalString(d, OSVersionKey);
    var interfaceIdiom :- OptionalIdiom(d);
    var targetClass :- TargetClass(d, classes);
    var selector :- OptionalString(d, SelectorKey);
    Ok(Hotfix(appVersion, osVersion, interfaceIdiom, targetClass, selector,
              MethodTypeOf(d), ReplacementSelectorOf(d), Lookup(d, ReplacementReturnValueKey)))
  }

  /**
   * Which error a rejected dictionary reports: the first field that fails,
   * in the order AppVersion, OSVersion, InterfaceIdiom, Class, Selector, and
   * how it fails.
   */
  lemma ParseReportsFirstFailingField(d: Dict, classes: ClassRegistry)
    ensures Parse(d, classes) == Err(NotAString(AppVersionKey)) <==> !StringOrAbsent(d, AppVersionKey)
    ensures Parse(d, classes) == Err(NotAString(OSVersionKey)) <==>
      StringOrAbsent(d, AppVersionKey) && !StringOrAbsent(d, OSVersionKey)
    ensures Parse(d, classes) == Err(NotAString(InterfaceIdiomKey)) <==>
      StringOrAbsent(d, AppVersionKey) && StringOrAbsent(d, OSVersionKey)
      && InterfaceIdiomKey in d && !d[InterfaceIdiomKey].Str?
    ensures Parse(d, classes).Err? && Parse(d, classes).error.UnexpectedIdiom? <==>
      StringOrAbsent(d, AppVersionKey) && StringOrAbsent(d, OSVersionKey)
      && InterfaceIdiomKey in d && d[InterfaceIdiomKey].Str?
      && d[InterfaceIdiomKey].s !in PadAliases + PhoneAliases
    ensures Parse(d, classes) == Err(ClassMissing) <==>
      StringOrAbsent(d, AppVersionKey) && StringOrAbsent(d, OSVersionKey) && IdiomOrAbsent(d)
      && !(ClassKey in d && d[ClassKey].Str?)
    ensures Parse(d, classes).Err? && Parse(d, classes).error.ClassNotFound? <==>
      StringOrAbsent(d, AppVersionKey) && StringOrAbsent(d, OSVersionKey) && IdiomOrAbsent(d)
      && ClassKey in d && d[ClassKey].Str? && d[ClassKey].s !in classes
    ensures Parse(d, classes) == Err(NotAString(SelectorKey)) <==>
      StringOrAbsent(d, AppVersionKey) && StringOrAbsent(d, OSVersionKey) && IdiomOrAbsent(d)
      && ClassResolves(d, classes) && !StringOrAbsent(d, SelectorKey)
  {
  }

  /** The method type and the replacement strategy never decide whether a
      dictionary parses, and do not affect any other field. */
  lemma SoftFieldsNeverReject(d: Dict, classes: ClassRegistry, methodType: Value, strategy: Value)
    ensures var d' := d[MethodTypeKey := methodType][ReplacementSelectorKey := strategy];
      && (Parse(d', classes).Ok? <==> Parse(d, classes).Ok?)
      && (Parse(d, classes).Ok? ==>
            Parse(d', classes).value == Parse(d, classes).value.(methodType := Parse(d', classes).value.methodType))
  {
    var d' := d[MethodTypeKey := methodType][ReplacementSelectorKey := strategy];
    assert Acceptable(d', classes) <==> Acceptable(d, classes);
  }

  /** The replacement return value is stored exactly as given, whatever it is. */
  lemma ReturnValuePassesThrough(d: Dict, classes: ClassRegistry, v: Value)
    requires Acceptable(d, classes)
    ensures Parse(d[ReplacementReturnValueKey := v], classes).Ok?
    ensures Parse(d[ReplacementReturnValueKey := v], classes).value.replacementReturnValue == Some(v)
  {
    assert Acceptable(d[ReplacementReturnValueKey := v], classes);
  }

  /** The running environment the filter compares constraints with. */
  datatype Env = Env(appVersion: string, osVersion: string, idiom: Idiom)

  /** An absent constraint matches anything; a present one matches only its own value. */
  predicate Matches<T(==)>(constraint: Option<T>, actual: T)
  {
    constraint.None? || constraint.value == actual
  }

  /**
   * Whether a hotfix applies: every constraint it carries equals the
   * environment's value exactly (no version ranges or prefixes).
   */
  function Applies(h: Hotfix, env: Env): (r: bool)
    ensures r <==>
      Matches(h.appVersion, env.appVersion) && Matches(h.osVersion, env.osVersion)
      && Matches(h.interfaceIdiom, env.idiom)
  {
    if h.appVersion.Some? && h.appVersion.value != env.appVersion then false
    else if h.osVersion.Some? && h.osVersion.value != env.osVersion then false
    else if h.interfaceIdiom.Some? && h.interfaceIdiom.value != env.idiom then false
    else true
  }

  /**
   * Applicability stated on the dictionary itself: a parsed hotfix applies
   * exactly when each constraint key present holds the environment's value,
   * the idiom key holding one of the environment idiom's spellings.
   */
  lemma AppliesIffDictMatches(d: Dict, classes: ClassRegistry, env: Env)
    requires Parse(d, classes).Ok?
    ensures Applies(Parse(d, classes).value, env) <==>
      && (AppVersionKey in d ==> d[AppVersionKey] == Str(env.appVersion))
      && (OSVersionKey in d ==> d[OSVersionKey] == Str(env.osVersion))
      && (InterfaceIdiomKey in d ==> d[InterfaceIdiomKey].s in AliasesOf(env.idiom))
  {
    var h := Parse(d, classes).value;
    if InterfaceIdiomKey in d {
      var s := d[InterfaceIdiomKey].s;
      assert h.interfaceIdiom.Some? && s in AliasesOf(h.interfaceIdiom.value);
      // The alias sets of distinct idioms are disjoint.
      assert s in AliasesOf(env.idiom) ==> env.idiom == h.interfaceIdiom.value;
    }
  }

  /** A hotfix that carries no constraint applies everywhere. */
  lemma UnconstrainedAppliesEverywhere(h: Hotfix, env: Env)
    requires h.appVersion.None? && h.osVersion.None? && h.interfaceIdiom.None?
    ensures Applies(h, env)
  {
  }
}
