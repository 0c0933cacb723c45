/**
 * The typed "parse-and-set" helpers Helpers.SetIntAppSetting,
 * SetFloatAppSetting, SetDoubleAppSetting, SetStringAppSetting and
 * SetBoolAppSetting.
 *
 * The settings object is the process-wide ServerAppSettings.Default, passed
 * explicitly. Its properties, reached by name through reflection in the
 * source, are a map from property name to a tagged value; the declared type
 * of each property is fixed when the object is built. A query-string value
 * that was not supplied (null) is None.
 */
module AppSettings {
  import opened Options
  import opened Text
  import opened Int32Parse

  /** The declared type of a settings property. */
  datatype Kind = IntKind | FloatKind | DoubleKind | StringKind | BoolKind

  /** A property value; floating-point values are kept as their IEEE 754 bit patterns. */
  datatype SettingValue =
    | IntV(i: int)
    | FloatV(f: bv32)
    | DoubleV(d: bv64)
    | StrV(s: string)
    | BoolV(b: bool)
  {
    function Kind(): Kind {
      match this
      case IntV(_) => IntKind
      case FloatV(_) => FloatKind
      case DoubleV(_) => DoubleKind
      case StrV(_) => StringKind
      case BoolV(_) => BoolKind
    }
  }

  class ServerAppSettings {
    /** The declared properties and their types. */
    const schema: map<string, Kind>
    /** The current value of every property. */
    var values: map<string, SettingValue>

    /** Every declared property, and no other, holds a value of its declared type. */
    ghost predicate Valid()
      reads this
    {
      values.Keys == schema.Keys && forall p :: p in values ==> values[p].Kind() == schema[p]
    }

    /** The object as built from its persisted defaults. */
    constructor (defaults: map<string, SettingValue>)
      ensures Valid() && values == defaults
      ensures forall p :: p in defaults ==> p in schema && schema[p] == defaults[p].Kind()
    {
      schema := map p | p in defaults :: defaults[p].Kind();
      values := defaults;
    }

    /** GetProperty(property) finds a property whose type accepts a value of this kind. */
    predicate Declares(property: string, kind: Kind) {
      property in schema && schema[property] == kind
    }
  }

  /** The boolean a query-string value stands for: true exactly for "ON" in any letter case. */
  function IsOn(querystring: string): (on: bool)
    ensures on <==> querystring in {"ON", "On", "oN", "on"}
  {
    var upper := ToUpper(querystring);
    assert upper == "ON" ==>
      && querystring == [querystring[0], querystring[1]]
      && (querystring[0] == 'O' || querystring[0] == 'o')
      && (querystring[1] == 'N' || querystring[1] == 'n');
    assert querystring in {"ON", "On", "oN", "on"} ==> upper == "ON";
    upper == "ON"
  }

  /**
   * SetIntAppSetting: with no value, changes nothing and reports 0. With a
   * value, reports 1; the property takes the value only if it parses as an
   * Int32, and is left as it was otherwise.
   */
  method SetIntAppSetting(settings: ServerAppSettings, querystring: Option<string>, property: string)
    returns (r: int)
    requires settings.Valid()
    requires querystring.Some? && ParseInt32(querystring.value).Some? ==> settings.Declares(property, IntKind)
    modifies settings
    ensures settings.Valid()
    ensures r == (if querystring.Some? then 1 else 0)
    ensures querystring.None? ==> settings.values == old(settings.values)
    ensures querystring.Some? ==>
      match ParseInt32(querystring.value)
      case Some(i) => settings.values == old(settings.values)[property := IntV(i)]
      case None => settings.values == old(settings.values)
  {
    if querystring.Some? {
      var parsed := ParseInt32(querystring.value);
      if parsed.Some? {
        settings.values := settings.values[property := IntV(parsed.value)];
      }
      return 1;
    }
    return 0;
  }

  /**
   * SetFloatAppSetting: as SetIntAppSetting, with float.TryParse as the
   * parser; tryParseFloat stands for it and gives the bits of the float.
   */
  method SetFloatAppSetting(settings: ServerAppSettings, querystring: Option<string>, property: string,
                            tryParseFloat: string -> Option<bv32>)
    returns (r: int)
    requires settings.Valid()
    requires querystring.Some? && tryParseFloat(querystring.value).Some? ==> settings.Declares(property, FloatKind)
    modifies settings
    ensures settings.Valid()
    ensures r == (if querystring.Some? then 1 else 0)
    ensures querystring.None? ==> settings.values == old(settings.values)
    ensures querystring.Some? ==>
      match tryParseFloat(querystring.value)
      case Some(f) => settings.values == old(settings.values)[property := FloatV(f)]
      case None => settings.values == old(settings.values)
  {
    if querystring.Some? {
      var parsed := tryParseFloat(querystring.value);
      if parsed.Some? {
        settings.values := settings.values[property := FloatV(parsed.value)];
      }
      return 1;
    }
    return 0;
  }

  /**
   * SetDoubleAppSetting: as SetIntAppSetting, with double.TryParse as the
   * parser; tryParseDouble stands for it and gives the bits of the double.
   */
  method SetDoubleAppSetting(settings: ServerAppSettings, querystring: Option<string>, property: string,
                             tryParseDouble: string -> Option<bv64>)
    returns (r: int)
    requires settings.Valid()
    requires querystring.Some? && tryParseDouble(querystring.value).Some? ==> settings.Declares(property, DoubleKind)
    modifies settings
    ensures settings.Valid()
    ensures r == (if querystring.Some? then 1 else 0)
    ensures querystring.None? ==> settings.values == old(settings.values)
    ensures querystring.Some? ==>
      match tryParseDouble(querystring.value)
      case Some(d) => settings.values == old(settings.values)[property := DoubleV(d)]
      case None => settings.values == old(settings.values)
  {
    if querystring.Some? {
      var parsed := tryParseDouble(querystring.value);
      if parsed.Some? {
        settings.values := settings.values[property := DoubleV(parsed.value)];
      }
      return 1;
    }
    return 0;
  }

  /** SetStringAppSetting: a supplied value is stored verbatim and reported with 1; none changes nothing and gives 0. */
  method SetStringAppSetting(settings: ServerAppSettings, querystring: Option<string>, property: string)
    returns (r: int)
    requires settings.Valid()
    requires querystring.Some? ==> settings.Declares(property, StringKind)
    modifies settings
    ensures settings.Valid()
    ensures r == (if querystring.Some? then 1 else 0)
    ensures querystring.None? ==> settings.values == old(settings.values)
    ensures querystring.Some? ==> settings.values == old(settings.values)[property := StrV(querystring.value)]
  {
    if querystring.Some? {
      settings.values := settings.values[property := StrV(querystring.value)];
      return 1;
    }
    return 0;
  }

  /**
   * SetBoolAppSetting: a supplied value sets the property to whether it reads
   * "ON" in any letter case, and anything else, the empty string included, to
   * false; it is reported with 1. No value changes nothing and gives 0.
   */
  method SetBoolAppSetting(settings: ServerAppSettings, querystring: Option<string>, property: string)
    returns (r: int)
    requires settings.Valid()
    requires querystring.Some? ==> settings.Declares(property, BoolKind)
    modifies settings
    ensures settings.Valid()
    ensures r == (if querystring.Some? then 1 else 0)
    ensures querystring.None? ==> settings.values == old(settings.values)
    ensures querystring.Some? ==> settings.values == old(settings.values)[property := BoolV(IsOn(querystring.value))]
  {
    if querystring.Some? {
      if ToUpper(querystring.value) == "ON" {
        settings.values := settings.values[property := BoolV(true)];
      } else {
        settings.values := settings.values[property := BoolV(false)];
      }
      return 1;
    }
    return 0;
  }
}
