/**
 `fink.config.spring.SpringSmallRyeConfigPropertySource`: a read-only Spring
 `EnumerablePropertySource` named "SmallRyeConfig" over a SmallRye config.
 */
module SpringPropertySource {
  import opened Wrappers

  /** The name every adapter carries; registration looks for it. */
  const NAME: string := "SmallRyeConfig"

  /** What the adapter reads of a SmallRye `Config`. `getConfigValue(key)`
      is null for a key outside `values`; for a key inside, it is a config
      value whose `getValue()` is the stored option (None for a null value).
      `propertyNames` is `getPropertyNames()` in iteration order. */
  datatype Config = Config(values: map<string, Option<string>>, propertyNames: seq<string>)

  datatype SpringSmallRyeConfigPropertySource = SpringSmallRyeConfigPropertySource(source: Config) {

    /** `PropertySource.getName()`, fixed by the constructor. */
    function Name(): string {
      NAME
    }

    /** `getProperty`: a null key gives null without consulting the config;
        otherwise the config value's string, or null when there is no
        config value or its value is null. */
    function GetProperty(key: Option<string>): (r: Option<string>)
      ensures key.None? ==> r.None?
      ensures key.Some? && key.value !in source.values ==> r.None?
      ensures key.Some? && key.value in source.values ==> r == source.values[key.value]
    {
      if key.None? then None
      else if key.value !in source.values then None
      else source.values[key.value]
    }

    /** `containsProperty`: a non-null value is found for the key. */
    function ContainsProperty(key: Option<string>): (b: bool)
      ensures b <==> key.Some? && key.value in source.values && source.values[key.value].Some?
    {
      GetProperty(key).Some?
    }

    /** `getPropertyNames`: a new array of the config's names, in order. */
    method GetPropertyNames() returns (names: array<string>)
      ensures fresh(names)
      ensures names[..] == source.propertyNames
    {
      var all := source.propertyNames;
      names := new string[|all|](i requires 0 <= i < |all| => all[i]);
    }
  }

  /** Every adapter is named "SmallRyeConfig", whatever config it wraps. */
  lemma AdapterName(config: Config)
    ensures SpringSmallRyeConfigPropertySource(config).Name() == NAME == "SmallRyeConfig"
  {
  }

  /** `containsProperty(k)` holds exactly when `getProperty(k)` is non-null;
      in particular never for the null key. */
  lemma ContainsIffGetProperty(a: SpringSmallRyeConfigPropertySource, key: Option<string>)
    ensures a.ContainsProperty(key) <==> a.GetProperty(key).Some?
    ensures !a.ContainsProperty(None)
  {
  }
}
