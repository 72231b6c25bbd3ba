/**
 `fink.demo.smallryeconfigspringboot.SmallRyeConfigAutoConf`: the demo
 application's own copy of the `Locale` converter and of the YAML source
 provider, both written out inside its `smallRyeConfig()` bean method.
 */
module DemoAutoConf {
  import opened Wrappers
  import opened Text
  import opened Locales
  import AutoConf

  /** The demo's `Locale` converter, as it is written there: null for null
      or blank input, the tag path exactly when the input holds `-`, and
      otherwise one to three trimmed segments. */
  function ConvertLocale(s: Option<string>): (r: Option<Locale>)
    ensures r.None? <==> s.None? || IsBlank(s.value)
    ensures r.Some? ==> (r.value.Tag? <==> '-' in s.value)
    ensures r.Some? ==> 1 <= |Segments(r.value)| <= 3
    ensures r.Some? ==> forall i :: 0 <= i < |Segments(r.value)| ==> IsTrimmed(Segments(r.value)[i])
  {
    if s.None? || IsBlank(s.value) then None
    else if IndexOf(s.value, '-') >= 0 then Some(Tag(Trim(Trim(s.value))))
    else Some(FromSegments(TrimResults(SplitLimit(s.value, '_', 3))))
  }

  /** The demo's converter agrees with the library's on every input, so
      everything proved of `AutoConf.ConvertLocale` holds of it. */
  lemma SameConverterAsLibrary(s: Option<string>)
    ensures ConvertLocale(s) == AutoConf.ConvertLocale(s)
  {
  }

  /** Null or blank input yields null; `-` sends the trimmed input to the
      tag path ahead of the underscore path; otherwise the constructor takes
      one segment more than there are underscores, at most three. */
  lemma DemoConverterCases(s: Option<string>)
    ensures ConvertLocale(s).None? <==> s.None? || IsBlank(s.value)
    ensures s.Some? && !IsBlank(s.value) && '-' in s.value ==> ConvertLocale(s) == Some(Tag(Trim(s.value)))
    ensures s.Some? && !IsBlank(s.value) && '-' !in s.value ==>
      ConvertLocale(s).Some? && !ConvertLocale(s).value.Tag?
      && |Segments(ConvertLocale(s).value)| == (if multiset(s.value)['_'] < 3 then multiset(s.value)['_'] + 1 else 3)
  {
    SameConverterAsLibrary(s);
    if s.Some? && !IsBlank(s.value) {
      if '-' in s.value {
        AutoConf.HyphenTakesTagPath(s.value);
      } else {
        AutoConf.UnderscorePath(s.value);
        SplitLimitCount(s.value, '_', 3);
      }
    }
  }

  /** The demo's YAML provider: the same three groups, in the same order,
      at the same ordinals as the library's. */
  method GetConfigSources<S>(load: (seq<string>, int) -> seq<S>) returns (sources: seq<S>)
    ensures sources == AutoConf.LoadGroups(load, AutoConf.YamlGroups)
  {
    sources := [];
    sources := sources + load(["config/application.yaml", "config/application.yml"], 266);
    sources := sources + load(["application.yaml", "application.yml"], 256);
    sources := sources + load(["application-test.yaml", "application-test.yml"], 316);
    assert AutoConf.YamlGroups[1..][1..][1..] == [];
  }
}
