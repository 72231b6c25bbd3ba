/**
 `fink.config.spring.SmallRyeConfigAutoConf`: the `Locale` converter it
 registers, its YAML source provider's candidate groups, and
 `postProcessBeanFactory`, which adds the SmallRye property source to every
 Spring environment that lacks one.
 */
module AutoConf {
  import opened Wrappers
  import opened Text
  import opened Locales
  import opened SpringPropertySource

  // ---------------------------------------------------------------------
  // The Locale converter

  /** The converter registered for `Locale` at ordinal 101. Blank or null
      input gives null; input containing `-` is handed, trimmed (`trim()`
      then `strip()`), to `Locale.forLanguageTag`; anything else is split on
      `_` into at most three trimmed pieces, whose count picks the one-, two-
      or three-argument constructor. */
  function ConvertLocale(s: Option<string>): (r: Option<Locale>)
    ensures r.None? <==> s.None? || IsBlank(s.value)
    ensures r.Some? ==> (r.value.Tag? <==> '-' in s.value)
    ensures r.Some? ==> 1 <= |Segments(r.value)| <= 3
    ensures r.Some? ==> forall i :: 0 <= i < |Segments(r.value)| ==> IsTrimmed(Segments(r.value)[i])
  {
    if s.None? || IsBlank(s.value) then None
    else if IndexOf(s.value, '-') >= 0 then Some(Tag(Trim(Trim(s.value))))
    else Some(FromSegments(TrimResults(SplitLimit(s.value, '_', 3))))
  }

  /** A non-blank input containing `-` takes the language-tag path, even if
      it also contains `_`, and the tag is the input without surrounding
      whitespace. */
  lemma HyphenTakesTagPath(s: string)
    requires !IsBlank(s) && '-' in s
    ensures ConvertLocale(Some(s)) == Some(Tag(Trim(s)))
  {
    TrimIdempotent(s);
  }

  /** The underscore path: the segments are the trimmed pieces of the
      limit-3 split, whose untrimmed pieces join back to the input; the
      number of underscores picks the constructor (none: language only,
      one: language and country, two or more: all three, the variant
      keeping the rest). */
  lemma UnderscorePath(s: string)
    requires !IsBlank(s) && '-' !in s
    ensures ConvertLocale(Some(s)).Some?
    ensures Segments(ConvertLocale(Some(s)).value) == TrimResults(SplitLimit(s, '_', 3))
    ensures Join(SplitLimit(s, '_', 3), '_') == s
    ensures ConvertLocale(Some(s)).value.Seg1? <==> multiset(s)['_'] == 0
    ensures ConvertLocale(Some(s)).value.Seg2? <==> multiset(s)['_'] == 1
    ensures ConvertLocale(Some(s)).value.Seg3? <==> multiset(s)['_'] >= 2
  {
    SplitLimitCount(s, '_', 3);
  }

  /** No underscore: the whole trimmed input is the language. */
  lemma NoUnderscoreForm(s: string)
    requires !IsBlank(s) && '-' !in s && '_' !in s
    ensures ConvertLocale(Some(s)) == Some(Seg1(Trim(s)))
  {
    SplitLimitUnique(s, '_', 3, [s]);
  }

  /** One underscore, at `i`: language and country are the trimmed text on
      either side of it. */
  lemma OneUnderscoreForm(s: string, i: nat)
    requires !IsBlank(s) && '-' !in s
    requires i < |s| && s[i] == '_' && '_' !in s[..i] && '_' !in s[i + 1..]
    ensures ConvertLocale(Some(s)) == Some(Seg2(Trim(s[..i]), Trim(s[i + 1..])))
  {
    var p := [s[..i], s[i + 1..]];
    assert s == s[..i] + ['_'] + s[i + 1..];
    assert Join(p, '_') == s;
    SplitLimitUnique(s, '_', 3, p);
  }

  /** Underscores at `i` and `j`, the first two: language, country and
      variant are the trimmed text between them, the variant keeping every
      later underscore. */
  lemma TwoUnderscoreForm(s: string, i: nat, j: nat)
    requires !IsBlank(s) && '-' !in s
    requires i < j < |s| && s[i] == '_' && s[j] == '_'
    requires '_' !in s[..i] && '_' !in s[i + 1..j]
    ensures ConvertLocale(Some(s)) == Some(Seg3(Trim(s[..i]), Trim(s[i + 1..j]), Trim(s[j + 1..])))
  {
    var p := [s[..i], s[i + 1..j], s[j + 1..]];
    assert s[i + 1..] == s[i + 1..j] + ['_'] + s[j + 1..];
    assert s == s[..i] + ['_'] + s[i + 1..];
    assert Join(p[1..], '_') == s[i + 1..];
    assert Join(p, '_') == s;
    SplitLimitUnique(s, '_', 3, p);
  }

  /** Input whose pieces carry no surrounding whitespace is read back
      exactly by Format: `Format(convert(s)) == s` on both paths. */
  lemma FormatAfterConvert(s: string)
    requires !IsBlank(s)
    requires '-' in s ==> IsTrimmed(s)
    requires '-' !in s ==> forall k :: 0 <= k < |SplitLimit(s, '_', 3)| ==> IsTrimmed(SplitLimit(s, '_', 3)[k])
    ensures Format(ConvertLocale(Some(s)).value) == s
  {
    if '-' in s {
      HyphenTakesTagPath(s);
      TrimOfTrimmed(s);
    } else {
      var pieces := SplitLimit(s, '_', 3);
      forall k | 0 <= k < |pieces| ensures TrimResults(pieces)[k] == pieces[k] {
        TrimOfTrimmed(pieces[k]);
      }
      assert TrimResults(pieces) == pieces;
      UnderscorePath(s);
    }
  }

  /** Every locale the converter produces is well formed, so the
      precondition of `ConvertAfterFormat` is exactly the converter's image. */
  lemma ConvertedIsWellFormed(s: Option<string>)
    ensures ConvertLocale(s).Some? ==> WellFormed(ConvertLocale(s).value)
  {
    if s.Some? && !IsBlank(s.value) {
      var v := s.value;
      if '-' in v {
        HyphenTakesTagPath(v);
        TrimKeeps(v, '-');
      } else {
        var pieces := SplitLimit(v, '_', 3);
        UnderscorePath(v);
        JoinExcludes(pieces, '_', '-');
        forall k | 0 <= k < |pieces|
          ensures '-' !in Trim(pieces[k]) && ('_' !in pieces[k] ==> '_' !in Trim(pieces[k]))
        {
          TrimKeeps(pieces[k], '-');
          TrimKeeps(pieces[k], '_');
        }
        if |pieces| == 1 {
          assert pieces[0] == v;
        }
      }
    }
  }

  /** Round trip for two segments: `a_b` converts back to `Seg2(a, b)`. */
  lemma TwoSegmentRoundTrip(a: string, b: string)
    requires WellFormed(Seg2(a, b))
    ensures ConvertLocale(Some(Format(Seg2(a, b)))) == Some(Seg2(a, b))
  {
    var s := Format(Seg2(a, b));
    assert Segments(Seg2(a, b)) == [a, b] && [a, b][1..] == [b];
    assert Join([a, b], '_') == a + ['_'] + Join([b], '_');
    assert s == a + ['_'] + b;
    assert s[|a|] == '_' && s[..|a|] == a && s[|a| + 1..] == b;
    OneUnderscoreForm(s, |a|);
    TrimOfTrimmed(a);
    TrimOfTrimmed(b);
  }

  /** Round trip for three segments: `a_b_c` converts back to
      `Seg3(a, b, c)`, whatever underscores `c` holds. */
  lemma ThreeSegmentRoundTrip(a: string, b: string, c: string)
    requires WellFormed(Seg3(a, b, c))
    ensures ConvertLocale(Some(Format(Seg3(a, b, c)))) == Some(Seg3(a, b, c))
  {
    var s := Format(Seg3(a, b, c));
    assert Segments(Seg3(a, b, c)) == [a, b, c] && [a, b, c][1..] == [b, c] && [b, c][1..] == [c];
    assert Join([b, c], '_') == b + ['_'] + Join([c], '_');
    assert Join([a, b, c], '_') == a + ['_'] + Join([b, c], '_');
    assert s == a + ['_'] + (b + ['_'] + c);
    var i, j := |a|, |a| + 1 + |b|;
    assert s[i] == '_' && s[..i] == a;
    assert s[j] == '_' && s[i + 1..j] == b && s[j + 1..] == c;
    TwoUnderscoreForm(s, i, j);
    TrimOfTrimmed(a);
    TrimOfTrimmed(b);
    TrimOfTrimmed(c);
  }

  /** Every well-formed locale is what its textual form converts to:
      `convert(Format(l)) == l`. */
  lemma ConvertAfterFormat(l: Locale)
    requires WellFormed(l)
    ensures ConvertLocale(Some(Format(l))) == Some(l)
  {
    match l
    case Tag(t) =>
      assert '-' in t;
      HyphenTakesTagPath(t);
      TrimOfTrimmed(t);
    case Seg1(a) =>
      assert !IsWhitespace(a[0]);
      NoUnderscoreForm(a);
      TrimOfTrimmed(a);
    case Seg2(a, b) =>
      TwoSegmentRoundTrip(a, b);
    case Seg3(a, b, c) =>
      ThreeSegmentRoundTrip(a, b, c);
  }

  // ---------------------------------------------------------------------
  // The YAML source provider

  /** Alternative candidate files for one logical slot, loaded at one
      ordinal. */
  datatype CandidateGroup = CandidateGroup(paths: seq<string>, ordinal: int)

  /** The provider's groups, in the order `getConfigSources` loads them. */
  const YamlGroups: seq<CandidateGroup> := [
    CandidateGroup(["config/application.yaml", "config/application.yml"], 266),
    CandidateGroup(["application.yaml", "application.yml"], 256),
    CandidateGroup(["application-test.yaml", "application-test.yml"], 316)
  ]

  /** The sources loaded for each group, concatenated in group order;
      `load` stands for the library's `loadConfigSources(paths, ordinal, cl)`. */
  function LoadGroups<S>(load: (seq<string>, int) -> seq<S>, groups: seq<CandidateGroup>): seq<S> {
    if groups == [] then []
    else load(groups[0].paths, groups[0].ordinal) + LoadGroups(load, groups[1..])
  }

  /** The YAML provider's `getConfigSources`: an empty list extended with
      the sources of each candidate group in turn. */
  method GetConfigSources<S>(load: (seq<string>, int) -> seq<S>) returns (sources: seq<S>)
    ensures sources == LoadGroups(load, YamlGroups)
  {
    sources := [];
    sources := sources + load(["config/application.yaml", "config/application.yml"], 266);
    sources := sources + load(["application.yaml", "application.yml"], 256);
    sources := sources + load(["application-test.yaml", "application-test.yml"], 316);
    assert YamlGroups[1..][1..][1..] == [];
  }

  /** `paths` is one stem with `.yaml`, then the same stem with `.yml`. */
  predicate YamlThenYml(paths: seq<string>) {
    |paths| == 2 && |paths[1]| >= 4 && paths[1][|paths[1]| - 4..] == ".yml"
    && paths[0] == paths[1][..|paths[1]| - 4] + ".yaml"
  }

  /** The groups are the deployment-directory file at 266, the packaged
      file at 256 and the test override at 316, each listing `.yaml`
      before `.yml`; so the test override outranks both others and the
      deployment directory outranks the packaged default. */
  lemma YamlGroupBands()
    ensures |YamlGroups| == 3
    ensures YamlGroups[0].ordinal == 266 && YamlGroups[1].ordinal == 256 && YamlGroups[2].ordinal == 316
    ensures YamlGroups[2].ordinal > YamlGroups[0].ordinal > YamlGroups[1].ordinal
    ensures forall k :: 0 <= k < |YamlGroups| ==> YamlThenYml(YamlGroups[k].paths)
  {
    assert YamlThenYml(YamlGroups[0].paths);
    assert YamlThenYml(YamlGroups[1].paths);
    assert YamlThenYml(YamlGroups[2].paths);
  }

  // ---------------------------------------------------------------------
  // Registration of the adapter in the Spring environments

  /** An entry of an environment's `MutablePropertySources`: the SmallRye
      adapter, or any other Spring property source, known by its name. */
  datatype PropertySource =
    | Other(sourceName: string)
    | SmallRye(adapter: SpringSmallRyeConfigPropertySource)
  {
    function Name(): string {
      match this
      case Other(n) => n
      case SmallRye(a) => a.Name()
    }
  }

  /** The names of the sources, in precedence order. */
  function Names(sources: seq<PropertySource>): seq<string> {
    seq(|sources|, i requires 0 <= i < |sources| => sources[i].Name())
  }

  /** The property sources of one environment after registration: left
      alone when a source named "SmallRyeConfig" is there, otherwise the
      adapter is appended at the lowest precedence. */
  function Registered(sources: seq<PropertySource>, adapter: SpringSmallRyeConfigPropertySource): (r: seq<PropertySource>)
    ensures NAME in Names(r)
    ensures |r| == if NAME in Names(sources) then |sources| else |sources| + 1
    ensures r[..|sources|] == sources
    ensures |r| > |sources| ==> r[|sources|] == SmallRye(adapter)
  {
    if NAME in Names(sources) then sources
    else
      var r := sources + [SmallRye(adapter)];
      assert Names(r)[|sources|] == NAME;
      r
  }

  /** Registering twice gives what registering once gives. */
  lemma RegisteredIdempotent(sources: seq<PropertySource>, adapter: SpringSmallRyeConfigPropertySource)
    ensures Registered(Registered(sources, adapter), adapter) == Registered(sources, adapter)
  {
  }

  /** A Spring `ConfigurableEnvironment`, reduced to its ordered list of
      property sources (highest precedence first). */
  class ConfigurableEnvironment {
    var propertySources: seq<PropertySource>

    constructor (initial: seq<PropertySource>)
      ensures propertySources == initial
    {
      propertySources := initial;
    }

    /** `getPropertySources().contains(name)`: some source has that name. */
    predicate Contains(name: string): (b: bool)
      reads this
      ensures b <==> exists k :: 0 <= k < |propertySources| && propertySources[k].Name() == name
    {
      var names := Names(propertySources);
      assert forall k :: 0 <= k < |names| ==> names[k] == propertySources[k].Name();
      name in names
    }

    /** `getPropertySources().addLast(p)`: `p` becomes the lowest-precedence
        source. */
    method AddLast(p: PropertySource)
      modifies this
      ensures propertySources == old(propertySources) + [p]
    {
      propertySources := propertySources + [p];
    }
  }

  /** `postProcessBeanFactory`: one adapter over `config` is added last to
      each environment that has no source named "SmallRyeConfig". `envs`
      stands for the environments found in the bean factory; one
      environment may occur more than once. */
  method PostProcessBeanFactory(config: Config, envs: seq<ConfigurableEnvironment>)
    modifies set e | e in envs
    ensures forall e :: e in envs ==>
      e.propertySources == Registered(old(e.propertySources), SpringSmallRyeConfigPropertySource(config))
  {
    var ps := SpringSmallRyeConfigPropertySource(config);
    var i := 0;
    while i < |envs|
      invariant 0 <= i <= |envs|
      invariant forall e :: e in envs[..i] ==> e.propertySources == Registered(old(e.propertySources), ps)
      invariant forall e :: e in envs && e !in envs[..i] ==> e.propertySources == old(e.propertySources)
    {
      var env := envs[i];
      if !env.Contains(NAME) {
        env.AddLast(SmallRye(ps));
      }
      assert envs[..i + 1] == envs[..i] + [env];
      i := i + 1;
    }
  }

  /** After registration every environment has a "SmallRyeConfig" source;
      one that had it keeps its sources unchanged; one that lacked it keeps
      its sources in order with the adapter last. */
  lemma RegistrationOutcome(sources: seq<PropertySource>, adapter: SpringSmallRyeConfigPropertySource)
    ensures NAME in Names(Registered(sources, adapter))
    ensures NAME in Names(sources) ==> Registered(sources, adapter) == sources
    ensures NAME !in Names(sources) ==> Registered(sources, adapter) == sources + [SmallRye(adapter)]
  {
    var r := Registered(sources, adapter);
    if NAME !in Names(sources) {
      assert r == r[..|sources|] + [r[|sources|]];
    }
  }
}
