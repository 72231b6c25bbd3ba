# SmallRyeConfig for Spring: a Dafny model of the glue logic

The repository connects the SmallRye Config library to Spring. It builds one
process-wide SmallRye configuration, registers extra converters and source
providers on it, and exposes it to Spring as a property source named
"SmallRyeConfig". The resolution engine itself is library code. This project
models the four pieces of logic the repository writes itself:

- **The `Locale` converter**, registered at ordinal 101. Null or blank input
  gives null. Input containing `-` goes, trimmed, to `Locale.forLanguageTag`.
  Other input is split on `_` into at most three trimmed segments, and the
  number of segments picks the one-, two- or three-argument `Locale`
  constructor. It is written twice, once in the library class and once in the
  demo application, and both copies are modelled.
- **The YAML source provider's `getConfigSources`**. It concatenates the
  sources loaded for three candidate groups, each at a fixed ordinal:
  `config/application.{yaml,yml}` at 266, `application.{yaml,yml}` at 256 and
  `application-test.{yaml,yml}` at 316.
- **`postProcessBeanFactory`**. It appends one adapter, at the lowest
  precedence, to every Spring environment that has no property source named
  "SmallRyeConfig" yet.
- **`SpringSmallRyeConfigPropertySource`**, the read-only adapter. It covers
  `getProperty`, `containsProperty` and `getPropertyNames`.

Files:

- `wrappers.dfy`: `Option`, which stands for Java's nullable references.
- `text.dfy`: the string operations the converter uses: `isBlank`, `trim`,
  `indexOf`, and Guava's `Splitter.on(c).limit(n).trimResults()` along with
  its inverse, joining.
- `locales.dfy`: `Locale` as a datatype.
- `spring_property_source.dfy`: the adapter.
- `autoconf.dfy`: the library's auto-configuration class.
- `demo_autoconf.dfy`: the demo application's copy.

Inputs that stand in for what the model cannot see:

- `loadConfigSources(paths, ordinal, cl)` is a function parameter `load`.
  Its file and classpath search is library I/O.
- The bean factory's environments are a given sequence of
  `ConfigurableEnvironment` objects.
- The SmallRye `Config` is a value. It holds a map from key to optional value
  (a key outside the map means `getConfigValue` returned null) and the
  sequence of property names.

## Model

| member | source | states |
|---|---|---|
| `Text.Trim` | src/main/java/fink/config/spring/SmallRyeConfigAutoConf.java:85 | the shape of the trim: no whitespace at either end, no longer than the input, and empty exactly when the input is blank (its value is stated by `Text.TrimUnique`) |
| `Text.TrimStart` | src/main/java/fink/config/spring/SmallRyeConfigAutoConf.java:85 | the result is a suffix of the input; everything dropped is whitespace; the result does not start with whitespace |
| `Text.TrimEnd` | src/main/java/fink/config/spring/SmallRyeConfigAutoConf.java:85 | the result is a prefix of the input; everything dropped is whitespace; the result does not end with whitespace |
| `Text.IsBlank` | src/main/java/fink/config/spring/SmallRyeConfigAutoConf.java:82 | `isBlank()`: by definition, every character is whitespace, which includes the empty string |
| `Text.TrimStartUnique` | src/main/java/fink/config/spring/SmallRyeConfigAutoConf.java:85 | leading whitespace in front of a piece that does not start with whitespace is exactly what the leading trim removes |
| `Text.TrimEndUnique` | src/main/java/fink/config/spring/SmallRyeConfigAutoConf.java:85 | trailing whitespace after a piece that does not end with whitespace is exactly what the trailing trim removes |
| `Text.TrimUnique` | src/main/java/fink/config/spring/SmallRyeConfigAutoConf.java:85 | the value of `trim()`: whitespace, then a piece with no whitespace at either end, then whitespace, trims to exactly that piece; every string splits that way |
| `Text.TrimOfTrimmed` | src/main/java/fink/config/spring/SmallRyeConfigAutoConf.java:85 | a string with no whitespace at either end is its own trim |
| `Text.TrimIdempotent` | src/main/java/fink/config/spring/SmallRyeConfigAutoConf.java:85 | `trim()` followed by `strip()` equals trimming once |
| `Text.TrimStartKeeps` | src/main/java/fink/config/spring/SmallRyeConfigAutoConf.java:85 | the leading trim keeps only characters of the input, and every non-whitespace one |
| `Text.TrimEndKeeps` | src/main/java/fink/config/spring/SmallRyeConfigAutoConf.java:85 | the trailing trim keeps only characters of the input, and every non-whitespace one |
| `Text.TrimKeeps` | src/main/java/fink/config/spring/SmallRyeConfigAutoConf.java:85 | trimming removes whitespace only: a character of the trim occurs in the input, and every non-whitespace character of the input is in the trim |
| `Text.IndexOf` | src/main/java/fink/config/spring/SmallRyeConfigAutoConf.java:84 | returns -1 exactly when the character is absent; otherwise a position holding it with no earlier occurrence |
| `Text.IndexOfAfterPrefix` | src/main/java/fink/config/spring/SmallRyeConfigAutoConf.java:87 | after a prefix free of the separator, the first separator is found at the prefix's length |
| `Text.JoinExcludes` | src/main/java/fink/config/spring/SmallRyeConfigAutoConf.java:87 | a character absent from the joined string is absent from every piece |
| `Text.SplitLimit` | src/main/java/fink/config/spring/SmallRyeConfigAutoConf.java:87 | between 1 and `limit` pieces; the pieces joined with the separator give back the input; every piece but the last is separator-free, and the last one is too unless the limit was reached |
| `Text.SplitLimitCount` | src/main/java/fink/config/spring/SmallRyeConfigAutoConf.java:87 | the number of pieces is the number of separators plus one, capped at the limit |
| `Text.SplitLimitStep` | src/main/java/fink/config/spring/SmallRyeConfigAutoConf.java:87 | when the input is a separator-free prefix, a separator and a rest, the first piece is that prefix and the other pieces are the split of the rest |
| `Text.SplitShapeTail` | src/main/java/fink/config/spring/SmallRyeConfigAutoConf.java:87 | removing the first piece of a split-shaped sequence leaves a split-shaped sequence for one fewer piece |
| `Text.SplitLimitSingle` | src/main/java/fink/config/spring/SmallRyeConfigAutoConf.java:87 | a one-piece sequence of split shape that joins to the input is its split |
| `Text.SplitLimitCons` | src/main/java/fink/config/spring/SmallRyeConfigAutoConf.java:87 | a separator-free first piece followed by the split of the rest is the split of the whole |
| `Text.SplitLimitUnique` | src/main/java/fink/config/spring/SmallRyeConfigAutoConf.java:87 | the split is determined uniquely: any sequence that has the split's shape and joins back to the input equals the split |
| `Text.TrimResults` | src/main/java/fink/config/spring/SmallRyeConfigAutoConf.java:87 | `trimResults()` keeps the number of pieces, and each result is the trim of the piece at the same position, so it has no surrounding whitespace and is no longer |
| `Locales.FromSegments` | src/main/java/fink/config/spring/SmallRyeConfigAutoConf.java:88-90 | one, two or three elements select the matching constructor, which records exactly those elements |
| `AutoConf.ConvertLocale` | src/main/java/fink/config/spring/SmallRyeConfigAutoConf.java:81-92 | null exactly for null or blank input; the tag path exactly when the input contains `-`; otherwise 1 to 3 segments, each without surrounding whitespace |
| `AutoConf.HyphenTakesTagPath` | src/main/java/fink/config/spring/SmallRyeConfigAutoConf.java:84-85 | non-blank input containing `-` (even with `_`) gives `Tag` of the input with surrounding whitespace removed |
| `AutoConf.UnderscorePath` | src/main/java/fink/config/spring/SmallRyeConfigAutoConf.java:86-91 | the segments are the trimmed pieces of the limit-3 split; the untrimmed pieces join back to the input; no `_` gives language only, one `_` gives language and country, two or more give all three |
| `AutoConf.NoUnderscoreForm` | src/main/java/fink/config/spring/SmallRyeConfigAutoConf.java:87-88 | without `_` the result is `Seg1` of the trimmed input |
| `AutoConf.OneUnderscoreForm` | src/main/java/fink/config/spring/SmallRyeConfigAutoConf.java:87-89 | with exactly one `_`, the language and country are the trimmed text on either side of it |
| `AutoConf.TwoUnderscoreForm` | src/main/java/fink/config/spring/SmallRyeConfigAutoConf.java:87-90 | with first underscores at `i` < `j`, the variant is the trimmed remainder after `j`, further underscores included |
| `AutoConf.FormatAfterConvert` | src/main/java/fink/config/spring/SmallRyeConfigAutoConf.java:81-92 | round trip: for input whose pieces carry no surrounding whitespace, formatting the converted locale gives back the input, on both the hyphen and the underscore path |
| `AutoConf.ConvertedIsWellFormed` | src/main/java/fink/config/spring/SmallRyeConfigAutoConf.java:81-92 | every locale the converter returns is well formed: a trimmed tag holding `-`, or trimmed segments without `-` in which only the variant may hold `_` and a lone language is not empty |
| `AutoConf.TwoSegmentRoundTrip` | src/main/java/fink/config/spring/SmallRyeConfigAutoConf.java:87-89 | a well-formed language and country, joined with `_`, convert back to the same two-argument locale |
| `AutoConf.ThreeSegmentRoundTrip` | src/main/java/fink/config/spring/SmallRyeConfigAutoConf.java:87-90 | a well-formed language, country and variant, joined with `_`, convert back to the same three-argument locale, also when the variant itself holds `_` |
| `AutoConf.ConvertAfterFormat` | src/main/java/fink/config/spring/SmallRyeConfigAutoConf.java:81-92 | round trip: every well-formed locale is what its formatted string converts to; with `AutoConf.ConvertedIsWellFormed`, the well-formed locales are exactly the converter's results |
| `AutoConf.GetConfigSources` | src/main/java/fink/config/spring/SmallRyeConfigAutoConf.java:66-72 | the result is the sources loaded for the three candidate groups, concatenated in the table's order with each group's ordinal |
| `AutoConf.YamlGroupBands` | src/main/java/fink/config/spring/SmallRyeConfigAutoConf.java:68-70 | the groups are at ordinals 266, 256 and 316 in that order, so the test override outranks the others; each group lists `.yaml` before `.yml` of the same stem |
| `AutoConf.Registered` | src/main/java/fink/config/spring/SmallRyeConfigAutoConf.java:130-136 | afterwards the environment has a source named "SmallRyeConfig"; nothing is added if one was already there, and one source otherwise; the old sources keep their order as a prefix; any added source is the adapter, placed last |
| `AutoConf.RegisteredIdempotent` | src/main/java/fink/config/spring/SmallRyeConfigAutoConf.java:130-136 | registering twice gives the same sources as registering once |
| `AutoConf.RegistrationOutcome` | src/main/java/fink/config/spring/SmallRyeConfigAutoConf.java:131-133 | an environment that already had the name is unchanged; otherwise its sources are the old ones followed by the adapter |
| `AutoConf.ConfigurableEnvironment.Contains` | src/main/java/fink/config/spring/SmallRyeConfigAutoConf.java:131 | `getPropertySources().contains(NAME)` holds exactly when some source in the environment has that name |
| `AutoConf.ConfigurableEnvironment.AddLast` | src/main/java/fink/config/spring/SmallRyeConfigAutoConf.java:132-133 | the source is appended at the lowest precedence; the earlier sources are unchanged |
| `AutoConf.PostProcessBeanFactory` | src/main/java/fink/config/spring/SmallRyeConfigAutoConf.java:126-137 | every environment in the sequence ends with the registration of its initial sources, even when it occurs more than once; nothing else is modified |
| `SpringPropertySource.SpringSmallRyeConfigPropertySource.GetProperty` | src/main/java/fink/config/spring/SpringSmallRyeConfigPropertySource.java:30-39 | a null key gives null without reading the config; a key without a config value gives null; otherwise the config value's string, null when that is null |
| `SpringPropertySource.SpringSmallRyeConfigPropertySource.ContainsProperty` | src/main/java/fink/config/spring/SpringSmallRyeConfigPropertySource.java:42-44 | true exactly when the key is non-null and the config holds a non-null value for it |
| `SpringPropertySource.ContainsIffGetProperty` | src/main/java/fink/config/spring/SpringSmallRyeConfigPropertySource.java:42-44 | `containsProperty(k)` holds exactly when `getProperty(k)` is non-null; never for the null key |
| `SpringPropertySource.SpringSmallRyeConfigPropertySource.GetPropertyNames` | src/main/java/fink/config/spring/SpringSmallRyeConfigPropertySource.java:47-49 | a new array holding exactly the config's property names, in iteration order |
| `SpringPropertySource.AdapterName` | src/main/java/fink/config/spring/SpringSmallRyeConfigPropertySource.java:20-24 | every adapter instance is named "SmallRyeConfig", the name the registration looks for |
| `DemoAutoConf.ConvertLocale` | src/main/java/fink/demo/smallryeconfigspringboot/SmallRyeConfigAutoConf.java:66-77 | the demo's converter: null exactly for null or blank input; the tag path exactly when the input holds `-`; otherwise one to three segments, none with surrounding whitespace |
| `DemoAutoConf.SameConverterAsLibrary` | src/main/java/fink/demo/smallryeconfigspringboot/SmallRyeConfigAutoConf.java:66-77 | the demo's converter returns the same as the library's on every input |
| `DemoAutoConf.DemoConverterCases` | src/main/java/fink/demo/smallryeconfigspringboot/SmallRyeConfigAutoConf.java:67-75 | null exactly for null or blank input; `-` gives `Tag` of the trimmed input; otherwise the constructor takes one more segment than there are underscores, at most three |
| `DemoAutoConf.GetConfigSources` | src/main/java/fink/demo/smallryeconfigspringboot/SmallRyeConfigAutoConf.java:51-57 | same groups, order and ordinals (266, 256, 316) as the library's provider |

## Left out

- Text.Trim: its own ensures give only the shape of the result. Which piece of the input the result is gets stated by the lemma `Text.TrimUnique`, because stating it as a postcondition makes every proof that mentions `Trim` much more expensive.
- Text.IsWhitespace: one predicate, the six ASCII whitespace characters, stands for the four whitespace classes of `isBlank`, `trim`, `strip` and Guava's `trimResults()`. They agree on those six characters. They differ on control characters below U+0020 (`trim` only), U+001C to U+001F (`isBlank` and `strip`), and on Unicode spaces such as U+00A0 and U+2000 to U+200A. Because of this, `trim().strip()` is modelled as trimming once.
- Locales.Locale: `Locale.forLanguageTag` is opaque. `Tag` records the string it receives. The Java constructors' case normalisation of language and country is not modelled.
- Guava's `splitToList` is modelled by its value. Its leading-whitespace scan on the last piece stops at the next separator, but that gives the same result as trimming the whole remainder, because `_` is not whitespace.
- `loadConfigSources`, and the classpath search behind it: a function parameter. Which candidate of a group is loaded is library behaviour.
- `MutablePropertySources` is folded into `ConfigurableEnvironment`. The model does not capture two environments sharing one property-source list. Spring's `addLast` also removes an existing source of the same name first; the guard at line 131 makes that a plain append, so the model appends.
- The SmallRye builder and resolution engine. This covers ordinal sorting, expression expansion, secret handlers, discovered sources, converters, interceptors and customizers, `build()`, and the `smallRyeConfig()` builder chain in the demo class. All of it is library code.
- The other converters (`SimpleDateFormat::new`, `DateTimeFormatter::ofPattern`, `Charset::forName`, `Object::toString`): foreign calls.
- The dotenv and properties source providers: their parsing is library code.
- The bean-validation probe (lines 97-104): it is reflection, a try-catch and logging.
- Lifecycle plumbing: the static initialiser, `smallRyeConfig()` returning the singleton, `getClassLoader` (thread context class loader), `getOrder` returning the highest precedence, and the `BeanFactoryUtils` lookup of environments.
- `BasicController` and `ExampleApplication` (the web endpoint and Spring bootstrap) and all logging.
