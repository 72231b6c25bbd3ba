/**
 `java.util.Locale` as the converters build it. The one- to three-argument
 constructors record their arguments as given (the real constructors'
 case normalisation is not modelled), and `Locale.forLanguageTag` is opaque:
 a `Tag` records the string it was handed.
 */
module Locales {
  import opened Text

  datatype Locale =
    | Tag(tag: string)                                            // Locale.forLanguageTag(tag)
    | Seg1(language: string)                                      // new Locale(language)
    | Seg2(language: string, country: string)                     // new Locale(language, country)
    | Seg3(language: string, country: string, variant: string)   // new Locale(language, country, variant)

  /** The strings the locale was built from, in argument order. */
  function Segments(l: Locale): seq<string> {
    match l
    case Tag(t) => [t]
    case Seg1(a) => [a]
    case Seg2(a, b) => [a, b]
    case Seg3(a, b, c) => [a, b, c]
  }

  /** The constructor chosen by the number of segments: one gives the
      language only, two language and country, three all of them. */
  function FromSegments(elements: seq<string>): (l: Locale)
    requires 1 <= |elements| <= 3
    ensures !l.Tag?
    ensures Segments(l) == elements
  {
    if |elements| == 1 then Seg1(elements[0])
    else if |elements| == 2 then Seg2(elements[0], elements[1])
    else Seg3(elements[0], elements[1], elements[2])
  }

  /** The textual form a locale is read back from: the tag itself, or the
      segments joined with `_`. */
  function Format(l: Locale): string {
    if l.Tag? then l.tag else Join(Segments(l), '_')
  }

  /** Locales that some input string converts to exactly: trimmed segments,
      a tag containing `-`, no `-` and no inner `_` in the segmented forms
      (only the variant may hold `_`), and a non-empty language when it is
      the only segment. */
  predicate WellFormed(l: Locale) {
    match l
    case Tag(t) => '-' in t && IsTrimmed(t)
    case Seg1(a) => a != [] && IsTrimmed(a) && '_' !in a && '-' !in a
    case Seg2(a, b) =>
      IsTrimmed(a) && IsTrimmed(b) && '_' !in a && '_' !in b && '-' !in a && '-' !in b
    case Seg3(a, b, c) =>
      IsTrimmed(a) && IsTrimmed(b) && IsTrimmed(c) && '_' !in a && '_' !in b
      && '-' !in a && '-' !in b && '-' !in c
  }
}
