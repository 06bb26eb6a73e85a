/**
  Resolution of a localized string (a module's name or description) for the
  active language, falling back to English.
 */
module Locale {

  /** The fallback language every stored name and description must carry. */
  const Default := "en"

  /** A map from language code to text, as stored for names and descriptions. */
  type Localized = map<string, string>

  /** The text shown for `m` under language `lang`: the entry for `lang` when
      one is set, otherwise the English entry. */
  function Resolve(m: Localized, lang: string): (r: string)
    requires Default in m
    ensures r in m.Values
    ensures lang in m ==> r == m[lang]
    ensures lang !in m ==> r == m[Default]
  {
    if lang !in m then m[Default] else m[lang]
  }

  /** Only the entries for `lang` and for English decide the result: two maps
      that agree on those two keys resolve to the same text. */
  lemma ResolveDependsOnTwoKeys(m1: Localized, m2: Localized, lang: string)
    requires Default in m1 && Default in m2 && m1[Default] == m2[Default]
    requires (lang in m1) == (lang in m2)
    requires lang in m1 ==> m1[lang] == m2[lang]
    ensures Resolve(m1, lang) == Resolve(m2, lang)
  {
  }

  /** When no entry is empty, the resolved text is never empty. */
  lemma ResolveNonEmpty(m: Localized, lang: string)
    requires Default in m
    requires forall k :: k in m ==> m[k] != ""
    ensures Resolve(m, lang) != ""
  {
  }
}
