/**
 * The Spanish/English text-switching layer of the portfolio page
 * (script.js:620-886): an immutable translation table, the page's tagged
 * elements, the persisted language preference and the switcher button.
 */
module I18n {
  import opened Wrappers

  /** Language code -> (dotted key -> text). Immutable once the page is loaded. */
  type Table = map<string, map<string, string>>

  /** The fixed key under which the language preference is persisted. */
  const StorageKey: string := "lang"

  /** The fallback language used when nothing (or an empty string) is stored. */
  const DefaultLang: string := "es"

  /**
   * A document element as seen by the text pass and the placeholder pass.
   * `textKey` is its `data-i18n` attribute, `placeholderKey` its
   * `data-i18n-placeholder` attribute; either may be absent.
   */
  datatype Element = Element(
    textKey: Option<string>,
    placeholderKey: Option<string>,
    text: string,
    placeholder: string)

  /** The flag glyph and the code text shown on the switcher button. */
  datatype Indicator = Indicator(flag: string, code: string)

  const SpainFlag: string := "\U{1F1EA}\U{1F1F8}"
  const BritainFlag: string := "\U{1F1EC}\U{1F1E7}"

  /**
   * `translations[lang] && translations[lang][key]`: the lookup succeeds
   * exactly when the language is present, the key is present and its text
   * is truthy, that is, non-empty.
   */
  function Lookup(table: Table, lang: string, key: string): (r: Option<string>)
    ensures r.Some? <==> lang in table && key in table[lang] && table[lang][key] != ""
    ensures r.Some? ==> r.value == table[lang][key] && r.value != ""
  {
    if lang in table && key in table[lang] && table[lang][key] != "" then Some(table[lang][key]) else None
  }

  /** One element of the text pass: overwrite the text when the lookup succeeds. */
  function TextStep(table: Table, lang: string, e: Element): Element
  {
    match e.textKey
    case None => e
    case Some(key) =>
      match Lookup(table, lang, key)
      case Some(t) => e.(text := t)
      case None => e
  }

  /** One element of the placeholder pass: overwrite the placeholder when the lookup succeeds. */
  function PlaceholderStep(table: Table, lang: string, e: Element): Element
  {
    match e.placeholderKey
    case None => e
    case Some(key) =>
      match Lookup(table, lang, key)
      case Some(t) => e.(placeholder := t)
      case None => e
  }

  function TextPass(table: Table, lang: string, es: seq<Element>): seq<Element>
  {
    seq(|es|, i requires 0 <= i < |es| => TextStep(table, lang, es[i]))
  }

  function PlaceholderPass(table: Table, lang: string, es: seq<Element>): seq<Element>
  {
    seq(|es|, i requires 0 <= i < |es| => PlaceholderStep(table, lang, es[i]))
  }

  /**
   * The elements after `applyLanguage(lang)`: the text pass, then the
   * placeholder pass. Lookup-or-keep: every element keeps its keys; its text
   * becomes `table[lang][key]` exactly when that entry exists and is
   * non-empty and is unchanged otherwise (also when it has no `data-i18n`);
   * the placeholder follows the same rule on its own key.
   */
  function Applied(table: Table, lang: string, es: seq<Element>): (r: seq<Element>)
    ensures |r| == |es|
    ensures forall i :: 0 <= i < |es| ==>
      && r[i].textKey == es[i].textKey
      && r[i].placeholderKey == es[i].placeholderKey
      && r[i].text == (if es[i].textKey.Some? && lang in table && es[i].textKey.value in table[lang]
                          && table[lang][es[i].textKey.value] != ""
                       then table[lang][es[i].textKey.value] else es[i].text)
      && r[i].placeholder == (if es[i].placeholderKey.Some? && lang in table
                                 && es[i].placeholderKey.value in table[lang]
                                 && table[lang][es[i].placeholderKey.value] != ""
                              then table[lang][es[i].placeholderKey.value] else es[i].placeholder)
  {
    PlaceholderPass(table, lang, TextPass(table, lang, es))
  }

  /** The text pass never touches a placeholder; the placeholder pass never touches a text. */
  lemma PassesAreSeparate(table: Table, lang: string, es: seq<Element>, i: nat)
    requires i < |es|
    ensures TextPass(table, lang, es)[i].placeholder == es[i].placeholder
    ensures PlaceholderPass(table, lang, es)[i].text == es[i].text
  {
  }

  /** Applying the same language twice is the same as applying it once. */
  lemma AppliedIdempotent(table: Table, lang: string, es: seq<Element>)
    ensures Applied(table, lang, Applied(table, lang, es)) == Applied(table, lang, es)
  {
    var once := Applied(table, lang, es);
    var twice := Applied(table, lang, once);
    forall i | 0 <= i < |es|
      ensures twice[i] == once[i]
    {
    }
  }

  /**
   * Every key that has a (non-empty) entry for language `from` also has one
   * for language `to`. The table in script.js is a literal with no such
   * check; both directions between "es" and "en" make it complete.
   */
  ghost predicate Covers(table: Table, from: string, to: string)
  {
    forall key :: Lookup(table, from, key).Some? ==> Lookup(table, to, key).Some?
  }

  /** When `to` covers `from`, a pass in `to` erases every trace of an earlier pass in `from`. */
  lemma LaterLanguageWins(table: Table, from: string, to: string, es: seq<Element>)
    requires Covers(table, from, to)
    ensures Applied(table, to, Applied(table, from, es)) == Applied(table, to, es)
  {
    var mid := Applied(table, from, es);
    var lhs := Applied(table, to, mid);
    var rhs := Applied(table, to, es);
    forall i | 0 <= i < |es|
      ensures lhs[i] == rhs[i]
    {
      if es[i].textKey.Some? {
        var k := es[i].textKey.value;
        if Lookup(table, from, k).Some? { assert Lookup(table, to, k).Some?; }
      }
      if es[i].placeholderKey.Some? {
        var k := es[i].placeholderKey.value;
        if Lookup(table, from, k).Some? { assert Lookup(table, to, k).Some?; }
      }
    }
  }

  /** `currentLang === 'es' ? 'en' : 'es'` */
  function Toggle(lang: string): (r: string)
    ensures r == "es" || r == "en"
    ensures r == "en" <==> lang == "es"
  {
    if lang == "es" then "en" else "es"
  }

  /** Two clicks from either supported language restore it; from any other value they lead to "en". */
  lemma ToggleTwice(lang: string)
    ensures lang == "es" || lang == "en" ==> Toggle(Toggle(lang)) == lang
    ensures lang != "es" && lang != "en" ==> Toggle(Toggle(lang)) == "en"
  {
  }

  /** `localStorage.getItem('lang') || 'es'`: any non-empty stored string is taken as it is. */
  function InitialLang(stored: Option<string>): (r: string)
    ensures stored.Some? && stored.value != "" ==> r == stored.value
    ensures stored.None? || stored.value == "" ==> r == DefaultLang
    ensures r != ""
  {
    if stored.Some? && stored.value != "" then stored.value else DefaultLang
  }

  /** What a click persists is what the next page load starts from. */
  lemma ReloadAfterClick(lang: string)
    ensures InitialLang(Some(Toggle(lang))) == Toggle(lang)
  {
  }

  /** `updateLangButton`: the Spanish flag and "ES" exactly for "es", the British flag and "EN" otherwise. */
  function LangButton(lang: string): (r: Indicator)
    ensures r.code == "ES" <==> lang == "es"
    ensures r.code == "EN" <==> lang != "es"
    ensures r.flag == SpainFlag <==> lang == "es"
    ensures lang != "es" ==> r.flag == BritainFlag
  {
    if lang == "es" then Indicator(SpainFlag, "ES") else Indicator(BritainFlag, "EN")
  }

  /**
   * With a complete table, two clicks return every element to what it
   * showed before them, once the page has been rendered in `lang`.
   */
  lemma DoubleToggleRestoresText(table: Table, lang: string, es: seq<Element>)
    requires lang == "es" || lang == "en"
    requires Covers(table, "es", "en") && Covers(table, "en", "es")
    ensures Applied(table, Toggle(Toggle(lang)), Applied(table, Toggle(lang), Applied(table, lang, es)))
            == Applied(table, lang, es)
  {
    var shown := Applied(table, lang, es);
    LaterLanguageWins(table, Toggle(lang), lang, shown);
    AppliedIdempotent(table, lang, es);
  }

  /**
   * Without completeness the round trip fails: a key translated only in
   * English keeps the English text after switching back to Spanish.
   */
  lemma DoubleToggleNeedsCompleteTable()
    ensures var table: Table := map["es" := map[], "en" := map["k" := "Hi"]];
            var es := [Element(Some("k"), None, "Hola", "")];
            Applied(table, "es", Applied(table, "en", Applied(table, "es", es)))[0].text == "Hi"
            && Applied(table, "es", es)[0].text == "Hola"
  {
  }

  /** A sample of the page's table (script.js:623, 726, 712, 815). */
  const SampleTable: Table := map[
    "es" := map["nav.home" := "Inicio", "contact.form.namePlaceholder" := "Tu nombre"],
    "en" := map["nav.home" := "Home", "contact.form.namePlaceholder" := "Your name"]]

  lemma SampleSwitchToEnglish()
    ensures var es := [Element(Some("nav.home"), None, "Inicio", ""),
                       Element(None, Some("contact.form.namePlaceholder"), "", "Tu nombre")];
            Applied(SampleTable, "en", es)
              == [Element(Some("nav.home"), None, "Home", ""),
                  Element(None, Some("contact.form.namePlaceholder"), "", "Your name")]
    ensures Covers(SampleTable, "es", "en") && Covers(SampleTable, "en", "es")
  {
    var es := [Element(Some("nav.home"), None, "Inicio", ""),
               Element(None, Some("contact.form.namePlaceholder"), "", "Tu nombre")];
    assert Applied(SampleTable, "en", es)[0].text == "Home";
    assert Applied(SampleTable, "en", es)[1].placeholder == "Your name";
  }

  /**
   * The page state the language layer reads and writes: the global
   * `currentLang`, the persisted preference, the tagged elements, the
   * document's `lang` attribute and the switcher's indicator.
   */
  class LanguageSwitcher {
    const table: Table
    var currentLang: string
    var stored: Option<string>
    var elements: seq<Element>
    var documentLang: string
    var indicator: Indicator
    /** True once the click listener is registered (the switcher button exists). */
    var listening: bool

    /**
     * User-visible state agrees with `currentLang`: the indicator and the
     * document language show it, and rendering it again changes no element,
     * so every element whose key has a non-empty entry in it shows that
     * entry (the others keep their text).
     */
    ghost predicate Synced()
      reads this
    {
      && indicator == LangButton(currentLang)
      && documentLang == currentLang
      && Applied(table, currentLang, elements) == elements
    }

    /** Script evaluation: `currentLang` is read from storage; the markup is as authored. */
    constructor Load(table: Table, stored: Option<string>, markup: seq<Element>, htmlLang: string, button: Indicator)
      ensures this.table == table && this.stored == stored
      ensures currentLang == InitialLang(stored)
      ensures elements == markup && documentLang == htmlLang && indicator == button
      ensures !listening
    {
      this.table := table;
      this.stored := stored;
      currentLang := InitialLang(stored);
      elements := markup;
      documentLang := htmlLang;
      indicator := button;
      listening := false;
    }

    /** `applyLanguage(lang)`: two in-place passes, then the document language (set even for an unknown `lang`). */
    method ApplyLanguage(lang: string)
      modifies this
      ensures elements == Applied(table, lang, old(elements))
      ensures documentLang == lang
      ensures currentLang == old(currentLang) && stored == old(stored)
      ensures indicator == old(indicator) && listening == old(listening)
    {
      ghost var original := elements;
      var i := 0;
      while i < |elements|
        invariant 0 <= i <= |elements| == |original|
        invariant forall k :: 0 <= k < i ==> elements[k] == TextStep(table, lang, original[k])
        invariant forall k :: i <= k < |elements| ==> elements[k] == original[k]
        invariant currentLang == old(currentLang) && stored == old(stored)
        invariant indicator == old(indicator) && listening == old(listening)
        invariant documentLang == old(documentLang)
      {
        var e := elements[i];
        if e.textKey.Some? {
          var t := Lookup(table, lang, e.textKey.value);
          if t.Some? {
            elements := elements[i := e.(text := t.value)];
          }
        }
        i := i + 1;
      }
      ghost var afterText := elements;
      assert afterText == TextPass(table, lang, original);
      i := 0;
      while i < |elements|
        invariant 0 <= i <= |elements| == |afterText|
        invariant forall k :: 0 <= k < i ==> elements[k] == PlaceholderStep(table, lang, afterText[k])
        invariant forall k :: i <= k < |elements| ==> elements[k] == afterText[k]
        invariant currentLang == old(currentLang) && stored == old(stored)
        invariant indicator == old(indicator) && listening == old(listening)
        invariant documentLang == old(documentLang)
      {
        var e := elements[i];
        if e.placeholderKey.Some? {
          var t := Lookup(table, lang, e.placeholderKey.value);
          if t.Some? {
            elements := elements[i := e.(placeholder := t.value)];
          }
        }
        i := i + 1;
      }
      documentLang := lang;
    }

    /**
     * `initLanguageSwitcher`: without the switcher button nothing happens;
     * otherwise the current language is rendered and the click listener registered.
     */
    method Init(switcherPresent: bool)
      modifies this
      ensures currentLang == old(currentLang) && stored == old(stored)
      ensures !switcherPresent ==> elements == old(elements) && documentLang == old(documentLang)
                                   && indicator == old(indicator) && listening == old(listening)
      ensures switcherPresent ==> elements == Applied(table, currentLang, old(elements)) && listening && Synced()
    {
      if !switcherPresent {
        return;
      }
      ApplyLanguage(currentLang);
      AppliedIdempotent(table, currentLang, old(elements));
      indicator := LangButton(currentLang);
      listening := true;
    }

    /** The click listener: toggle, persist, re-render, update the indicator. */
    method Click()
      requires listening
      modifies this
      ensures currentLang == Toggle(old(currentLang))
      ensures stored == Some(currentLang)
      ensures elements == Applied(table, currentLang, old(elements))
      ensures documentLang == currentLang && indicator == LangButton(currentLang)
      ensures listening && Synced()
    {
      currentLang := Toggle(currentLang);
      stored := Some(currentLang);
      ApplyLanguage(currentLang);
      AppliedIdempotent(table, currentLang, old(elements));
      indicator := LangButton(currentLang);
    }
  }
}
