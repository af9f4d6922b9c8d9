/** The language controller: the initial-language choice, `setLanguage`, and
    the dropdown's open/closed state (scripts.js, lines 75-165). */
module Language {
  import opened Wrappers
  import opened Locale
  import opened Translation
  import Text

  /** The supported language codes, in the order the script lists them. */
  const SUPPORTED: seq<string> := ["de", "en", "es", "it"]
  /** The label shown for each supported code. */
  const LABELS: map<string, string> :=
    map["de" := "Deutsch", "en" := "English", "es" := "Espa\U{F1}ol", "it" := "Italiano"]
  /** The language used when neither the URL nor the storage names a supported one. */
  const DEFAULT_LANG := "de"
  /** The local-storage key holding the chosen language. */
  const STORAGE_KEY := "site-lang"

  /** `v && SUPPORTED.includes(v)`: present, non-empty and supported. */
  predicate Accepted(v: Option<string>)
    ensures Accepted(v) <==> v.Some? && v.value in SUPPORTED
  {
    v.Some? && v.value != "" && v.value in SUPPORTED
  }

  /** The starting language: the URL's `lang` parameter when supported, else the
      stored preference when supported, else the default. */
  function InitialLanguage(urlLang: Option<string>, saved: Option<string>): (lang: string)
    ensures lang in SUPPORTED
    ensures lang == DEFAULT_LANG || urlLang == Some(lang) || saved == Some(lang)
  {
    if Accepted(urlLang) then urlLang.value
    else if Accepted(saved) then saved.value
    else DEFAULT_LANG
  }

  /** A supported URL parameter wins over any stored preference. */
  lemma UrlLanguageWins(code: string, saved: Option<string>)
    requires code in SUPPORTED
    ensures InitialLanguage(Some(code), saved) == code
  {
  }

  /** With no supported URL parameter, a supported stored preference is used. */
  lemma StoredLanguageNext(urlLang: Option<string>, code: string)
    requires !(urlLang.Some? && urlLang.value in SUPPORTED)
    requires code in SUPPORTED
    ensures InitialLanguage(urlLang, Some(code)) == code
  {
  }

  /** With neither source supported, the default is used. */
  lemma DefaultLanguageLast(urlLang: Option<string>, saved: Option<string>)
    requires !(urlLang.Some? && urlLang.value in SUPPORTED)
    requires !(saved.Some? && saved.value in SUPPORTED)
    ensures InitialLanguage(urlLang, saved) == DEFAULT_LANG
  {
  }

  /** `LABELS[lang] || lang.toUpperCase()`: every supported code shows its
      label, because no label is empty; any other code shows in capitals. */
  function LabelFor(lang: string): (text: string)
    ensures lang in SUPPORTED ==> text == LABELS[lang]
    ensures lang !in LABELS ==> text == Text.UpperCase(lang)
    ensures text != "" <==> lang != ""
  {
    if lang in LABELS && LABELS[lang] != "" then LABELS[lang] else Text.UpperCase(lang)
  }

  /** The page state the language controller reads and writes. */
  class Page {
    /** All elements of the document, in document order. */
    var elements: seq<Element>
    /** The `lang` attribute of the root element. */
    var htmlLang: Option<string>
    /** The browser's local storage. */
    var storage: map<string, string>
    /** The text of the current-language label. */
    var labelText: string
    /** Whether the dropdown carries the class `open`. */
    var dropdownOpen: bool
    /** The `aria-expanded` attribute of the dropdown button. */
    var ariaExpanded: Option<string>

    constructor (elements: seq<Element>, htmlLang: Option<string>, storage: map<string, string>,
                 labelText: string, dropdownOpen: bool, ariaExpanded: Option<string>)
      ensures this.elements == elements && this.htmlLang == htmlLang && this.storage == storage
      ensures this.labelText == labelText && this.dropdownOpen == dropdownOpen && this.ariaExpanded == ariaExpanded
    {
      this.elements := elements;
      this.htmlLang := htmlLang;
      this.storage := storage;
      this.labelText := labelText;
      this.dropdownOpen := dropdownOpen;
      this.ariaExpanded := ariaExpanded;
    }

    /** `localStorage.getItem("site-lang")`. */
    function Saved(): Option<string>
      reads this
    {
      if STORAGE_KEY in storage then Some(storage[STORAGE_KEY]) else None
    }

    /** The button's `aria-expanded` agrees with the dropdown's `open` class. */
    predicate ExpandedMirrorsOpen()
      reads this
    {
      ariaExpanded == Some(if dropdownOpen then "true" else "false")
    }

    /** `applyTranslations(dict)`: each element in turn, looked up and written. */
    method ApplyTranslations(dict: Value)
      modifies this`elements
      ensures elements == Translated(dict, old(elements))
    {
      var i := 0;
      while i < |elements|
        invariant 0 <= i <= |elements| == |old(elements)|
        invariant forall j :: 0 <= j < i ==> elements[j] == ApplyToElement(dict, old(elements)[j])
        invariant forall j :: i <= j < |elements| ==> elements[j] == old(elements)[j]
      {
        var el := elements[i];
        if KEY_ATTR in el.attrs {
          var val := LookupKey(dict, el.attrs[KEY_ATTR]);
          if val.Str? {
            if TARGET_ATTR in el.attrs {
              var attr := el.attrs[TARGET_ATTR];
              el := el.(attrs := el.attrs[attr := val.s]);
            } else {
              el := el.(text := val.s);
            }
          }
        }
        elements := elements[i := el];
        i := i + 1;
      }
    }

    /** The marking loop of `setLanguage`: menu items lose `aria-current`, and
        the items for `lang` get it back. */
    method MarkCurrentItems(lang: string)
      modifies this`elements
      ensures elements == Marked(lang, old(elements))
    {
      var i := 0;
      while i < |elements|
        invariant 0 <= i <= |elements| == |old(elements)|
        invariant forall j :: 0 <= j < i ==> elements[j] == MarkCurrent(lang, old(elements)[j])
        invariant forall j :: i <= j < |elements| ==> elements[j] == old(elements)[j]
      {
        var b := elements[i];
        if IsMenuItem(b) {
          b := b.(attrs := b.attrs - {CURRENT_ATTR});
          if "data-lang" in b.attrs && b.attrs["data-lang"] == lang {
            b := b.(attrs := b.attrs[CURRENT_ATTR := "true"]);
          }
        }
        elements := elements[i := b];
        i := i + 1;
      }
    }

    /** `setLanguage(lang)`, with the outcome of loading the locale file given
        as `load`. A failed load throws before anything is written; a successful
        one translates, sets the root `lang`, stores the choice, updates the
        label and moves the `aria-current` mark, all together. */
    method SetLanguage(lang: string, load: Option<Value>) returns (ok: bool)
      modifies this`elements, this`htmlLang, this`storage, this`labelText
      ensures ok == load.Some?
      ensures !ok ==> unchanged(this)
      ensures ok ==> elements == Marked(lang, Translated(load.value, old(elements)))
      ensures ok ==> htmlLang == Some(lang) && Saved() == Some(lang)
      ensures ok ==> storage == old(storage)[STORAGE_KEY := lang]
      ensures ok ==> labelText == LabelFor(lang)
    {
      if load.None? {
        return false;
      }
      ApplyTranslations(load.value);
      htmlLang := Some(lang);
      storage := storage[STORAGE_KEY := lang];
      labelText := LabelFor(lang);
      MarkCurrentItems(lang);
      ok := true;
    }

    /** The start-up step: choose the initial language from the URL parameter
        and the stored preference, then switch to it. */
    method Start(urlLang: Option<string>, load: Option<Value>) returns (lang: string, ok: bool)
      modifies this`elements, this`htmlLang, this`storage, this`labelText
      ensures lang == InitialLanguage(urlLang, old(Saved())) && lang in SUPPORTED
      ensures ok == load.Some?
      ensures !ok ==> unchanged(this)
      ensures ok ==> elements == Marked(lang, Translated(load.value, old(elements)))
      ensures ok ==> htmlLang == Some(lang) && storage == old(storage)[STORAGE_KEY := lang]
      ensures ok ==> labelText == LabelFor(lang) && labelText == LABELS[lang]
    {
      lang := InitialLanguage(urlLang, Saved());
      ok := SetLanguage(lang, load);
    }

    /** A click on the dropdown button flips `open` and mirrors it in `aria-expanded`. */
    method ClickButton()
      modifies this`dropdownOpen, this`ariaExpanded
      ensures dropdownOpen == !old(dropdownOpen)
      ensures ExpandedMirrorsOpen()
    {
      dropdownOpen := !dropdownOpen;
      ariaExpanded := Some(if dropdownOpen then "true" else "false");
    }

    /** A click inside the menu. `itemLang` is the `data-lang` of the closest
        element carrying one, `None` when there is none; `load` is the outcome of
        loading that language's file. Only a successful switch closes the
        dropdown: a failed load throws before the closing code runs. */
    method ClickMenu(itemLang: Option<string>, load: Option<Value>) returns (switched: bool)
      modifies this
      ensures switched == (itemLang.Some? && load.Some?)
      ensures !switched ==> unchanged(this)
      ensures switched ==> elements == Marked(itemLang.value, Translated(load.value, old(elements)))
      ensures switched ==> htmlLang == itemLang && storage == old(storage)[STORAGE_KEY := itemLang.value]
      ensures switched ==> labelText == LabelFor(itemLang.value)
      ensures switched ==> !dropdownOpen && ExpandedMirrorsOpen()
    {
      if itemLang.None? {
        return false;
      }
      switched := SetLanguage(itemLang.value, load);
      if switched {
        dropdownOpen := false;
        ariaExpanded := Some("false");
      }
    }

    /** A click anywhere in the document: outside the dropdown it closes it,
        inside it changes nothing. The language is never touched. */
    method ClickDocument(insideDropdown: bool)
      modifies this`dropdownOpen, this`ariaExpanded
      ensures insideDropdown ==> unchanged(this)
      ensures !insideDropdown ==> !dropdownOpen && ExpandedMirrorsOpen()
    {
      if !insideDropdown {
        dropdownOpen := false;
        ariaExpanded := Some("false");
      }
    }
  }
}
