/** What `applyTranslations` does to one marked element, and what
    `setLanguage` does to the menu items' `aria-current` marks
    (scripts.js, lines 92-108 and 119-124). */
module Translation {
  import opened Wrappers
  import opened Locale
  import Text

  /** A document element: its attributes, its text content, and whether it
      lies inside the language menu. */
  datatype Element = Element(attrs: map<string, string>, text: string, inMenu: bool)

  /** The attribute that marks an element for translation and holds its key. */
  const KEY_ATTR := "data-i18n"
  /** The optional attribute naming the attribute a translation is written to. */
  const TARGET_ATTR := "data-i18n-attr"
  /** The attribute that marks the active language in the menu. */
  const CURRENT_ATTR := "aria-current"

  /** The element after one pass of `applyTranslations` over `dict`. It stays
      in place, changes only when it is marked and its key yields a string, and
      then gains at most the attribute named by `data-i18n-attr`; its text
      changes only when it has no such attribute. */
  function ApplyToElement(dict: Value, e: Element): (r: Element)
    ensures r.inMenu == e.inMenu
    ensures r != e ==> KEY_ATTR in e.attrs && LookupText(dict, e.attrs[KEY_ATTR]).Some?
    ensures r.attrs.Keys <= e.attrs.Keys + (if TARGET_ATTR in e.attrs then {e.attrs[TARGET_ATTR]} else {})
    ensures r.text != e.text ==> TARGET_ATTR !in e.attrs
  {
    if KEY_ATTR !in e.attrs then e
    else
      match LookupText(dict, e.attrs[KEY_ATTR])
      case None => e
      case Some(s) =>
        if TARGET_ATTR in e.attrs then e.(attrs := e.attrs[e.attrs[TARGET_ATTR] := s])
        else e.(text := s)
  }

  /** Every element of the document after `applyTranslations(dict)`, in order. */
  function Translated(dict: Value, es: seq<Element>): (r: seq<Element>)
    ensures |r| == |es|
    ensures forall i :: 0 <= i < |es| ==> r[i] == ApplyToElement(dict, es[i])
  {
    if es == [] then [] else [ApplyToElement(dict, es[0])] + Translated(dict, es[1..])
  }

  /** An element changes only when it is marked and its key resolves to a
      string; an unmarked element, a missing key or a non-string value leaves
      every attribute and the text as they were. */
  lemma ApplyChangesOnlyOnString(dict: Value, e: Element)
    ensures ApplyToElement(dict, e) != e ==>
      KEY_ATTR in e.attrs && LookupText(dict, e.attrs[KEY_ATTR]).Some?
    ensures KEY_ATTR !in e.attrs || LookupText(dict, e.attrs[KEY_ATTR]).None? ==>
      ApplyToElement(dict, e) == e
  {
  }

  /** With `data-i18n-attr`, exactly the named attribute is set to the
      translation and the text content is untouched. */
  lemma ApplyWritesNamedAttribute(dict: Value, e: Element, s: string)
    requires KEY_ATTR in e.attrs && TARGET_ATTR in e.attrs
    requires LookupText(dict, e.attrs[KEY_ATTR]) == Some(s)
    ensures var r := ApplyToElement(dict, e); var t := e.attrs[TARGET_ATTR];
      && r.text == e.text && r.inMenu == e.inMenu
      && r.attrs.Keys == e.attrs.Keys + {t}
      && t in r.attrs && r.attrs[t] == s
      && forall a :: a in e.attrs && a != t ==> r.attrs[a] == e.attrs[a]
  {
  }

  /** Without `data-i18n-attr`, only the text content is set. */
  lemma ApplyWritesText(dict: Value, e: Element, s: string)
    requires KEY_ATTR in e.attrs && TARGET_ATTR !in e.attrs
    requires LookupText(dict, e.attrs[KEY_ATTR]) == Some(s)
    ensures ApplyToElement(dict, e) == e.(text := s)
  {
  }

  /** The elements whose `data-i18n-attr` does not name one of the two
      translation-control attributes themselves. */
  predicate SafeTarget(e: Element) {
    TARGET_ATTR in e.attrs ==> e.attrs[TARGET_ATTR] != KEY_ATTR && e.attrs[TARGET_ATTR] != TARGET_ATTR
  }

  /** Applying a dictionary twice to an element is the same as applying it once:
      the write depends only on the dictionary, the key and the target name. */
  lemma ApplyIdempotent(dict: Value, e: Element)
    requires SafeTarget(e)
    ensures ApplyToElement(dict, ApplyToElement(dict, e)) == ApplyToElement(dict, e)
  {
  }

  /** Applying a dictionary twice to the document gives the state a single
      application gives. */
  lemma TranslatedIdempotent(dict: Value, es: seq<Element>)
    requires forall i :: 0 <= i < |es| ==> SafeTarget(es[i])
    ensures Translated(dict, Translated(dict, es)) == Translated(dict, es)
  {
    forall i | 0 <= i < |es|
      ensures Translated(dict, Translated(dict, es))[i] == Translated(dict, es)[i]
    {
      ApplyIdempotent(dict, es[i]);
    }
  }

  /** Each case SafeTarget excludes can break idempotence. An element whose
      `data-i18n-attr` is `data-i18n` has its own key rewritten, and a second
      pass follows the new key. An element whose `data-i18n-attr` names itself
      has its target rewritten, and a second pass writes a new attribute. */
  lemma IdempotenceNeedsSafeTarget()
    ensures exists dict: Value, e: Element :: (TARGET_ATTR in e.attrs && e.attrs[TARGET_ATTR] == KEY_ATTR &&
      ApplyToElement(dict, ApplyToElement(dict, e)) != ApplyToElement(dict, e))
    ensures exists dict: Value, e: Element :: (TARGET_ATTR in e.attrs && e.attrs[TARGET_ATTR] == TARGET_ATTR &&
      ApplyToElement(dict, ApplyToElement(dict, e)) != ApplyToElement(dict, e))
  {
    Text.SplitJoin(["a"], '.');
    Text.SplitJoin(["b"], '.');
    var dict := Map(map["a" := Str("b"), "b" := Str("c")]);
    var e := Element(map[KEY_ATTR := "a", TARGET_ATTR := KEY_ATTR], "", false);
    var once := ApplyToElement(dict, e);
    assert once.attrs[KEY_ATTR] == "b";
    assert ApplyToElement(dict, once).attrs[KEY_ATTR] == "c";

    var dict' := Map(map["a" := Str("x")]);
    var e' := Element(map[KEY_ATTR := "a", TARGET_ATTR := TARGET_ATTR], "", false);
    var once' := ApplyToElement(dict', e');
    assert once'.attrs[TARGET_ATTR] == "x" && "x" !in once'.attrs;
    assert "x" in ApplyToElement(dict', once').attrs;
  }

  /** An entry of the language menu: `[role='menuitem']` inside the menu. */
  predicate IsMenuItem(e: Element) {
    e.inMenu && "role" in e.attrs && e.attrs["role"] == "menuitem"
  }

  /** `getAttribute("data-lang")`, with `None` for a missing attribute. */
  function DataLang(e: Element): Option<string> {
    if "data-lang" in e.attrs then Some(e.attrs["data-lang"]) else None
  }

  /** One step of the marking loop: a menu item loses `aria-current`, and gets
      `aria-current="true"` back when its `data-lang` is `lang`. */
  function MarkCurrent(lang: string, e: Element): (r: Element)
    ensures IsMenuItem(r) == IsMenuItem(e) && DataLang(r) == DataLang(e) && r.text == e.text
    ensures IsMenuItem(r) ==> (CURRENT_ATTR in r.attrs <==> DataLang(r) == Some(lang))
    ensures CURRENT_ATTR in r.attrs && IsMenuItem(r) ==> r.attrs[CURRENT_ATTR] == "true"
    ensures forall a :: a != CURRENT_ATTR ==> (a in r.attrs <==> a in e.attrs)
    ensures forall a :: a in e.attrs && a != CURRENT_ATTR ==> r.attrs[a] == e.attrs[a]
    ensures !IsMenuItem(e) ==> r == e
  {
    if !IsMenuItem(e) then e
    else
      var cleared := e.attrs - {CURRENT_ATTR};
      if DataLang(e) == Some(lang) then e.(attrs := cleared[CURRENT_ATTR := "true"])
      else e.(attrs := cleared)
  }

  /** Every element of the document after the marking loop, in order. */
  function Marked(lang: string, es: seq<Element>): (r: seq<Element>)
    ensures |r| == |es|
    ensures forall i :: 0 <= i < |es| ==> r[i] == MarkCurrent(lang, es[i])
  {
    if es == [] then [] else [MarkCurrent(lang, es[0])] + Marked(lang, es[1..])
  }

  /** After marking, exactly the menu items whose `data-lang` is `lang` carry
      `aria-current`, with value "true"; nothing else about any element changed. */
  lemma MarkedExactlyCurrent(lang: string, es: seq<Element>)
    ensures var r := Marked(lang, es);
      forall i :: 0 <= i < |es| ==>
        && IsMenuItem(r[i]) == IsMenuItem(es[i])
        && DataLang(r[i]) == DataLang(es[i])
        && r[i].text == es[i].text
        && (forall a :: a in es[i].attrs && a != CURRENT_ATTR ==> a in r[i].attrs && r[i].attrs[a] == es[i].attrs[a])
        && (forall a :: a in r[i].attrs && a != CURRENT_ATTR ==> a in es[i].attrs)
        && (IsMenuItem(r[i]) ==> (CURRENT_ATTR in r[i].attrs <==> DataLang(r[i]) == Some(lang)))
        && (CURRENT_ATTR in r[i].attrs && IsMenuItem(r[i]) ==> r[i].attrs[CURRENT_ATTR] == "true")
        && (!IsMenuItem(es[i]) ==> r[i] == es[i])
  {
  }
}
