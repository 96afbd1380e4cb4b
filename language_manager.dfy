/** The menu's LanguageManager: a remembered language index, cycled by the language button,
    and the rewrite of every element marked data-i18n with the current language's text. */
module Languages {
  import opened Wrappers
  import opened JsText
  import opened WebStorage
  import opened Translations

  /** The localStorage key that remembers the chosen language. */
  const STORAGE_KEY: string := "minecraftLang"

  /** An entry of the language list handed to init. */
  datatype Language = Language(code: string)

  /** A page element; key is its data-i18n attribute when it has one. */
  datatype Element = Element(key: Option<string>, text: string)

  /** What updateTranslations can change: the document's lang attribute, the elements'
      text and the stored preference. */
  datatype PageState = PageState(lang: string, elements: seq<Element>, items: map<string, string>)

  /** getStoredLanguageIndex(): parseInt(localStorage.getItem(key) || '0', 10), and 0 when
      localStorage cannot be used. A missing or empty preference reads as "0". */
  function StoredIndex(available: bool, items: map<string, string>): ParsedInt {
    if !available then Num(0)
    else ParseInt(if STORAGE_KEY in items && items[STORAGE_KEY] != "" then items[STORAGE_KEY] else "0")
  }

  /** saveLanguageIndex(index): setItem(key, index.toString()); a failing localStorage
      leaves everything as it was. */
  function SavedIndex(available: bool, items: map<string, string>, index: nat): map<string, string> {
    if available then items[STORAGE_KEY := NatToDecimal(index)] else items
  }

  /** (index + 1) % n with JavaScript's remainder: NaN stays NaN, a zero divisor gives NaN,
      otherwise the result has the sign of index + 1 and lies strictly between -n and n. */
  function CycleIndex(index: ParsedInt, n: nat): (r: ParsedInt)
    ensures index.NaN? || n == 0 <==> r.NaN?
    ensures r.Num? ==> -(n as int) < r.value < n
    ensures index.Num? && index.value >= -1 && n > 0 ==> r.Num? && 0 <= r.value < n
  {
    match index
    case NaN => NaN
    case Num(i) => if n == 0 then NaN else Num(JsRemainder(i + 1, n))
  }

  /** availableLanguages[index]: the position of the current language, when there is one. */
  function LanguageIndex(languages: seq<Language>, index: ParsedInt): Option<nat> {
    if index.Num? && 0 <= index.value < |languages| then Some(index.value) else None
  }

  /** translations[code]. */
  function TranslationsFor(translations: map<string, JsValue>, code: string): JsValue {
    if code in translations then translations[code] else Undefined
  }

  /** One element after the forEach of updateTranslations: its text becomes the looked-up
      value when that is a non-empty string, and is kept otherwise. */
  function Retext(e: Element, trans: JsValue): (r: Element)
    ensures r.key == e.key
    ensures r == e || (e.key.Some? && GetNestedValue(trans, e.key.value) == Str(r.text) && r.text != "")
    ensures e.key.Some? && IsText(GetNestedValue(trans, e.key.value)) ==>
              r.text == GetNestedValue(trans, e.key.value).s
  {
    if e.key.Some? && IsText(GetNestedValue(trans, e.key.value))
    then e.(text := GetNestedValue(trans, e.key.value).s)
    else e
  }

  function Retexted(elements: seq<Element>, trans: JsValue): (r: seq<Element>)
    ensures |r| == |elements|
  {
    seq(|elements|, j requires 0 <= j < |elements| => Retext(elements[j], trans))
  }

  /** updateTranslations(): nothing at all happens when the index names no language or that
      language has no truthy translation table; otherwise every element is retexted, the
      document's lang becomes the language's code and the index is saved. */
  function UpdateSpec(languages: seq<Language>, translations: map<string, JsValue>, index: ParsedInt,
                      page: PageState, available: bool): PageState
  {
    match LanguageIndex(languages, index)
    case None => page
    case Some(k) =>
      var code := languages[k].code;
      var trans := TranslationsFor(translations, code);
      if !Truthy(trans) then page
      else PageState(code, Retexted(page.elements, trans), SavedIndex(available, page.items, k))
  }

  /** k presses of the language button from index. */
  function Cycles(index: ParsedInt, n: nat, k: nat): ParsedInt {
    if k == 0 then index else CycleIndex(Cycles(index, n, k - 1), n)
  }

  // ---------------------------------------------------------------------------------------
  // Properties of the specification
  // ---------------------------------------------------------------------------------------

  lemma ModSuccessor(m: int, n: int)
    requires n > 0
    ensures (m % n + 1) % n == (m + 1) % n
  {
    var q, j := m / n, m % n;
    assert m == q * n + j;
    if j + 1 == n {
      assert m + 1 == (q + 1) * n + 0;
      ModUnique(m + 1, n, q + 1, 0);
      ModUnique(j + 1, n, 1, 0);
    } else {
      ModUnique(m + 1, n, q, j + 1);
      ModUnique(j + 1, n, 0, j + 1);
    }
  }

  /** From a valid index, k presses land on (index + k) % n. */
  lemma {:induction false} CyclesFrom(i: int, n: nat, k: nat)
    requires 0 <= i < n
    ensures Cycles(Num(i), n, k) == Num((i + k) % n)
  {
    if k > 0 {
      CyclesFrom(i, n, k - 1);
      var j := (i + k - 1) % n;
      assert 0 <= j < n;
      assert Cycles(Num(i), n, k) == CycleIndex(Num(j), n);
      assert CycleIndex(Num(j), n) == Num((j + 1) % n);
      ModSuccessor(i + k - 1, n);
    }
  }

  /** Pressing the button once per language comes back to the language one started from. */
  lemma CyclesReturnToStart(i: int, n: nat)
    requires 0 <= i < n
    ensures Cycles(Num(i), n, n) == Num(i)
  {
    CyclesFrom(i, n, n);
    ModUnique(i + n, n, 1, i);
  }

  /** A preference that is not a number (parseInt gives NaN) never becomes a language again:
      every press keeps NaN, and updateTranslations then changes nothing. */
  lemma {:induction false} NaNIndexIsStuck(languages: seq<Language>, translations: map<string, JsValue>,
                                           page: PageState, available: bool, k: nat)
    ensures Cycles(NaN, |languages|, k) == NaN
    ensures UpdateSpec(languages, translations, Cycles(NaN, |languages|, k), page, available) == page
  {
    if k > 0 {
      NaNIndexIsStuck(languages, translations, page, available, k - 1);
    }
  }

  /** Without a stored preference (storage unusable, no entry, or an empty one) the index is 0. */
  lemma MissingPreferenceIsZero(available: bool, items: map<string, string>)
    requires !available || STORAGE_KEY !in items || items[STORAGE_KEY] == ""
    ensures StoredIndex(available, items) == Num(0)
  {
    ParseIntRoundTrip(0);
  }

  /** A saved index reads back as the same index. */
  lemma SavedIndexReadsBack(items: map<string, string>, index: nat)
    ensures StoredIndex(true, SavedIndex(true, items, index)) == Num(index)
  {
    ParseIntRoundTrip(index);
  }

  /** The guard clauses of updateTranslations: no language at the index, or no truthy
      table for its code, and nothing changes (text, lang and stored index alike). */
  lemma UpdateGuards(languages: seq<Language>, translations: map<string, JsValue>, index: ParsedInt,
                     page: PageState, available: bool)
    requires LanguageIndex(languages, index).None? ||
             !Truthy(TranslationsFor(translations, languages[LanguageIndex(languages, index).value].code))
    ensures UpdateSpec(languages, translations, index, page, available) == page
  {
  }

  /** After an update that passes the guards, lang is the language's code, and the saved
      preference reads back as the current index (when localStorage is usable). */
  lemma UpdateSetsLangAndIndex(languages: seq<Language>, translations: map<string, JsValue>, i: int,
                               page: PageState, available: bool)
    requires 0 <= i < |languages| && Truthy(TranslationsFor(translations, languages[i].code))
    ensures var r := UpdateSpec(languages, translations, Num(i), page, available);
      r.lang == languages[i].code &&
      (available ==> StoredIndex(available, r.items) == Num(i)) &&
      (!available ==> r.items == page.items)
  {
    var trans := TranslationsFor(translations, languages[i].code);
    var saved := SavedIndex(available, page.items, i);
    assert LanguageIndex(languages, Num(i)) == Some(i);
    assert UpdateSpec(languages, translations, Num(i), page, available) ==
           PageState(languages[i].code, Retexted(page.elements, trans), saved);
    if available {
      SavedIndexReadsBack(page.items, i);
    }
  }

  /** Only elements whose lookup is a non-empty string change, and they then show exactly
      that string; the number and data-i18n keys of the elements never change. */
  lemma UpdateRetextsOnlyTranslated(languages: seq<Language>, translations: map<string, JsValue>,
                                    index: ParsedInt, page: PageState, available: bool, j: int)
    requires 0 <= j < |page.elements|
    ensures var r := UpdateSpec(languages, translations, index, page, available);
      var e := page.elements[j];
      |r.elements| == |page.elements| && r.elements[j].key == e.key &&
      (r.elements[j] != e ==>
         e.key.Some? && IsText(GetNestedValue(TranslationsFor(translations, r.lang), e.key.value)) &&
         r.elements[j].text == GetNestedValue(TranslationsFor(translations, r.lang), e.key.value).s)
  {
  }

  /** Applying the update a second time changes nothing more. */
  lemma UpdateIsIdempotent(languages: seq<Language>, translations: map<string, JsValue>, index: ParsedInt,
                           page: PageState, available: bool)
    ensures var once := UpdateSpec(languages, translations, index, page, available);
      UpdateSpec(languages, translations, index, once, available) == once
  {
    var once := UpdateSpec(languages, translations, index, page, available);
    match LanguageIndex(languages, index)
    case None =>
    case Some(k) =>
      var trans := TranslationsFor(translations, languages[k].code);
      if Truthy(trans) {
        assert Retexted(once.elements, trans) == once.elements;
      }
  }

  // ---------------------------------------------------------------------------------------
  // The page and the manager
  // ---------------------------------------------------------------------------------------

  /** The parts of the document the manager touches. */
  class Document {
    var lang: string
    var elements: seq<Element>

    constructor (lang: string, elements: seq<Element>)
      ensures this.lang == lang && this.elements == elements
    {
      this.lang := lang;
      this.elements := elements;
    }
  }

  class LanguageManager {
    var currentLanguageIndex: ParsedInt
    var translations: map<string, JsValue>
    var availableLanguages: seq<Language>
    const doc: Document
    const storage: LocalStorage

    /** The state of the module before init. */
    constructor (doc: Document, storage: LocalStorage)
      ensures this.doc == doc && this.storage == storage
      ensures currentLanguageIndex == Num(0) && translations == map[] && availableLanguages == []
    {
      this.doc := doc;
      this.storage := storage;
      currentLanguageIndex := Num(0);
      translations := map[];
      availableLanguages := [];
    }

    function Page(): PageState
      reads doc, storage
    {
      PageState(doc.lang, doc.elements, storage.items)
    }

    method GetStoredLanguageIndex() returns (index: ParsedInt)
      ensures index == StoredIndex(storage.available, storage.items)
      ensures !storage.available || STORAGE_KEY !in storage.items ==> index == Num(0)
    {
      if !storage.available {
        return Num(0);
      }
      var stored := if STORAGE_KEY in storage.items then storage.items[STORAGE_KEY] else "";
      if stored == "" {
        MissingPreferenceIsZero(storage.available, storage.items);
        stored := "0";
      }
      index := ParseInt(stored);
    }

    method SaveLanguageIndex(index: nat)
      modifies storage
      ensures storage.available == old(storage.available)
      ensures storage.items == SavedIndex(old(storage.available), old(storage.items), index)
    {
      if storage.available {
        storage.items := storage.items[STORAGE_KEY := NatToDecimal(index)];
      }
    }

    method UpdateTranslations()
      modifies doc, storage
      ensures storage.available == old(storage.available)
      ensures Page() == UpdateSpec(availableLanguages, translations, currentLanguageIndex, old(Page()),
                                   storage.available)
    {
      var k := LanguageIndex(availableLanguages, currentLanguageIndex);
      if k.None? {
        return;
      }
      var code := availableLanguages[k.value].code;
      var trans := TranslationsFor(translations, code);
      if !Truthy(trans) {
        return;
      }
      var i := 0;
      while i < |doc.elements|
        invariant 0 <= i <= |doc.elements| == |old(doc.elements)|
        invariant forall j :: 0 <= j < i ==> doc.elements[j] == Retext(old(doc.elements)[j], trans)
        invariant forall j :: i <= j < |doc.elements| ==> doc.elements[j] == old(doc.elements)[j]
        invariant doc.lang == old(doc.lang)
        invariant storage.available == old(storage.available) && storage.items == old(storage.items)
      {
        var e := doc.elements[i];
        if e.key.Some? {
          var value := GetNestedValue(trans, e.key.value);
          if Truthy(value) && value.Str? {
            doc.elements := doc.elements[i := e.(text := value.s)];
          }
        }
        i := i + 1;
      }
      assert doc.elements == Retexted(old(doc.elements), trans);
      doc.lang := code;
      SaveLanguageIndex(k.value);
    }

    method CycleLanguage()
      modifies this, doc, storage
      ensures translations == old(translations) && availableLanguages == old(availableLanguages)
      ensures currentLanguageIndex == CycleIndex(old(currentLanguageIndex), |availableLanguages|)
      ensures storage.available == old(storage.available)
      ensures Page() == UpdateSpec(availableLanguages, translations, currentLanguageIndex, old(Page()),
                                   storage.available)
    {
      currentLanguageIndex := match currentLanguageIndex
        case NaN => NaN
        case Num(i) =>
          if |availableLanguages| == 0 then NaN else Num(JsRemainder(i + 1, |availableLanguages|));
      UpdateTranslations();
    }

    method Init(translationsData: map<string, JsValue>, languagesData: seq<Language>)
      modifies this, doc, storage
      ensures translations == translationsData && availableLanguages == languagesData
      ensures currentLanguageIndex == StoredIndex(old(storage.available), old(storage.items))
      ensures storage.available == old(storage.available)
      ensures Page() == UpdateSpec(languagesData, translationsData, currentLanguageIndex, old(Page()),
                                   storage.available)
    {
      translations := translationsData;
      availableLanguages := languagesData;
      currentLanguageIndex := GetStoredLanguageIndex();
      UpdateTranslations();
    }
  }
}
