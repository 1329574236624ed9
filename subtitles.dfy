/** The overlay rule of `updateSubtitles` in subtitle/content.js: for each
    caption element, look its normalized text up in the translation map and,
    on a non-empty translation, write the raw caption and the translation
    into the two lines of the overlay. The DOM is reduced to the caption
    texts, in document order, and to whether the overlay's two elements
    were found. */
module Subtitles {
  import opened Wrappers
  import opened JsMap
  import opened Normalize

  /** The two lines of the overlay. */
  datatype Display = Display(english: string, korean: string)

  /** The translation shown for a caption: the value under the caption's key,
      when it is a non-empty string (`if (koreanText)`). */
  function ShownTranslation(translations: OrderedMap, caption: string): (r: Option<string>)
    ensures r.Some? ==> r.value != "" && translations.Get(NormalizeText(caption)) == r
    ensures r.None? ==> translations.Get(NormalizeText(caption)) in {None, Some("")}
  {
    var found := translations.Get(NormalizeText(caption));
    if found.Some? && found.value != "" then found else None
  }

  /** The overlay after handling one caption element: written when a
      translation is shown and the overlay's elements exist, otherwise left
      as it was. */
  function Rendered(d: Display, translations: OrderedMap, caption: string, overlayFound: bool): Display
  {
    var shown := ShownTranslation(translations, caption);
    if shown.Some? && overlayFound then Display(caption, shown.value) else d
  }

  /** The overlay after handling `captions` in order. */
  function RenderedAll(d: Display, translations: OrderedMap, captions: seq<string>, overlayFound: bool): Display
  {
    if captions == [] then d
    else Rendered(RenderedAll(d, translations, captions[..|captions| - 1], overlayFound),
                  translations, captions[|captions| - 1], overlayFound)
  }

  /** The overlay's two text elements. */
  class Overlay {
    var english: string
    var korean: string

    constructor ()
      ensures english == "" && korean == ""
    {
      english := "";
      korean := "";
    }

    function Shown(): Display
      reads this
    {
      Display(english, korean)
    }

    /** `updateSubtitles(translations)`: the `forEach` over the caption
        elements. */
    method UpdateSubtitles(captions: seq<string>, translations: OrderedMap, overlayFound: bool)
      modifies this
      ensures Shown() == RenderedAll(old(Shown()), translations, captions, overlayFound)
    {
      for i := 0 to |captions|
        invariant Shown() == RenderedAll(old(Shown()), translations, captions[..i], overlayFound)
      {
        assert captions[..i + 1][..i] == captions[..i];
        var englishText := NormalizeText(captions[i]);
        var koreanText := translations.Get(englishText);
        if koreanText.Some? && koreanText.value != "" && overlayFound {
          english := captions[i];
          korean := koreanText.value;
        }
      }
      assert captions[..|captions|] == captions;
    }
  }

  /** Caption `j` is the last one that shows a translation. */
  predicate IsLastShown(translations: OrderedMap, captions: seq<string>, j: nat)
  {
    j < |captions| && ShownTranslation(translations, captions[j]).Some?
    && forall j' :: j < j' < |captions| ==> ShownTranslation(translations, captions[j']).None?
  }

  /** With no caption showing a translation (a miss or a "" placeholder for
      each), or with the overlay missing, both lines stay as they were. */
  lemma {:induction false} MissLeavesOverlay(d: Display, translations: OrderedMap, captions: seq<string>, overlayFound: bool)
    requires !overlayFound || forall j :: 0 <= j < |captions| ==> ShownTranslation(translations, captions[j]).None?
    ensures RenderedAll(d, translations, captions, overlayFound) == d
  {
    if captions != [] {
      MissLeavesOverlay(d, translations, captions[..|captions| - 1], overlayFound);
    }
  }

  /** The last caption that shows a translation decides the overlay: its raw
      text (not its key) on the English line, its translation on the other. */
  lemma {:induction false} LastShownWins(d: Display, translations: OrderedMap, captions: seq<string>, j: nat)
    requires IsLastShown(translations, captions, j)
    ensures RenderedAll(d, translations, captions, true)
            == Display(captions[j], ShownTranslation(translations, captions[j]).value)
  {
    var init := captions[..|captions| - 1];
    if j < |captions| - 1 {
      assert IsLastShown(translations, init, j);
      LastShownWins(d, translations, init, j);
    }
  }

  /** Once a translation is on the overlay, no later update blanks it: the
      second line only ever takes non-empty translations. */
  lemma {:induction false} NeverBlanked(d: Display, translations: OrderedMap, captions: seq<string>, overlayFound: bool)
    requires d.korean != ""
    ensures RenderedAll(d, translations, captions, overlayFound).korean != ""
  {
    if captions != [] {
      NeverBlanked(d, translations, captions[..|captions| - 1], overlayFound);
    }
  }

  /** The English line is either unchanged or one of the raw captions. */
  lemma {:induction false} EnglishLineIsRawCaption(d: Display, translations: OrderedMap, captions: seq<string>, overlayFound: bool)
    ensures RenderedAll(d, translations, captions, overlayFound).english == d.english
            || RenderedAll(d, translations, captions, overlayFound).english in captions
  {
    if captions != [] {
      var init := captions[..|captions| - 1];
      EnglishLineIsRawCaption(d, translations, init, overlayFound);
      var before := RenderedAll(d, translations, init, overlayFound);
      if before.english in init {
        var k :| 0 <= k < |init| && init[k] == before.english;
        assert captions[k] == before.english;
      }
    }
  }

  /** A map key holding a character that normalization never produces
      (upper case, punctuation) is never looked up, so its value is never
      shown. */
  lemma UnnormalizedKeyNeverShown(caption: string, key: string)
    requires !IsKey(key)
    ensures NormalizeText(caption) != key
  {
    NormalizeTextIsKey(caption);
  }
}
