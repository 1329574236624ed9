/** The lookup key of a caption line (`normalizeText` in subtitle/content.js):
    trim, lower-case, then delete every character outside
    `[a-zA-Z0-9가-힣\s]`. */
module Normalize {
  import opened JsText

  predicate IsAsciiUpper(c: char) { 'A' <= c <= 'Z' }

  predicate IsAsciiLower(c: char) { 'a' <= c <= 'z' }

  predicate IsDigit(c: char) { '0' <= c <= '9' }

  /** The Hangul syllables block, U+AC00 (가) to U+D7A3 (힣). */
  predicate IsHangulSyllable(c: char) { '\U{AC00}' <= c <= '\U{D7A3}' }

  /** The character class that the replacement keeps. */
  predicate IsKept(c: char)
  {
    IsAsciiUpper(c) || IsAsciiLower(c) || IsDigit(c) || IsHangulSyllable(c) || IsSpace(c)
  }

  /** What a normalized key is made of. */
  predicate IsKeyChar(c: char)
  {
    IsAsciiLower(c) || IsDigit(c) || IsHangulSyllable(c) || IsSpace(c)
  }

  predicate IsKey(s: string)
  {
    forall i :: 0 <= i < |s| ==> IsKeyChar(s[i])
  }

  function LowerChar(c: char): char
  {
    if IsAsciiUpper(c) then (c as int + 32) as char else c
  }

  /** `s.toLowerCase()` on the letters the key can hold. */
  function ToLower(s: string): (r: string)
    ensures |r| == |s|
  {
    seq(|s|, i requires 0 <= i < |s| => LowerChar(s[i]))
  }

  /** `s.replace(/[^a-zA-Z0-9가-힣\s]/g, "")` */
  function StripDisallowed(s: string): (r: string)
    ensures |r| <= |s|
    ensures forall i :: 0 <= i < |r| ==> IsKept(r[i])
    ensures (forall i :: 0 <= i < |s| ==> IsKept(s[i])) ==> r == s
  {
    if s == [] then []
    else
      assert s == [s[0]] + s[1..];
      (if IsKept(s[0]) then [s[0]] else []) + StripDisallowed(s[1..])
  }

  /** Lower-casing and deleting in one pass: each kept character,
      lower-cased. */
  function KeyChars(s: string): (r: string)
    ensures |r| <= |s|
  {
    if s == [] then [] else (if IsKept(s[0]) then [LowerChar(s[0])] else []) + KeyChars(s[1..])
  }

  /** Lower-casing keeps a character in the class exactly when it was in it. */
  lemma LowerCharKept(c: char)
    ensures IsKept(LowerChar(c)) == IsKept(c)
    ensures LowerChar(LowerChar(c)) == LowerChar(c)
  {
  }

  /** The one pass is the source's two steps: `toLowerCase`, then the
      replacement. */
  lemma {:induction false} KeyCharsAsWritten(s: string)
    ensures KeyChars(s) == StripDisallowed(ToLower(s))
  {
    if s != [] {
      var lowered := ToLower(s);
      assert lowered[1..] == ToLower(s[1..]);
      LowerCharKept(s[0]);
      KeyCharsAsWritten(s[1..]);
    }
  }

  /** `normalizeText`: trim, lower-case, then delete every character
      outside `[a-zA-Z0-9가-힣\s]`. */
  function NormalizeText(text: string): (key: string)
    ensures |key| <= |text|
  {
    KeyChars(Trim(text))
  }

  /** `normalizeText` as the source writes it, step by step. */
  lemma NormalizeTextAsWritten(text: string)
    ensures NormalizeText(text) == StripDisallowed(ToLower(Trim(text)))
  {
    KeyCharsAsWritten(Trim(text));
  }

  lemma {:induction false} KeyCharsAreKeyChars(s: string)
    ensures IsKey(KeyChars(s))
  {
    if s != [] {
      KeyCharsAreKeyChars(s[1..]);
    }
  }

  /** A key holds only lower-case ASCII letters, digits, Hangul syllables
      and white space. */
  lemma NormalizeTextIsKey(text: string)
    ensures IsKey(NormalizeText(text))
  {
    KeyCharsAreKeyChars(Trim(text));
  }

  lemma {:induction false} KeyCharsFixesKeys(s: string)
    requires IsKey(s)
    ensures KeyChars(s) == s
  {
    if s != [] {
      assert [s[0]] + s[1..] == s;
      KeyCharsFixesKeys(s[1..]);
    }
  }

  /** A trimmed string of key characters is its own key. */
  lemma NormalizeFixesKeys(s: string)
    requires IsTrimmed(s) && IsKey(s)
    ensures NormalizeText(s) == s
  {
    KeyCharsFixesKeys(s);
  }

  /** Normalizing a key again only trims it: the replacement can leave white
      space at either end, which a second pass removes. */
  lemma NormalizeTwice(text: string)
    ensures NormalizeText(NormalizeText(text)) == Trim(NormalizeText(text))
  {
    var key := NormalizeText(text);
    NormalizeTextIsKey(text);
    var t := Trim(key);
    TrimKeepsCharacters(key);
    forall i | 0 <= i < |t| ensures IsKeyChar(t[i]) {
      assert t[i] in key;
    }
    KeyCharsFixesKeys(t);
  }

  /** Normalization is not idempotent: "hello !" gives "hello ", which
      normalizes further to "hello". */
  lemma NormalizeNotIdempotent()
    ensures NormalizeText("hello !") == "hello "
    ensures NormalizeText("hello ") == "hello"
  {
    ExclamationDropped();
    TrailingSpaceTrimmed();
  }

  lemma ExclamationDropped()
    ensures NormalizeText("hello !") == "hello "
  {
    var s := "hello !";
    assert IsTrimmed(s);
    assert KeyChars(s[6..]) == [];
    assert KeyChars(s[5..]) == [' '];
    assert KeyChars(s[4..]) == "o ";
    assert KeyChars(s[3..]) == "lo ";
    assert KeyChars(s[2..]) == "llo ";
    assert KeyChars(s[1..]) == "ello ";
  }

  lemma TrailingSpaceTrimmed()
    ensures NormalizeText("hello ") == "hello"
  {
    var s := "hello ";
    assert s[..5] == "hello";
    assert Trim("hello") == "hello";
    assert Trim(s) == "hello";
    assert IsKey("hello");
    KeyCharsFixesKeys("hello");
  }

  /** Lower-casing is the identity on white space and keeps other
      characters out of it. */
  lemma LowerCharSpace(c: char)
    ensures IsSpace(LowerChar(c)) == IsSpace(c)
  {
  }

  lemma {:induction false} TrimLower(s: string)
    ensures Trim(ToLower(s)) == ToLower(Trim(s))
  {
    if s != [] {
      var lowered := ToLower(s);
      LowerCharSpace(s[0]);
      LowerCharSpace(s[|s| - 1]);
      assert lowered[0] == LowerChar(s[0]);
      assert lowered[|s| - 1] == LowerChar(s[|s| - 1]);
      if IsSpace(s[0]) {
        assert lowered[1..] == ToLower(s[1..]);
        TrimLower(s[1..]);
      } else if IsSpace(s[|s| - 1]) {
        assert lowered[..|s| - 1] == ToLower(s[..|s| - 1]);
        TrimLower(s[..|s| - 1]);
      }
    }
  }

  lemma {:induction false} KeyCharsLower(s: string)
    ensures KeyChars(ToLower(s)) == KeyChars(s)
  {
    if s != [] {
      assert ToLower(s)[1..] == ToLower(s[1..]);
      LowerCharKept(s[0]);
      KeyCharsLower(s[1..]);
    }
  }

  /** Lower-casing first does not change the key. */
  lemma NormalizeLower(s: string)
    ensures NormalizeText(ToLower(s)) == NormalizeText(s)
  {
    TrimLower(s);
    KeyCharsLower(Trim(s));
  }

  /** Normalization ignores letter case: texts that agree once lower-cased
      get the same key. */
  lemma NormalizeIgnoresCase(a: string, b: string)
    requires ToLower(a) == ToLower(b)
    ensures NormalizeText(a) == NormalizeText(b)
  {
    NormalizeLower(a);
    NormalizeLower(b);
  }
}
