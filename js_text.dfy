/** The JavaScript string built-ins the extension relies on, over strings of
    Unicode scalar values: `trim`, `split` on a one-character separator,
    `join`, `startsWith`, `indexOf` and the UTF-16 `length`. */
module JsText {

  /** The characters that `String.prototype.trim` removes and that the
      regular-expression class `\s` matches: the ECMAScript WhiteSpace and
      LineTerminator code points. */
  predicate IsSpace(c: char)
  {
    || c == '\t' || c == '\n' || c == '\U{B}' || c == '\U{C}' || c == '\r'
    || c == ' ' || c == '\U{A0}' || c == '\U{1680}'
    || ('\U{2000}' <= c <= '\U{200A}')
    || c == '\U{2028}' || c == '\U{2029}' || c == '\U{202F}' || c == '\U{205F}'
    || c == '\U{3000}' || c == '\U{FEFF}'
  }

  predicate AllSpace(s: string)
  {
    forall i :: 0 <= i < |s| ==> IsSpace(s[i])
  }

  /** Neither end of `s` is white space. */
  predicate IsTrimmed(s: string)
  {
    s == [] || (!IsSpace(s[0]) && !IsSpace(s[|s| - 1]))
  }

  /** `s.trim()`: `s` without the white space at either end. */
  function Trim(s: string): (r: string)
    ensures IsTrimmed(r)
    ensures |r| <= |s|
  {
    if s == [] then []
    else if IsSpace(s[0]) then Trim(s[1..])
    else if IsSpace(s[|s| - 1]) then Trim(s[..|s| - 1])
    else s
  }

  /** A string with no white space at either end is left as it is. */
  lemma TrimFixesTrimmed(s: string)
    requires IsTrimmed(s)
    ensures Trim(s) == s
  {
  }

  /** `Trim(s)` is `s[i..j]`, with only white space before `i` and from `j` on. */
  ghost predicate TrimsTo(s: string, i: nat, j: nat)
  {
    i <= j <= |s| && Trim(s) == s[i..j]
    && (forall k :: 0 <= k < i ==> IsSpace(s[k]))
    && (forall k :: j <= k < |s| ==> IsSpace(s[k]))
  }

  /** Trimming removes white space at the two ends and nothing else: the
      result is a slice of `s` with only white space before and after it. */
  lemma {:induction false} TrimRemovesOnlyEndSpace(s: string)
    ensures exists i, j :: TrimsTo(s, i, j)
  {
    if s == [] {
      assert TrimsTo(s, 0, 0);
    } else if IsSpace(s[0]) {
      TrimRemovesOnlyEndSpace(s[1..]);
      var i, j :| TrimsTo(s[1..], i, j);
      TrimsToFront(s, i, j);
    } else if IsSpace(s[|s| - 1]) {
      TrimRemovesOnlyEndSpace(s[..|s| - 1]);
      var i, j :| TrimsTo(s[..|s| - 1], i, j);
      TrimsToBack(s, i, j);
    } else {
      assert s[0..|s|] == s;
      assert TrimsTo(s, 0, |s|);
    }
  }

  lemma TrimsToFront(s: string, i: nat, j: nat)
    requires s != [] && IsSpace(s[0]) && TrimsTo(s[1..], i, j)
    ensures TrimsTo(s, i + 1, j + 1)
  {
    var t := s[1..];
    assert t[i..j] == s[i + 1..j + 1];
    forall k | 1 <= k < i + 1 ensures IsSpace(s[k]) {
      assert s[k] == t[k - 1];
    }
    forall k | j + 1 <= k < |s| ensures IsSpace(s[k]) {
      assert s[k] == t[k - 1];
    }
  }

  lemma TrimsToBack(s: string, i: nat, j: nat)
    requires s != [] && !IsSpace(s[0]) && IsSpace(s[|s| - 1]) && TrimsTo(s[..|s| - 1], i, j)
    ensures TrimsTo(s, i, j)
  {
    var t := s[..|s| - 1];
    assert t[0] == s[0];
    assert i == 0;
    assert t[i..j] == s[i..j];
    forall k | j <= k < |s| - 1 ensures IsSpace(s[k]) {
      assert s[k] == t[k];
    }
  }

  /** Trimming only removes characters. */
  lemma {:induction false} TrimKeepsCharacters(s: string)
    ensures forall c :: c in Trim(s) ==> c in s
  {
    if s == [] {
    } else if IsSpace(s[0]) {
      TrimKeepsCharacters(s[1..]);
    } else if IsSpace(s[|s| - 1]) {
      TrimKeepsCharacters(s[..|s| - 1]);
    }
  }

  /** Trimming leaves nothing exactly when the string is all white space. */
  lemma {:induction false} TrimEmptyIffAllSpace(s: string)
    ensures Trim(s) == [] <==> AllSpace(s)
  {
    if s == [] {
    } else if IsSpace(s[0]) {
      TrimEmptyIffAllSpace(s[1..]);
      assert AllSpace(s) <==> AllSpace(s[1..]) by {
        if AllSpace(s[1..]) {
          forall i | 0 <= i < |s| ensures IsSpace(s[i]) {
            if i > 0 { assert s[i] == s[1..][i - 1]; }
          }
        }
      }
    } else if IsSpace(s[|s| - 1]) {
      TrimEmptyIffAllSpace(s[..|s| - 1]);
      assert !IsSpace(s[..|s| - 1][0]);
    }
  }

  /** `pieces.map(p => p.trim()).filter(Boolean)`: the trimmed pieces that
      are not empty, in order. */
  function TrimmedNonBlank(pieces: seq<string>): (r: seq<string>)
    ensures |r| <= |pieces|
    ensures forall i :: 0 <= i < |r| ==> r[i] != [] && IsTrimmed(r[i])
  {
    if pieces == [] then []
    else
      var t := Trim(pieces[0]);
      (if t == [] then [] else [t]) + TrimmedNonBlank(pieces[1..])
  }

  /** `s.split(d)` for a one-character separator `d`: the maximal runs
      between separators, at least one (an empty string splits to `[""]`). */
  function Split(s: string, d: char): (r: seq<string>)
    ensures |r| >= 1
    ensures forall i :: 0 <= i < |r| ==> d !in r[i]
  {
    if s == [] then [[]]
    else
      var rest := Split(s[1..], d);
      if s[0] == d then [[]] + rest else [[s[0]] + rest[0]] + rest[1..]
  }

  /** `parts.join(d)`. */
  function Join(parts: seq<string>, d: char): string
  {
    if parts == [] then []
    else if |parts| == 1 then parts[0]
    else parts[0] + [d] + Join(parts[1..], d)
  }

  lemma {:induction false} SplitNoSeparator(s: string, d: char)
    requires d !in s
    ensures Split(s, d) == [s]
  {
    if s != [] {
      SplitNoSeparator(s[1..], d);
      assert s[0] in s;
      assert [s[0]] + s[1..] == s;
    }
  }

  lemma {:induction false} SplitAtSeparator(p: string, d: char, rest: string)
    requires d !in p
    ensures Split(p + [d] + rest, d) == [p] + Split(rest, d)
  {
    if p == [] {
      assert (p + [d] + rest)[1..] == rest;
    } else {
      assert (p + [d] + rest)[1..] == p[1..] + [d] + rest;
      assert (p + [d] + rest)[0] == p[0] && p[0] in p;
      SplitAtSeparator(p[1..], d, rest);
      assert [p[0]] + p[1..] == p;
    }
  }

  /** Splitting undoes joining when no part contains the separator. */
  lemma {:induction false} SplitJoin(parts: seq<string>, d: char)
    requires |parts| >= 1
    requires forall i :: 0 <= i < |parts| ==> d !in parts[i]
    ensures Split(Join(parts, d), d) == parts
  {
    if |parts| == 1 {
      SplitNoSeparator(parts[0], d);
    } else {
      SplitJoin(parts[1..], d);
      SplitAtSeparator(parts[0], d, Join(parts[1..], d));
    }
  }

  /** Joining undoes splitting. */
  lemma {:induction false} JoinSplit(s: string, d: char)
    ensures Join(Split(s, d), d) == s
  {
    if s != [] {
      JoinSplit(s[1..], d);
      var rest := Split(s[1..], d);
      if s[0] != d && |rest| > 1 {
        assert Join(rest, d) == rest[0] + [d] + Join(rest[1..], d);
      }
    }
  }

  /** `s.startsWith(p)`. */
  predicate StartsWith(s: string, p: string)
  {
    |p| <= |s| && s[..|p|] == p
  }

  predicate OccursAt(s: string, pat: string, i: int)
  {
    0 <= i && i + |pat| <= |s| && s[i..i + |pat|] == pat
  }

  /** `s.indexOf(pat, from)`: the first position from `from` on where `pat`
      occurs, or -1. */
  function IndexOfFrom(s: string, pat: string, from: nat): (r: int)
    ensures r == -1 || (from <= r && OccursAt(s, pat, r))
    decreases |s| - from
  {
    if |s| < from + |pat| then -1
    else if OccursAt(s, pat, from) then from
    else IndexOfFrom(s, pat, from + 1)
  }

  /** `s.indexOf(pat)`: the first position where `pat` occurs, or -1. */
  function IndexOf(s: string, pat: string): (r: int)
    ensures -1 <= r
    ensures r >= 0 ==> OccursAt(s, pat, r)
  {
    IndexOfFrom(s, pat, 0)
  }

  lemma {:induction false} IndexOfFromFirst(s: string, pat: string, from: nat)
    ensures IndexOfFrom(s, pat, from) >= 0 ==>
              forall j :: from <= j < IndexOfFrom(s, pat, from) ==> !OccursAt(s, pat, j)
    ensures IndexOfFrom(s, pat, from) < 0 ==> forall j :: from <= j ==> !OccursAt(s, pat, j)
    decreases |s| - from
  {
    if |s| >= from + |pat| && !OccursAt(s, pat, from) {
      IndexOfFromFirst(s, pat, from + 1);
    }
  }

  /** `indexOf` finds the first occurrence, and -1 means there is none. */
  lemma IndexOfFirst(s: string, pat: string)
    ensures IndexOf(s, pat) >= 0 ==> forall j :: 0 <= j < IndexOf(s, pat) ==> !OccursAt(s, pat, j)
    ensures IndexOf(s, pat) < 0 ==> forall j :: !OccursAt(s, pat, j)
  {
    IndexOfFromFirst(s, pat, 0);
  }
  /** An occurrence with none before it is the one `indexOf` finds. */
  lemma IndexOfIs(s: string, pat: string, i: nat)
    requires OccursAt(s, pat, i)
    requires forall j :: 0 <= j < i ==> !OccursAt(s, pat, j)
    ensures IndexOf(s, pat) == i
  {
    IndexOfFirst(s, pat);
  }


  /** `s.length`: the number of UTF-16 code units, two for a character
      outside the Basic Multilingual Plane. */
  function Utf16Length(s: string): (n: nat)
    ensures |s| <= n <= 2 * |s|
  {
    if s == [] then 0
    else Utf16Length(s[..|s| - 1]) + (if s[|s| - 1] as int > 0xFFFF then 2 else 1)
  }
}
