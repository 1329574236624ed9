/** Filling the transcript map with translations, in subtitle/content.js:
    the merge of a translator reply inside `process`, and the parser of a
    user-supplied file of alternating lines inside `readTranslationFile`. */
module Translations {
  import opened Wrappers
  import opened Seqs
  import opened JsText
  import opened JsMap
  import opened Normalize

  /** `text.split("\n").map(s => s.trim()).filter(s => s !== "")` */
  function ReplyLines(text: string): seq<string>
  {
    TrimmedNonBlank(Split(text, '\n'))
  }

  /** Lines 2k and 2k+1 as (source, translation); a last line without a
      partner gets "" (`translatedSentences[i + 1] ?? ""`). */
  function PairUp(lines: seq<string>): (pairs: seq<(string, string)>)
    ensures |lines| <= 2 * |pairs| <= |lines| + 1
    ensures forall k :: 0 <= k < |pairs| ==>
              pairs[k] == (lines[2 * k], if 2 * k + 1 < |lines| then lines[2 * k + 1] else "")
  {
    if lines == [] then []
    else if |lines| == 1 then [(lines[0], "")]
    else [(lines[0], lines[1])] + PairUp(lines[2..])
  }

  /** The (source line, translation) pairs of a translator reply. */
  function ReplyPairs(reply: string): seq<(string, string)>
  {
    PairUp(ReplyLines(reply))
  }

  /** The transcript map after merging one reply. */
  function Merged(script: OrderedMap, reply: string): OrderedMap
  {
    SetAll(script, ReplyPairs(reply))
  }

  /** The pairs of `lines` written into `m` front to back, two lines at a
      time: the order in which the stride-2 loop of `process` visits them. */
  function WriteLines(m: OrderedMap, lines: seq<string>): OrderedMap
    decreases |lines|
  {
    if lines == [] then m
    else if |lines| == 1 then m.Set(lines[0], "")
    else WriteLines(m.Set(lines[0], lines[1]), lines[2..])
  }

  /** Writing two lines at a time from the front writes the pairs. */
  lemma {:induction false} WriteLinesPairs(m: OrderedMap, lines: seq<string>)
    ensures WriteLines(m, lines) == SetAll(m, PairUp(lines))
    decreases |lines|
  {
    if |lines| == 1 {
      assert PairUp(lines)[..0] == [];
    } else if |lines| > 1 {
      WriteLinesPairs(m.Set(lines[0], lines[1]), lines[2..]);
      SetAllCons(m, (lines[0], lines[1]), PairUp(lines[2..]));
    }
  }

  /** The stride-2 loop of `process` over the reply lines: the lines at 2k
      and 2k+1 are written as key and value, the source line verbatim (not
      normalized). */
  method MergeLines(script: OrderedMap, sentences: seq<string>) returns (merged: OrderedMap)
    ensures merged == SetAll(script, PairUp(sentences))
  {
    merged := script;
    var i := 0;
    while i < |sentences|
      invariant i <= |sentences| + 1
      invariant WriteLines(merged, sentences[Min(i, |sentences|)..]) == WriteLines(script, sentences)
    {
      var english := sentences[i];
      var korean := if i + 1 < |sentences| then sentences[i + 1] else "";
      WriteLinesStep(merged, sentences, i);
      merged := merged.Set(english, korean);
      i := i + 2;
    }
    WriteLinesPairs(script, sentences);
  }

  /** One pass of the stride-2 loop. */
  lemma WriteLinesStep(m: OrderedMap, lines: seq<string>, i: nat)
    requires i < |lines|
    ensures WriteLines(m, lines[i..])
            == WriteLines(m.Set(lines[i], if i + 1 < |lines| then lines[i + 1] else ""), lines[Min(i + 2, |lines|)..])
  {
    if i + 1 < |lines| {
      assert lines[i..][2..] == lines[i + 2..];
    }
  }

  /** One reply merged into the transcript map: split into trimmed
      non-blank lines, then paired up. */
  method MergeReply(script: OrderedMap, reply: string) returns (merged: OrderedMap)
    ensures merged == Merged(script, reply)
  {
    var sentences := ReplyLines(reply);
    merged := MergeLines(script, sentences);
  }

  /** Merging keeps every entry of the transcript map in its place, adds
      exactly the source lines of the reply that were not keys yet, keeps
      the value of every key the reply does not write, and gives a written
      key the translation of its last occurrence in the reply. */
  lemma MergedSpec(script: OrderedMap, reply: string)
    requires script.Valid()
    ensures Merged(script, reply).Valid()
    ensures |script.keys| <= |Merged(script, reply).keys|
    ensures Merged(script, reply).keys[..|script.keys|] == script.keys
    ensures forall k :: k in Merged(script, reply).values <==>
              k in script.values || k in PairKeys(ReplyPairs(reply))
    ensures forall k :: k !in PairKeys(ReplyPairs(reply)) ==>
              Merged(script, reply).Get(k) == script.Get(k)
    ensures forall j: nat :: IsLastWrite(ReplyPairs(reply), j) ==>
              Merged(script, reply).Get(ReplyPairs(reply)[j].0) == Some(ReplyPairs(reply)[j].1)
  {
    var pairs := ReplyPairs(reply);
    SetAllValid(script, pairs);
    SetAllKeys(script, pairs);
    forall k | k !in PairKeys(pairs) ensures SetAll(script, pairs).Get(k) == script.Get(k) {
      SetAllKeepsUnwritten(script, pairs, k);
    }
    forall j: nat | IsLastWrite(pairs, j)
      ensures SetAll(script, pairs).Get(pairs[j].0) == Some(pairs[j].1)
    {
      SetAllLastWriteWins(script, pairs, j);
    }
  }

  // ---------------------------------------------------------------------
  // The translation file

  /** Drops one "\r" at the end of a line. */
  function DropCarriageReturn(s: string): string
  {
    if s != [] && s[|s| - 1] == '\r' then s[..|s| - 1] else s
  }

  /** `text.split(/\r?\n/)`: split at "\n", and a "\r" just before a "\n"
      goes with it; only the last piece is not followed by a "\n". */
  function SplitLines(text: string): (lines: seq<string>)
    ensures |lines| == |Split(text, '\n')|
  {
    var pieces := Split(text, '\n');
    seq(|pieces|, i requires 0 <= i < |pieces| =>
      if i < |pieces| - 1 then DropCarriageReturn(pieces[i]) else pieces[i])
  }

  /** One line of the `forEach` in `readTranslationFile`, given the key the
      parser holds (`english`, "" for none): the key held afterwards and the
      pair written, if any. A blank line changes nothing; with no key held,
      a line becomes the key, normalized (which may leave ""); with a key
      held, the trimmed line is its translation and the slot empties. */
  function ParseLine(english: string, line: string): (string, seq<(string, string)>)
  {
    var trimmedLine := Trim(line);
    if trimmedLine == "" then (english, [])
    else if english == "" then (NormalizeText(trimmedLine), [])
    else ("", [(english, trimmedLine)])
  }

  /** The pairs the parser writes over `lines`, starting with key slot
      `english`. */
  function FilePairs(lines: seq<string>, english: string): seq<(string, string)>
  {
    if lines == [] then []
    else
      var step := ParseLine(english, lines[0]);
      step.1 + FilePairs(lines[1..], step.0)
  }

  /** The key slot after reading `lines`. */
  function PendingKey(lines: seq<string>, english: string): string
  {
    if lines == [] then english else PendingKey(lines[1..], ParseLine(english, lines[0]).0)
  }

  /** The map `readTranslationFile` resolves with. */
  function ParsedFile(text: string): OrderedMap
  {
    SetAll(Empty, FilePairs(SplitLines(text), ""))
  }

  /** The parsed map lists every key once. */
  lemma ParsedFileValid(text: string)
    ensures ParsedFile(text).Valid()
  {
    SetAllValid(Empty, FilePairs(SplitLines(text), ""));
  }

  lemma FilePairsStep(lines: seq<string>, i: nat, english: string)
    requires i < |lines|
    ensures FilePairs(lines[i..], english)
            == ParseLine(english, lines[i]).1 + FilePairs(lines[i + 1..], ParseLine(english, lines[i]).0)
  {
    assert lines[i..][1..] == lines[i + 1..];
  }

  /** The `forEach` of `readTranslationFile` over the lines of the file. */
  method ParseTranslationFile(text: string) returns (translations: OrderedMap)
    ensures translations == ParsedFile(text)
  {
    var lines := SplitLines(text);
    translations := Empty;
    var english := "";
    ghost var pairs: seq<(string, string)> := [];
    for i := 0 to |lines|
      invariant translations == SetAll(Empty, pairs)
      invariant pairs + FilePairs(lines[i..], english) == FilePairs(lines, "")
    {
      ghost var step := ParseLine(english, lines[i]);
      FilePairsStep(lines, i, english);
      var trimmedLine := Trim(lines[i]);
      if trimmedLine == "" || english == "" {
        assert step.1 == [];
        assert pairs + step.1 == pairs;
      }
      if trimmedLine != "" {
        if english == "" {
          english := NormalizeText(trimmedLine);
        } else {
          assert step.1 == [(english, trimmedLine)];
          SetAllSnoc(Empty, pairs, english, trimmedLine);
          translations := translations.Set(english, trimmedLine);
          english := "";
        }
      }
      assert english == step.0;
      ConcatAssoc(pairs, step.1, FilePairs(lines[i + 1..], english));
      pairs := pairs + step.1;
    }
    assert lines[|lines|..] == [];
    assert pairs + [] == pairs;
  }

  /** Every written pair has a non-empty key made of key characters and a
      non-blank trimmed translation. */
  lemma {:induction false} FilePairsWellFormed(lines: seq<string>, english: string)
    requires IsKey(english)
    ensures forall j :: 0 <= j < |FilePairs(lines, english)| ==>
              var (k, v) := FilePairs(lines, english)[j];
              k != "" && IsKey(k) && v != "" && IsTrimmed(v)
  {
    if lines != [] {
      var step := ParseLine(english, lines[0]);
      if Trim(lines[0]) != "" && english == "" {
        NormalizeTextIsKey(Trim(lines[0]));
      }
      FilePairsWellFormed(lines[1..], step.0);
    }
  }

  /** A key line at the very end, with no translation after it, writes
      nothing. */
  lemma {:induction false} UnpairedKeyWritesNothing(lines: seq<string>, english: string, last: string)
    requires PendingKey(lines, english) == ""
    ensures FilePairs(lines + [last], english) == FilePairs(lines, english)
  {
    if lines == [] {
      assert [last][1..] == [];
    } else {
      assert (lines + [last])[1..] == lines[1..] + [last];
      UnpairedKeyWritesNothing(lines[1..], ParseLine(english, lines[0]).0, last);
    }
  }

  /** A line with nothing left after normalization does not take the key
      slot: the next non-blank line does. */
  lemma EmptyKeyLineSkipped(line: string, rest: seq<string>)
    requires NormalizeText(Trim(line)) == ""
    ensures FilePairs([line] + rest, "") == FilePairs(rest, "")
  {
    assert ([line] + rest)[1..] == rest;
  }

  /** The lines of a file written as source line, translation, blank line
      for each pair. */
  function FileLines(pairs: seq<(string, string)>): seq<string>
  {
    if pairs == [] then [] else [pairs[0].0, pairs[0].1, ""] + FileLines(pairs[1..])
  }

  /** The pairs with each source line replaced by its key. */
  function NormalizedPairs(pairs: seq<(string, string)>): seq<(string, string)>
  {
    if pairs == [] then [] else [(NormalizeText(pairs[0].0), pairs[0].1)] + NormalizedPairs(pairs[1..])
  }

  /** A pair a file can carry: both lines trimmed and on one line, a source
      line that keeps some key character, a non-blank translation. */
  predicate WritablePair(p: (string, string))
  {
    IsTrimmed(p.0) && '\n' !in p.0 && NormalizeText(p.0) != ""
    && IsTrimmed(p.1) && '\n' !in p.1 && p.1 != ""
  }

  /** The parser's pairs over a line and the lines after it. */
  lemma FilePairsCons(line: string, rest: seq<string>, english: string)
    ensures FilePairs([line] + rest, english)
            == ParseLine(english, line).1 + FilePairs(rest, ParseLine(english, line).0)
  {
    assert ([line] + rest)[1..] == rest;
  }

  /** The three lines of one writable pair are read as that pair. */
  lemma ParsePairLines(p: (string, string), rest: seq<string>)
    requires WritablePair(p)
    ensures FilePairs([p.0, p.1, ""] + rest, "") == [(NormalizeText(p.0), p.1)] + FilePairs(rest, "")
  {
    var key := NormalizeText(p.0);
    var afterKey := [p.1, ""] + rest;
    var afterValue := [""] + rest;
    assert [p.0, p.1, ""] + rest == [p.0] + afterKey;
    assert afterKey == [p.1] + afterValue;
    assert Trim(p.0) == p.0 && p.0 != "";
    assert ParseLine("", p.0) == (key, []);
    FilePairsCons(p.0, afterKey, "");
    assert ParseLine(key, p.1) == ("", [(key, p.1)]);
    FilePairsCons(p.1, afterValue, key);
    assert ParseLine("", "") == ("", []);
    FilePairsCons("", rest, "");
  }

  lemma {:induction false} FileLinesParse(pairs: seq<(string, string)>)
    requires forall j :: 0 <= j < |pairs| ==> WritablePair(pairs[j])
    ensures FilePairs(FileLines(pairs), "") == NormalizedPairs(pairs)
  {
    if pairs != [] {
      ParsePairLines(pairs[0], FileLines(pairs[1..]));
      FileLinesParse(pairs[1..]);
    }
  }

  lemma {:induction false} FileLinesShape(pairs: seq<(string, string)>)
    requires forall j :: 0 <= j < |pairs| ==> WritablePair(pairs[j])
    ensures forall i :: 0 <= i < |FileLines(pairs)| ==>
              '\n' !in FileLines(pairs)[i] && IsTrimmed(FileLines(pairs)[i])
  {
    if pairs != [] {
      assert WritablePair(pairs[0]);
      FileLinesShape(pairs[1..]);
    }
  }

  /** Joining lines that hold no line break and end in no carriage return
      and splitting again gives the lines back. */
  lemma SplitLinesJoin(lines: seq<string>)
    requires |lines| >= 1
    requires forall i :: 0 <= i < |lines| ==> '\n' !in lines[i] && IsTrimmed(lines[i])
    ensures SplitLines(Join(lines, '\n')) == lines
  {
    SplitJoin(lines, '\n');
    forall i | 0 <= i < |lines| ensures DropCarriageReturn(lines[i]) == lines[i] {
      assert IsTrimmed(lines[i]);
    }
  }

  /** Writing pairs as a file and reading it back gives the map that sets
      each pair's key to its translation, in order. */
  lemma FileRoundTrip(pairs: seq<(string, string)>)
    requires forall j :: 0 <= j < |pairs| ==> WritablePair(pairs[j])
    ensures ParsedFile(Join(FileLines(pairs), '\n')) == SetAll(Empty, NormalizedPairs(pairs))
  {
    FileLinesParse(pairs);
    if pairs == [] {
      assert SplitLines("") == [""];
      assert FilePairs([""], "") == [];
    } else {
      FileLinesShape(pairs);
      SplitLinesJoin(FileLines(pairs));
    }
  }
}
