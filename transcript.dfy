/** Turning the page's caption cues into the transcript map
    (`extractScript`) and cutting its keys into request-sized chunks
    (`scriptSlice`), both in subtitle/content.js. */
module Transcript {
  import opened Wrappers
  import opened Seqs
  import opened JsMap
  import opened Normalize

  /** The sizes `scriptSlice` uses when called with its defaults. */
  const InitialChunkSize: nat := 20
  const SubsequentChunkSize: nat := 50

  /** The key of every cue container that holds a cue-text element (`None`
      for one that does not), in page order, repetitions included. */
  function CueKeys(cues: seq<Option<string>>): seq<string>
  {
    if cues == [] then []
    else
      var last := cues[|cues| - 1];
      CueKeys(cues[..|cues| - 1]) + (if last.Some? then [NormalizeText(last.value)] else [])
  }

  /** The transcript's keys: each cue key once, at its first appearance. */
  function ScriptKeys(cues: seq<Option<string>>): seq<string>
  {
    Dedup(CueKeys(cues))
  }

  /** The map holding each of `keys` once, at its first appearance, with
      "" as its value. */
  function BlankMap(keys: seq<string>): (r: OrderedMap)
    ensures r.Valid()
  {
    OrderedMap(Dedup(keys), map k | k in Dedup(keys) :: "")
  }

  /** The transcript map: every key waits for its translation as "". */
  function ScriptMap(cues: seq<Option<string>>): OrderedMap
  {
    BlankMap(CueKeys(cues))
  }

  /** Every cue that has a text contributes its normalized text. */
  lemma {:induction false} CueKeysCoverCues(cues: seq<Option<string>>)
    ensures forall i :: 0 <= i < |cues| && cues[i].Some? ==> NormalizeText(cues[i].value) in CueKeys(cues)
  {
    if cues != [] {
      var init := cues[..|cues| - 1];
      CueKeysCoverCues(init);
      forall i | 0 <= i < |init| && cues[i].Some?
        ensures NormalizeText(cues[i].value) in CueKeys(cues)
      {
        assert cues[i] == init[i];
        assert NormalizeText(init[i].value) in CueKeys(init);
      }
    }
  }

  /** Every cue key is the normalized text of some cue. */
  lemma {:induction false} CueKeysComeFromCues(cues: seq<Option<string>>, k: string)
    requires k in CueKeys(cues)
    ensures exists i :: 0 <= i < |cues| && cues[i].Some? && NormalizeText(cues[i].value) == k
  {
    var init := cues[..|cues| - 1];
    if k in CueKeys(init) {
      CueKeysComeFromCues(init, k);
      var i :| 0 <= i < |init| && init[i].Some? && NormalizeText(init[i].value) == k;
      assert cues[i] == init[i];
    } else {
      assert cues[|cues| - 1].Some? && NormalizeText(cues[|cues| - 1].value) == k;
    }
  }

  /** The transcript's keys are pairwise distinct, are the cue keys, and keep
      the order in which each first appears on the page. */
  lemma ScriptKeysFirstAppearance(cues: seq<Option<string>>)
    ensures Distinct(ScriptKeys(cues))
    ensures forall k :: k in ScriptKeys(cues) <==> k in CueKeys(cues)
    ensures forall i, j :: 0 <= i < j < |ScriptKeys(cues)| ==>
              FirstIndex(CueKeys(cues), ScriptKeys(cues)[i]) < FirstIndex(CueKeys(cues), ScriptKeys(cues)[j])
  {
    DedupKeepsFirstAppearanceOrder(CueKeys(cues));
  }

  lemma CueKeysStep(cues: seq<Option<string>>, i: nat)
    requires i < |cues|
    ensures CueKeys(cues[..i + 1]) == CueKeys(cues[..i])
              + (if cues[i].Some? then [NormalizeText(cues[i].value)] else [])
  {
    assert cues[..i + 1][..i] == cues[..i];
  }

  /** A cue whose key is already in the transcript adds no entry and
      moves none: the map is the one without that cue. */
  lemma DuplicateCueAddsNothing(cues: seq<Option<string>>, text: string)
    requires NormalizeText(text) in CueKeys(cues)
    ensures ScriptMap(cues + [Some(text)]) == ScriptMap(cues)
  {
    var keys := CueKeys(cues);
    assert (cues + [Some(text)])[..|cues|] == cues;
    assert CueKeys(cues + [Some(text)]) == keys + [NormalizeText(text)];
    assert (keys + [NormalizeText(text)])[..|keys|] == keys;
  }

  /** Setting one more key to "" extends the blank map by that key. */
  lemma BlankMapSnoc(keys: seq<string>, key: string)
    ensures BlankMap(keys + [key]) == BlankMap(keys).Set(key, "")
  {
    assert (keys + [key])[..|keys|] == keys;
  }

  /** `extractScript`: `scriptMap.set(normalizeText(text), "")` for every cue
      text in page order. A later duplicate rewrites "" and adds nothing. */
  method ExtractScript(cues: seq<Option<string>>) returns (script: OrderedMap)
    ensures script == ScriptMap(cues)
  {
    script := Empty;
    for i := 0 to |cues|
      invariant script == BlankMap(CueKeys(cues[..i]))
    {
      CueKeysStep(cues, i);
      match cues[i] {
        case Some(text) =>
          var key := NormalizeText(text);
          BlankMapSnoc(CueKeys(cues[..i]), key);
          script := script.Set(key, "");
        case None =>
          assert CueKeys(cues[..i + 1]) == CueKeys(cues[..i]);
      }
    }
    assert cues[..|cues|] == cues;
  }

  /** The transcript map lists the transcript's keys, each waiting for its
      translation as "". */
  lemma ScriptMapSpec(cues: seq<Option<string>>)
    ensures ScriptMap(cues).Valid()
    ensures ScriptMap(cues).keys == ScriptKeys(cues)
    ensures forall k :: ScriptMap(cues).Get(k) == if k in CueKeys(cues) then Some("") else None
  {
    ScriptKeysFirstAppearance(cues);
  }

  /** Consecutive runs of `size` keys; only the last run may be shorter. */
  function LaterChunks(keys: seq<string>, size: nat): seq<seq<string>>
    requires size > 0 || keys == []
    decreases |keys|
  {
    if keys == [] then []
    else
      var n := Min(size, |keys|);
      [keys[..n]] + LaterChunks(keys[n..], size)
  }

  /** The chunks of `keys`: up to `initial` keys first, then runs of `size`. */
  function Chunks(keys: seq<string>, initial: nat, size: nat): seq<seq<string>>
    requires size > 0 || |keys| <= initial
  {
    if keys == [] then []
    else
      var n := Min(initial, |keys|);
      [keys[..n]] + LaterChunks(keys[n..], size)
  }

  /** The chunks of the transcript's keys with the default sizes. */
  function ScriptChunks(cues: seq<Option<string>>): seq<seq<string>>
  {
    Chunks(ScriptKeys(cues), InitialChunkSize, SubsequentChunkSize)
  }

  /** `scriptSlice`: `transcript.slice(start, end)` until `start` passes the
      last key. The loop ends only if `subsequentChunkSize` is positive or
      the first chunk already takes every key. */
  method ScriptSlice(script: OrderedMap, initialChunkSize: nat, subsequentChunkSize: nat)
    returns (chunks: seq<seq<string>>)
    requires subsequentChunkSize > 0 || |script.keys| <= initialChunkSize
    ensures chunks == Chunks(script.keys, initialChunkSize, subsequentChunkSize)
  {
    var transcript := script.keys;
    var n := |transcript|;
    chunks := [];
    var start: nat := 0;
    var end: nat := initialChunkSize;
    ghost var first := true;
    while start < n
      invariant first ==> start == 0 && end == initialChunkSize && chunks == []
      invariant !first ==> start >= initialChunkSize && end == start + subsequentChunkSize
      invariant !first ==> chunks + LaterChunks(transcript[Min(start, n)..], subsequentChunkSize)
                           == Chunks(transcript, initialChunkSize, subsequentChunkSize)
      decreases n - start, if first then 1 else 0
    {
      SliceStep(transcript, chunks, start, end, initialChunkSize, subsequentChunkSize, first);
      var chunk := Slice(transcript, start, end);
      chunks := chunks + [chunk];
      start := end;
      end := if start == initialChunkSize then start + subsequentChunkSize else end + subsequentChunkSize;
      first := false;
    }
    if !first {
      assert transcript[Min(start, n)..] == [];
    }
  }

  /** One pass of the `scriptSlice` loop keeps the chunks pushed so far,
      followed by the chunks of the keys not yet sliced, equal to all the
      chunks. */
  lemma SliceStep(keys: seq<string>, chunks: seq<seq<string>>, start: nat, end: nat,
                  initial: nat, size: nat, first: bool)
    requires start < |keys| && (size > 0 || |keys| <= initial)
    requires first ==> start == 0 && end == initial && chunks == []
    requires !first ==> start >= initial && end == start + size
    requires !first ==> chunks + LaterChunks(keys[Min(start, |keys|)..], size) == Chunks(keys, initial, size)
    ensures chunks + [Slice(keys, start, end)] + LaterChunks(keys[Min(end, |keys|)..], size)
            == Chunks(keys, initial, size)
  {
    if !first {
      LaterChunksStep(keys, start, size);
      ConcatAssoc(chunks, [Slice(keys, start, end)], LaterChunks(keys[Min(end, |keys|)..], size));
    }
  }

  /** One more `slice(start, start + size)` peels the next run off. */
  lemma LaterChunksStep(keys: seq<string>, start: nat, size: nat)
    requires start < |keys| && size > 0
    ensures LaterChunks(keys[start..], size)
            == [Slice(keys, start, start + size)] + LaterChunks(keys[Min(start + size, |keys|)..], size)
  {
    var n := Min(size, |keys| - start);
    assert keys[start..][..n] == Slice(keys, start, start + size);
    assert keys[start..][n..] == keys[Min(start + size, |keys|)..];
  }

  lemma {:induction false} LaterChunksFlatten(keys: seq<string>, size: nat)
    requires size > 0 || keys == []
    ensures Flatten(LaterChunks(keys, size)) == keys
    decreases |keys|
  {
    if keys != [] {
      var n := Min(size, |keys|);
      LaterChunksFlatten(keys[n..], size);
      FlattenCons(keys[..n], LaterChunks(keys[n..], size));
      assert keys[..n] + keys[n..] == keys;
    }
  }

  /** The chunks, concatenated in order, are the keys: no key is lost,
      repeated or moved. */
  lemma ChunksFlatten(keys: seq<string>, initial: nat, size: nat)
    requires size > 0 || |keys| <= initial
    ensures Flatten(Chunks(keys, initial, size)) == keys
  {
    if keys != [] {
      var n := Min(initial, |keys|);
      LaterChunksFlatten(keys[n..], size);
      FlattenCons(keys[..n], LaterChunks(keys[n..], size));
      assert keys[..n] + keys[n..] == keys;
    }
  }

  lemma {:induction false} LaterChunksSizes(keys: seq<string>, size: nat)
    requires size > 0 || keys == []
    ensures forall i :: 0 <= i < |LaterChunks(keys, size)| ==> 0 < |LaterChunks(keys, size)[i]| <= size
    ensures forall i :: 0 <= i < |LaterChunks(keys, size)| - 1 ==> |LaterChunks(keys, size)[i]| == size
    decreases |keys|
  {
    if keys != [] {
      var n := Min(size, |keys|);
      LaterChunksSizes(keys[n..], size);
      if n < size {
        assert keys[n..] == [];
      }
    }
  }

  /** There are chunks exactly when there are keys; the first chunk holds
      `initial` keys (or all of them, if fewer); every later chunk is
      non-empty and holds at most `size` keys, and all but the last exactly
      `size`. */
  lemma ChunkSizes(keys: seq<string>, initial: nat, size: nat)
    requires size > 0 || |keys| <= initial
    ensures Chunks(keys, initial, size) == [] <==> keys == []
    ensures Chunks(keys, initial, size) != [] ==> |Chunks(keys, initial, size)[0]| == Min(initial, |keys|)
    ensures forall i :: 1 <= i < |Chunks(keys, initial, size)| ==> 0 < |Chunks(keys, initial, size)[i]| <= size
    ensures forall i :: 1 <= i < |Chunks(keys, initial, size)| - 1 ==> |Chunks(keys, initial, size)[i]| == size
  {
    if keys != [] {
      var n := Min(initial, |keys|);
      var later := LaterChunks(keys[n..], size);
      LaterChunksSizes(keys[n..], size);
      ConsIndex(keys[..n], later);
    }
  }
}
