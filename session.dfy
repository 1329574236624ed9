/** One translation session, as `process` in subtitle/content.js runs it,
    and its caller's decision to save the result. The page's services are
    reduced to what the session observes of them: whether a stored
    translation exists for the title, the caption cues, and the reply (or
    `null`) the translation server gives to each request. What `process`
    does outside the map (the loading indicator, polling, the subtitle
    observer, the requests) is recorded as a sequence of effects. */
module Session {
  import opened Wrappers
  import opened Seqs
  import opened JsText
  import opened JsMap
  import opened Transcript
  import opened Translations

  datatype Effect =
    | ShowIndicator       // showLoadingIndicator()
    | HideIndicator       // hideLoadingIndicator()
    | StartPolling        // setupInitialPolling(map, 4000)
    | ObserveSubtitles    // autoObserveSubtitles(map, observer)
    | Fetch(text: string) // fetchScript(text, "openai")

  /** The request text of each chunk: its keys, one per line. */
  function ChunkTexts(chunks: seq<seq<string>>): seq<string>
  {
    seq(|chunks|, i requires 0 <= i < |chunks| => Join(chunks[i], '\n'))
  }

  /** The reply to each request; `fetch(i, text)` is the server's answer to
      the `i`-th request, `None` where `fetchScript` yields `null`. */
  function Replies(texts: seq<string>, fetch: (nat, string) -> Option<string>): seq<Option<string>>
  {
    seq(|texts|, i requires 0 <= i < |texts| => fetch(i, texts[i]))
  }

  /** The map after every reply that arrived is merged into it, in order;
      a `null` reply leaves it as it was. */
  function MergeReplies(script: OrderedMap, replies: seq<Option<string>>): OrderedMap
  {
    if replies == [] then script
    else
      var before := MergeReplies(script, replies[..|replies| - 1]);
      match replies[|replies| - 1]
      case Some(reply) => Merged(before, reply)
      case None => before
  }

  /** The effects of one chunk: its request, then the observer refresh;
      after the first chunk, the indicator is hidden and polling starts. */
  function Round(text: string, first: bool): seq<Effect>
  {
    [Fetch(text), ObserveSubtitles] + (if first then [HideIndicator, StartPolling] else [])
  }

  /** The effects of the chunk loop. */
  function RoundEffects(texts: seq<string>): seq<Effect>
  {
    if texts == [] then []
    else RoundEffects(texts[..|texts| - 1]) + Round(texts[|texts| - 1], |texts| == 1)
  }

  /** The request texts of a session: the transcript's chunks. */
  function SessionTexts(cues: seq<Option<string>>): seq<string>
  {
    ChunkTexts(ScriptChunks(cues))
  }

  /** What `process` returns: `undefined` when a stored translation exists,
      otherwise the transcript map with every reply merged. */
  function Outcome(stored: bool, cues: seq<Option<string>>, fetch: (nat, string) -> Option<string>): Option<OrderedMap>
  {
    if stored then None
    else Some(MergeReplies(ScriptMap(cues), Replies(SessionTexts(cues), fetch)))
  }

  /** The effects of `process`. They do not depend on the replies. */
  function Effects(stored: bool, cues: seq<Option<string>>): seq<Effect>
  {
    if stored then [ShowIndicator, HideIndicator, StartPolling, ObserveSubtitles]
    else [ShowIndicator] + RoundEffects(SessionTexts(cues))
  }

  lemma MergeRepliesStep(script: OrderedMap, replies: seq<Option<string>>, r: nat)
    requires r < |replies|
    ensures MergeReplies(script, replies[..r + 1])
            == match replies[r]
               case Some(reply) => Merged(MergeReplies(script, replies[..r]), reply)
               case None => MergeReplies(script, replies[..r])
  {
    assert replies[..r + 1][..r] == replies[..r];
  }

  lemma RoundEffectsStep(texts: seq<string>, r: nat)
    requires r < |texts|
    ensures RoundEffects(texts[..r + 1]) == RoundEffects(texts[..r]) + Round(texts[r], r == 0)
  {
    assert texts[..r + 1][..r] == texts[..r];
  }

  /** `process()`. */
  method Process(stored: bool, cues: seq<Option<string>>, fetch: (nat, string) -> Option<string>)
    returns (result: Option<OrderedMap>, effects: seq<Effect>)
    ensures result == Outcome(stored, cues, fetch)
    ensures effects == Effects(stored, cues)
  {
    var isInitialChunk := true;
    effects := [ShowIndicator];
    if stored {
      effects := effects + [HideIndicator, StartPolling, ObserveSubtitles];
      return None, effects;
    }
    var script := ExtractScript(cues);
    ScriptMapSpec(cues);
    var chunks := ScriptSlice(script, InitialChunkSize, SubsequentChunkSize);
    assert chunks == ScriptChunks(cues);
    ghost var texts := ChunkTexts(chunks);
    ghost var replies := Replies(texts, fetch);
    for r := 0 to |chunks|
      invariant script == MergeReplies(ScriptMap(cues), replies[..r])
      invariant effects == [ShowIndicator] + RoundEffects(texts[..r])
      invariant isInitialChunk <==> r == 0
    {
      MergeRepliesStep(ScriptMap(cues), replies, r);
      RoundEffectsStep(texts, r);
      ConcatAssoc([ShowIndicator], RoundEffects(texts[..r]), Round(texts[r], r == 0));
      ghost var before := effects;
      var joinedText := Join(chunks[r], '\n');
      assert joinedText == texts[r];
      effects := effects + [Fetch(joinedText)];
      var translatedText := fetch(r, joinedText);
      if translatedText.Some? {
        script := MergeReply(script, translatedText.value);
      }
      effects := effects + [ObserveSubtitles];
      if isInitialChunk {
        isInitialChunk := false;
        ConcatAssoc(before, [Fetch(texts[r]), ObserveSubtitles], [HideIndicator, StartPolling]);
        effects := effects + [HideIndicator, StartPolling];
      }
      assert effects == before + Round(texts[r], r == 0);
    }
    assert replies[..|chunks|] == replies;
    assert texts[..|chunks|] == texts;
    result := Some(script);
  }

  /** The caller saves the result only when it is a non-empty map
      (`finalTranslations && finalTranslations.size > 0`). */
  predicate Saves(result: Option<OrderedMap>)
  {
    result.Some? && result.value.Size() > 0
  }

  /** The texts requested, in order. */
  function Requests(effects: seq<Effect>): seq<string>
  {
    if effects == [] then []
    else
      var last := effects[|effects| - 1];
      Requests(effects[..|effects| - 1]) + (if last.Fetch? then [last.text] else [])
  }

  lemma {:induction false} RequestsAppend(a: seq<Effect>, b: seq<Effect>)
    ensures Requests(a + b) == Requests(a) + Requests(b)
  {
    if b != [] {
      assert (a + b)[..|a + b| - 1] == a + b[..|b| - 1];
      RequestsAppend(a, b[..|b| - 1]);
    } else {
      assert a + b == a;
    }
  }

  lemma CountTwo(a: Effect, b: Effect, e: Effect)
    ensures Count([a, b], e) == (if a == e then 1 else 0) + (if b == e then 1 else 0)
  {
    assert [a, b][..1] == [a];
    assert [a][..0] == [];
    assert Count([a], e) == if a == e then 1 else 0;
  }

  /** How often one chunk's effects hold `e`. */
  lemma RoundCount(text: string, first: bool, e: Effect)
    ensures Count(Round(text, first), e)
            == (if Fetch(text) == e then 1 else 0) + (if e == ObserveSubtitles then 1 else 0)
               + (if first && (e == HideIndicator || e == StartPolling) then 1 else 0)
  {
    CountTwo(Fetch(text), ObserveSubtitles, e);
    if first {
      CountAppend([Fetch(text), ObserveSubtitles], [HideIndicator, StartPolling], e);
      CountTwo(HideIndicator, StartPolling, e);
    } else {
      assert Round(text, first) == [Fetch(text), ObserveSubtitles];
    }
  }

  /** Over the whole loop: no further `showLoadingIndicator`, one hide and
      one polling start when there is a chunk, one observer refresh per
      chunk, and one request per chunk text. */
  lemma {:induction false} RoundEffectsCount(texts: seq<string>, e: Effect)
    ensures Count(RoundEffects(texts), e)
            == if e == ShowIndicator then 0
               else if e == HideIndicator || e == StartPolling then (if texts == [] then 0 else 1)
               else if e == ObserveSubtitles then |texts|
               else Count(texts, e.text)
  {
    if texts != [] {
      var init, last := texts[..|texts| - 1], texts[|texts| - 1];
      RoundEffectsCount(init, e);
      CountAppend(RoundEffects(init), Round(last, |texts| == 1), e);
      RoundCount(last, |texts| == 1, e);
    }
  }

  /** The requests are the chunk texts, in order. */
  lemma {:induction false} RoundEffectsRequests(texts: seq<string>)
    ensures Requests(RoundEffects(texts)) == texts
  {
    if texts != [] {
      var init, last := texts[..|texts| - 1], texts[|texts| - 1];
      var round := Round(last, |texts| == 1);
      RoundEffectsRequests(init);
      RequestsAppend(RoundEffects(init), round);
      RequestsAppend([Fetch(last), ObserveSubtitles], round[2..]);
      assert [Fetch(last), ObserveSubtitles][..1] == [Fetch(last)];
      assert [Fetch(last)][..0] == [];
      if |texts| == 1 {
        assert round[2..][..1] == [HideIndicator];
        assert [HideIndicator][..0] == [];
      } else {
        assert round[2..] == [];
      }
    }
  }

  /** The loop starts with the first chunk's request, its observer refresh,
      the hide and the polling start. */
  lemma {:induction false} RoundEffectsStart(texts: seq<string>)
    requires texts != []
    ensures |RoundEffects(texts)| >= 4 && RoundEffects(texts)[..4] == Round(texts[0], true)
  {
    var init := texts[..|texts| - 1];
    if init != [] {
      RoundEffectsStart(init);
      assert RoundEffects(texts)[..4] == RoundEffects(init)[..4];
      assert texts[0] == init[0];
    }
  }

  /** The transcript has keys exactly when there are requests to make. */
  lemma SessionTextsEmpty(cues: seq<Option<string>>)
    ensures SessionTexts(cues) == [] <==> ScriptKeys(cues) == []
  {
    ChunkSizes(ScriptKeys(cues), InitialChunkSize, SubsequentChunkSize);
  }

  lemma CountStored(e: Effect)
    ensures Count([ShowIndicator, HideIndicator, StartPolling, ObserveSubtitles], e)
            == (if e in {ShowIndicator, HideIndicator, StartPolling, ObserveSubtitles} then 1 else 0)
  {
    assert [ShowIndicator, HideIndicator, StartPolling, ObserveSubtitles]
           == [ShowIndicator, HideIndicator] + [StartPolling, ObserveSubtitles];
    CountAppend([ShowIndicator, HideIndicator], [StartPolling, ObserveSubtitles], e);
    CountTwo(ShowIndicator, HideIndicator, e);
    CountTwo(StartPolling, ObserveSubtitles, e);
  }

  /** The loading indicator is shown once and, whatever the replies, hidden
      once and polling started once: right after the first chunk's reply
      (`null` or not) has been handled, or at once when a stored
      translation exists. With no transcript at all it is never hidden. */
  lemma ReadyOnce(stored: bool, cues: seq<Option<string>>)
    ensures Count(Effects(stored, cues), ShowIndicator) == 1
    ensures Count(Effects(stored, cues), HideIndicator) == (if stored || ScriptKeys(cues) != [] then 1 else 0)
    ensures Count(Effects(stored, cues), StartPolling) == (if stored || ScriptKeys(cues) != [] then 1 else 0)
    ensures !stored && ScriptKeys(cues) != [] ==>
              |Effects(stored, cues)| >= 5
              && Effects(stored, cues)[..5]
                 == [ShowIndicator, Fetch(SessionTexts(cues)[0]), ObserveSubtitles, HideIndicator, StartPolling]
  {
    var effects := Effects(stored, cues);
    if stored {
      assert effects == [ShowIndicator, HideIndicator] + [StartPolling, ObserveSubtitles];
      CountStored(ShowIndicator);
      CountStored(HideIndicator);
      CountStored(StartPolling);
    } else {
      var texts := SessionTexts(cues);
      SessionTextsEmpty(cues);
      assert [ShowIndicator][..0] == [];
      CountAppend([ShowIndicator], RoundEffects(texts), ShowIndicator);
      CountAppend([ShowIndicator], RoundEffects(texts), HideIndicator);
      CountAppend([ShowIndicator], RoundEffects(texts), StartPolling);
      RoundEffectsCount(texts, ShowIndicator);
      RoundEffectsCount(texts, HideIndicator);
      RoundEffectsCount(texts, StartPolling);
      if texts != [] {
        RoundEffectsStart(texts);
        assert effects[..5] == [ShowIndicator] + RoundEffects(texts)[..4];
      }
    }
  }

  /** Every transcript key is requested exactly once, in transcript order:
      the requests are the chunks' texts, and the chunks together are the
      keys. The observer is refreshed once per request. */
  lemma RequestsCoverTranscript(cues: seq<Option<string>>)
    ensures Requests(Effects(false, cues)) == ChunkTexts(ScriptChunks(cues))
    ensures Flatten(ScriptChunks(cues)) == ScriptKeys(cues)
    ensures Count(Effects(false, cues), ObserveSubtitles) == |ScriptChunks(cues)|
  {
    var texts := SessionTexts(cues);
    RoundEffectsRequests(texts);
    RoundEffectsCount(texts, ObserveSubtitles);
    RequestsAppend([ShowIndicator], RoundEffects(texts));
    assert Requests([ShowIndicator]) == [] by {
      assert [ShowIndicator][..0] == [];
    }
    CountAppend([ShowIndicator], RoundEffects(texts), ObserveSubtitles);
    assert [ShowIndicator][..0] == [];
    ChunksFlatten(ScriptKeys(cues), InitialChunkSize, SubsequentChunkSize);
  }

  /** Merging replies keeps every key listed once. */
  lemma {:induction false} MergeRepliesValid(script: OrderedMap, replies: seq<Option<string>>)
    requires script.Valid()
    ensures MergeReplies(script, replies).Valid()
  {
    if replies != [] {
      MergeRepliesValid(script, replies[..|replies| - 1]);
      if replies[|replies| - 1].Some? {
        MergedSpec(MergeReplies(script, replies[..|replies| - 1]), replies[|replies| - 1].value);
      }
    }
  }

  /** Merging replies never drops or moves a key: the map's keys stay in
      front, in their order. */
  lemma {:induction false} MergeRepliesKeepsKeys(script: OrderedMap, replies: seq<Option<string>>)
    requires script.Valid()
    ensures |script.keys| <= |MergeReplies(script, replies).keys|
    ensures MergeReplies(script, replies).keys[..|script.keys|] == script.keys
  {
    if replies != [] {
      var before := MergeReplies(script, replies[..|replies| - 1]);
      MergeRepliesKeepsKeys(script, replies[..|replies| - 1]);
      MergeRepliesValid(script, replies[..|replies| - 1]);
      if replies[|replies| - 1].Some? {
        MergedSpec(before, replies[|replies| - 1].value);
      }
    }
  }

  /** The keys a reply writes (its even-numbered non-blank lines). */
  predicate Writes(reply: Option<string>, k: string)
  {
    reply.Some? && k in PairKeys(ReplyPairs(reply.value))
  }

  /** A key that no reply writes keeps its value: a transcript key whose
      translation never arrives stays "". */
  lemma {:induction false} UnwrittenKeyKept(script: OrderedMap, replies: seq<Option<string>>, k: string)
    requires script.Valid()
    requires forall i :: 0 <= i < |replies| ==> !Writes(replies[i], k)
    ensures MergeReplies(script, replies).Get(k) == script.Get(k)
  {
    if replies != [] {
      var init := replies[..|replies| - 1];
      assert forall i :: 0 <= i < |init| ==> init[i] == replies[i];
      UnwrittenKeyKept(script, init, k);
      MergeRepliesValid(script, init);
      if replies[|replies| - 1].Some? {
        MergedSpec(MergeReplies(script, init), replies[|replies| - 1].value);
      }
    }
  }

  /** Every reply is `null`: the transcript map comes back unchanged. */
  lemma {:induction false} NullRepliesChangeNothing(script: OrderedMap, replies: seq<Option<string>>)
    requires forall i :: 0 <= i < |replies| ==> replies[i].None?
    ensures MergeReplies(script, replies) == script
  {
    if replies != [] {
      NullRepliesChangeNothing(script, replies[..|replies| - 1]);
    }
  }

  /** The result is saved exactly when no stored translation existed and the
      page had a transcript, whatever the replies. */
  lemma SaveDecision(stored: bool, cues: seq<Option<string>>, fetch: (nat, string) -> Option<string>)
    ensures Saves(Outcome(stored, cues, fetch)) <==> !stored && ScriptKeys(cues) != []
  {
    if !stored {
      var replies := Replies(SessionTexts(cues), fetch);
      ScriptMapSpec(cues);
      MergeRepliesKeepsKeys(ScriptMap(cues), replies);
      SessionTextsEmpty(cues);
      if ScriptKeys(cues) == [] {
        assert replies == [];
      }
    }
  }
}
