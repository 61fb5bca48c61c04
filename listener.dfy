/** The parallel listener's transcript consumer: every recognition event is
    normalised, gated on the agent's speaking state, run through the word
    filter, and answered with a forced interrupt when it holds a substantive
    word. The agent state is the value read when the event was handled, so it
    travels with the event. */
module Listener {
  import opened Text
  import opened WordFilter
  import Config

  /** One recognition event: the texts of its alternative hypotheses, best
      first, and the agent state observed while handling it. */
  datatype TranscriptEvent = TranscriptEvent(alternatives: seq<string>, agentState: string)

  /** What the loop does with one event: one of the three skips, a
      backchannel that is left alone, or an interrupt. */
  datatype Decision = NoAlternatives | EmptyText | NotSpeaking | Backchannel | Interrupt

  /** `interrupt(force=True)` as issued for the event at position `fragment`
      of the stream. */
  datatype InterruptSignal = InterruptSignal(force: bool, fragment: nat)

  const Speaking: string := "speaking"

  /** The decision for one event, in the order the checks are made: an
      event without hypotheses, or whose top hypothesis is blank or only
      whitespace, is skipped before anything else is looked at. */
  function Decide(event: TranscriptEvent, ignore: set<string>): (d: Decision)
    ensures d == NoAlternatives <==> event.alternatives == []
    ensures d == EmptyText <==> event.alternatives != [] && AllSpace(event.alternatives[0])
  {
    if event.alternatives == [] then NoAlternatives
    else
      NormalizeEmptyIff(event.alternatives[0]);
      Classify(Normalize(event.alternatives[0]), event.agentState, ignore)
  }

  /** The checks made on the normalised top hypothesis: empty text is
      skipped, then a non-speaking agent, and a speaking agent is
      interrupted exactly when some token is outside the ignore set. */
  function Classify(text: string, agentState: string, ignore: set<string>): (d: Decision)
    ensures d != NoAlternatives
    ensures d == EmptyText <==> text == []
    ensures d == NotSpeaking <==> text != [] && agentState != Speaking
    ensures d == Interrupt <==>
              text != [] && agentState == Speaking && exists w :: w in Words(text) && w !in ignore
  {
    if text == [] then EmptyText
    else if agentState != Speaking then NotSpeaking
    else if IsSubstantive(text, ignore) then Interrupt
    else Backchannel
  }

  /** Whether the event is answered with an interrupt; only an event with a
      top hypothesis that is not all whitespace, heard while the agent is
      speaking, can be. */
  predicate Fires(event: TranscriptEvent, ignore: set<string>)
    ensures Fires(event, ignore) ==>
              event.alternatives != [] && event.agentState == Speaking
              && !AllSpace(event.alternatives[0])
  {
    Decide(event, ignore) == Interrupt
  }

  /** Positions, in order, at which `flags` holds. */
  function Positions(flags: seq<bool>): (ps: seq<nat>)
    ensures forall k :: 0 <= k < |ps| ==> ps[k] < |flags| && flags[ps[k]]
    ensures forall k, l :: 0 <= k < l < |ps| ==> ps[k] < ps[l]
  {
    if flags == [] then []
    else
      var last := |flags| - 1;
      var init := flags[..last];
      assert forall j :: 0 <= j < last ==> init[j] == flags[j];
      Positions(init) + if flags[last] then [last] else []
  }

  /** Extending the flags by one adds its position when it holds. */
  lemma PositionsSnoc(flags: seq<bool>, i: nat)
    requires i < |flags|
    ensures Positions(flags[..i + 1]) == Positions(flags[..i]) + if flags[i] then [i] else []
  {
    assert flags[..i + 1][..i] == flags[..i];
  }

  /** No position is listed when `flags` never holds. */
  lemma {:induction false} PositionsNone(flags: seq<bool>)
    requires forall i :: 0 <= i < |flags| ==> !flags[i]
    ensures Positions(flags) == []
    decreases |flags|
  {
    if flags != [] {
      PositionsNone(flags[..|flags| - 1]);
    }
  }

  /** Every position at which `flags` holds is listed. */
  lemma {:induction false} PositionsComplete(flags: seq<bool>)
    ensures forall i :: 0 <= i < |flags| && flags[i] ==> i in Positions(flags)
    decreases |flags|
  {
    if flags != [] {
      var last := |flags| - 1;
      var init := flags[..last];
      PositionsComplete(init);
      assert forall j :: 0 <= j < last ==> init[j] == flags[j];
    }
  }

  /** As many positions are listed as there are positions where `flags`
      holds. */
  lemma {:induction false} PositionsCount(flags: seq<bool>)
    ensures |Positions(flags)| == |set i: nat | i < |flags| && flags[i]|
    decreases |flags|
  {
    if flags != [] {
      var last := |flags| - 1;
      var init := flags[..last];
      PositionsCount(init);
      var before := set i: nat | i < |init| && init[i];
      var now := set i: nat | i < |flags| && flags[i];
      assert forall i: nat :: i in now <==> i in before || (i == last && flags[last]);
      if flags[last] {
        assert last !in before;
        assert now == before + {last};
      } else {
        assert now == before;
      }
    }
  }

  /** Whether each event of the stream warrants an interrupt. */
  function Verdicts(events: seq<TranscriptEvent>, ignore: set<string>): (flags: seq<bool>)
    ensures |flags| == |events|
    ensures forall i :: 0 <= i < |events| ==> flags[i] == Fires(events[i], ignore)
  {
    seq(|events|, i requires 0 <= i < |events| => Fires(events[i], ignore))
  }

  /** Positions, in stream order, of the events that warrant an interrupt. */
  function FiringIndices(events: seq<TranscriptEvent>, ignore: set<string>): seq<nat>
  {
    Positions(Verdicts(events, ignore))
  }

  /** The interrupts issued for the given stream positions, one each. */
  function Signals(fragments: seq<nat>): (signals: seq<InterruptSignal>)
    ensures |signals| == |fragments|
    ensures forall k :: 0 <= k < |fragments| ==> signals[k] == InterruptSignal(true, fragments[k])
  {
    if fragments == [] then []
    else
      var last := |fragments| - 1;
      Signals(fragments[..last]) + [InterruptSignal(true, fragments[last])]
  }

  /** The checks of one iteration, one at a time, as `Fires` makes them. */
  lemma FiresSteps(event: TranscriptEvent, ignore: set<string>)
    ensures event.alternatives == [] ==> !Fires(event, ignore)
    ensures event.alternatives != [] && Normalize(event.alternatives[0]) == [] ==> !Fires(event, ignore)
    ensures event.agentState != Speaking ==> !Fires(event, ignore)
    ensures event.alternatives != [] && Normalize(event.alternatives[0]) != [] && event.agentState == Speaking ==>
              (Fires(event, ignore) <==> Remaining(Words(Normalize(event.alternatives[0])), ignore) != [])
  {
  }

  /** The loop over the recognition stream: every event that warrants it
      produces a forced interrupt, in stream order. */
  method ManualListeningLoop(events: seq<TranscriptEvent>, ignore: set<string>)
    returns (interrupts: seq<InterruptSignal>)
    ensures interrupts == Signals(FiringIndices(events, ignore))
  {
    interrupts := [];
    ghost var verdicts := Verdicts(events, ignore);
    ghost var fired: seq<nat> := [];
    for i := 0 to |events|
      invariant fired == Positions(verdicts[..i])
      invariant interrupts == Signals(fired)
    {
      var event := events[i];
      PositionsSnoc(verdicts, i);
      FiresSteps(event, ignore);
      if event.alternatives == [] {
        continue;
      }
      var text := Normalize(event.alternatives[0]);
      if text == [] {
        continue;
      }
      if event.agentState != Speaking {
        continue;
      }
      var words := Words(text);
      var remaining := Remaining(words, ignore);
      if remaining != [] {
        interrupts := interrupts + [InterruptSignal(true, i)];
        fired := fired + [i];
      }
    }
    assert verdicts[..|events|] == verdicts;
  }

  // ---------------------------------------------------------------------------
  // Properties of the interrupt log

  /** Every logged position is an event of the stream that warrants an
      interrupt, positions only increase, so each event causes at most one
      interrupt and they follow stream order, and every event that warrants
      one is logged. */
  lemma FiringIndicesExact(events: seq<TranscriptEvent>, ignore: set<string>)
    ensures forall k :: 0 <= k < |FiringIndices(events, ignore)| ==>
              FiringIndices(events, ignore)[k] < |events|
              && Fires(events[FiringIndices(events, ignore)[k]], ignore)
    ensures forall k, l :: 0 <= k < l < |FiringIndices(events, ignore)| ==>
              FiringIndices(events, ignore)[k] < FiringIndices(events, ignore)[l]
    ensures forall i :: 0 <= i < |events| && Fires(events[i], ignore) ==> i in FiringIndices(events, ignore)
  {
    PositionsComplete(Verdicts(events, ignore));
  }

  /** The events of a stream that warrant an interrupt. */
  ghost function FiringEvents(events: seq<TranscriptEvent>, ignore: set<string>): set<nat>
  {
    set i: nat | i < |events| && Fires(events[i], ignore)
  }

  /** The number of interrupts equals the number of events that are
      speaking, non-blank and substantive. */
  lemma FiringIndicesCount(events: seq<TranscriptEvent>, ignore: set<string>)
    ensures |FiringIndices(events, ignore)| == |FiringEvents(events, ignore)|
  {
    var flags := Verdicts(events, ignore);
    PositionsCount(flags);
    assert (set i: nat | i < |flags| && flags[i]) == FiringEvents(events, ignore);
  }

  /** While the agent is never speaking, the stream causes no interrupt. */
  lemma SilentAgentNeverInterrupted(events: seq<TranscriptEvent>, ignore: set<string>)
    requires forall i :: 0 <= i < |events| ==> events[i].agentState != Speaking
    ensures FiringIndices(events, ignore) == []
  {
    var flags := Verdicts(events, ignore);
    assert forall i :: 0 <= i < |flags| ==> !flags[i];
    PositionsNone(flags);
  }

  // ---------------------------------------------------------------------------
  // Properties of a single decision

  /** An event fires exactly when it has a top hypothesis, the agent is
      speaking, and some token of the normalised hypothesis is not in the
      ignore set. */
  lemma FiresIff(event: TranscriptEvent, ignore: set<string>)
    ensures Fires(event, ignore) <==>
              event.alternatives != [] && event.agentState == Speaking
              && exists w :: w in Words(Normalize(event.alternatives[0])) && w !in ignore
  {
    if event.alternatives != [] && Normalize(event.alternatives[0]) == [] {
      assert Words([]) == [];
    }
  }

  /** The decision depends only on the normalised top hypothesis and the
      agent state. */
  lemma DecisionDependsOnNormalizedText(e1: TranscriptEvent, e2: TranscriptEvent, ignore: set<string>)
    requires e1.alternatives != [] && e2.alternatives != []
    requires Normalize(e1.alternatives[0]) == Normalize(e2.alternatives[0])
    requires e1.agentState == e2.agentState
    ensures Decide(e1, ignore) == Decide(e2, ignore)
  {
  }

  /** Normalising the top hypothesis again does not change the decision. */
  lemma DecisionStableUnderRenormalization(event: TranscriptEvent, ignore: set<string>)
    requires event.alternatives != []
    ensures Decide(TranscriptEvent([Normalize(event.alternatives[0])] + event.alternatives[1..], event.agentState), ignore)
            == Decide(event, ignore)
  {
    var again := TranscriptEvent([Normalize(event.alternatives[0])] + event.alternatives[1..], event.agentState);
    NormalizeIdempotent(event.alternatives[0]);
    DecisionDependsOnNormalizedText(again, event, ignore);
  }

  /** A phrase of words, in any case and with any whitespace around it,
      spoken while the agent is speaking: it is a backchannel exactly when
      the lower-case form of every word is in the ignore set, and an
      interrupt otherwise. */
  lemma PaddedPhraseDecision(ws: seq<string>, pre: string, post: string, ignore: set<string>)
    requires ws != []
    requires forall w :: w in ws ==> w != [] && NoSpace(w)
    requires AllSpace(pre) && AllSpace(post)
    ensures Decide(TranscriptEvent([pre + Join(ws, ' ') + post], Speaking), ignore)
            == if forall w :: w in ws ==> Lower(w) in ignore then Backchannel else Interrupt
  {
    var event := TranscriptEvent([pre + Join(ws, ' ') + post], Speaking);
    NormalizePaddedPhrase(ws, pre, post);
    var text := Normalize(event.alternatives[0]);
    assert text != [] by {
      LowerAllWords(ws);
      JoinWordsStripped(LowerAll(ws));
    }
    SpeakingDecision(text, ignore);
    LoweredAllIgnored(ws, ignore);
  }

  /** A non-blank normalised text heard while the agent speaks is a
      backchannel exactly when every one of its tokens is ignored. */
  lemma SpeakingDecision(text: string, ignore: set<string>)
    requires text != []
    ensures Classify(text, Speaking, ignore)
            == if forall w :: w in Words(text) ==> w in ignore then Backchannel else Interrupt
  {
  }

  /** Every lower-cased word is ignored exactly when the lower-case form of
      every word is. */
  lemma LoweredAllIgnored(ws: seq<string>, ignore: set<string>)
    ensures (forall w :: w in LowerAll(ws) ==> w in ignore) <==> (forall w :: w in ws ==> Lower(w) in ignore)
  {
    var lowered := LowerAll(ws);
    if forall w :: w in ws ==> Lower(w) in ignore {
      forall w | w in lowered ensures w in ignore {
        var k :| 0 <= k < |ws| && lowered[k] == w;
        assert ws[k] in ws;
      }
    }
    if forall w :: w in lowered ==> w in ignore {
      forall w | w in ws ensures Lower(w) in ignore {
        var k :| 0 <= k < |ws| && ws[k] == w;
        assert lowered[k] in lowered;
      }
    }
  }

  // ---------------------------------------------------------------------------
  // Scenarios against the built-in ignore set

  /** A single lower-case word spoken while the agent speaks. */
  lemma SingleWordDecision(w: string, ignore: set<string>)
    requires w != [] && NoSpace(w) && NoUpper(w)
    ensures Decide(TranscriptEvent([w], Speaking), ignore) == if w in ignore then Backchannel else Interrupt
  {
    assert Join([w], ' ') == w;
    assert [] + w + [] == w;
    LowerFixed(w);
    PaddedPhraseDecision([w], [], [], ignore);
  }

  /** A phrase spoken while the agent speaks interrupts as soon as one of
      its words is lower-case and not ignored. */
  lemma PhraseInterrupts(ws: seq<string>, w: string, ignore: set<string>)
    requires forall v :: v in ws ==> v != [] && NoSpace(v)
    requires w in ws && NoUpper(w) && w !in ignore
    ensures Decide(TranscriptEvent([Join(ws, ' ')], Speaking), ignore) == Interrupt
  {
    assert [] + Join(ws, ' ') + [] == Join(ws, ' ');
    LowerFixed(w);
    PaddedPhraseDecision(ws, [], [], ignore);
  }

  // `ScenarioWords`, `JoinYeahButWait` and `JoinStopThat` state facts about
  // the scenario strings; kept apart, they keep each scenario proof within
  // the solver's resource budget.

  /** The words of the scenarios below are single lower-case tokens, and
      `but` and `stop` are not built-in ignore words. */
  lemma ScenarioWords()
    ensures NoSpace("yeah") && NoUpper("yeah") && NoSpace("yeah.") && NoUpper("yeah.")
    ensures NoSpace("hmm.") && NoUpper("hmm.")
    ensures NoSpace("but") && NoUpper("but") && NoSpace("wait") && NoSpace("stop") && NoUpper("stop")
    ensures NoSpace("that")
    ensures "but" !in Config.DefaultIgnoreWords && "stop" !in Config.DefaultIgnoreWords
  {
  }

  /** Tokens match the ignore set exactly: `"yeah."` is a backchannel,
      `"yeah"` without the period interrupts. */
  lemma ExactTokenMatch()
    ensures Decide(TranscriptEvent(["yeah."], Speaking), Config.DefaultIgnoreWords) == Backchannel
    ensures Decide(TranscriptEvent(["yeah"], Speaking), Config.DefaultIgnoreWords) == Interrupt
  {
    ScenarioWords();
    Config.DefaultKeepsPeriods();
    SingleWordDecision("yeah.", Config.DefaultIgnoreWords);
    SingleWordDecision("yeah", Config.DefaultIgnoreWords);
  }

  lemma JoinYeahButWait()
    ensures Join(["yeah", "but", "wait"], ' ') == "yeah but wait"
  {
  }

  /** `"yeah but wait"` while speaking interrupts: `but` and `wait` are not
      ignored. */
  lemma YeahButWaitInterrupts()
    ensures Decide(TranscriptEvent(["yeah but wait"], Speaking), Config.DefaultIgnoreWords) == Interrupt
  {
    JoinYeahButWait();
    ScenarioWords();
    PhraseInterrupts(["yeah", "but", "wait"], "but", Config.DefaultIgnoreWords);
  }

  lemma JoinStopThat()
    ensures Join(["stop", "that"], ' ') == "stop that"
  {
  }

  /** `"stop that"` while speaking interrupts. */
  lemma StopThatInterrupts()
    ensures Decide(TranscriptEvent(["stop that"], Speaking), Config.DefaultIgnoreWords) == Interrupt
  {
    JoinStopThat();
    ScenarioWords();
    PhraseInterrupts(["stop", "that"], "stop", Config.DefaultIgnoreWords);
  }

  lemma PositionsOfTwo(a: bool, b: bool)
    ensures Positions([a, b]) == (if a then [0] else []) + (if b then [1] else [])
  {
    assert [a, b][..1] == [a];
    assert [a][..0] == [];
    assert Positions([a]) == Positions([]) + if a then [0] else [];
    assert Positions([a, b]) == Positions([a]) + if b then [1] else [];
  }

  lemma FiringIndicesOfTwo(first: TranscriptEvent, second: TranscriptEvent, ignore: set<string>)
    ensures FiringIndices([first, second], ignore)
            == (if Fires(first, ignore) then [0] else []) + (if Fires(second, ignore) then [1] else [])
  {
    var flags := Verdicts([first, second], ignore);
    assert flags == [flags[0], flags[1]];
    PositionsOfTwo(flags[0], flags[1]);
  }

  lemma HmmIgnored()
    ensures !Fires(TranscriptEvent(["hmm."], Speaking), Config.DefaultIgnoreWords)
  {
    ScenarioWords();
    Config.DefaultKeepsPeriods();
    assert "hmm." in Config.DefaultIgnoreWords;
    SingleWordDecision("hmm.", Config.DefaultIgnoreWords);
  }

  /** `"hmm."` then `"stop that"` while speaking: the first is ignored and the
      second, alone, interrupts. */
  lemma BackToBackFragments()
    ensures FiringIndices([TranscriptEvent(["hmm."], Speaking), TranscriptEvent(["stop that"], Speaking)],
                          Config.DefaultIgnoreWords) == [1]
  {
    HmmIgnored();
    StopThatInterrupts();
    FiringIndicesOfTwo(TranscriptEvent(["hmm."], Speaking), TranscriptEvent(["stop that"], Speaking),
                       Config.DefaultIgnoreWords);
  }
}
