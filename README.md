# Barge-in filter of the voice agent

This project models the backchannel filter of the LiveKit voice-agent example.
A second "pair of ears" listens to the user while the agent speaks. It skips
backchannel words such as "yeah." or "hmm.", and it forces an interrupt of the
agent's speech when the user says anything else. Three pieces are modelled:

- **Ignore-set resolution** (`Config`). `get_ignore_words` reads the
  `IGNORE_WORDS` override and splits it on commas. Each piece is stripped and
  lower-cased. An absent or empty override gives the built-in eight-word set.
  The environment variable is a parameter of type `Option<string>`.
- **Track acquisition** (`TrackAcquisition`). One pass of the scan is the
  `ScanRoom` method. It has the nested loops and the inner `break` of the
  source. The retry loop is `AcquireTrack`. It runs over a finite sequence of
  room snapshots, one per poll, and the one-second sleep between polls is not
  modelled.
- **Transcript consumer** (`Listener`, `WordFilter`). `ManualListeningLoop`
  walks the recognition events in order. It applies the three skips in the
  order the source checks them:
  1. no alternatives;
  2. blank text after `strip().lower()`;
  3. agent not in state `"speaking"`.

  It then splits the text on whitespace and drops the tokens in the ignore
  set. If any token is left, it issues `interrupt(force=True)`. The method
  returns the log of interrupts it issued, each tagged with the position of
  its event. Each event carries the agent state that was read while the event
  was handled.

The Python string operations are modelled on ASCII in module `Text`:

- `strip()` and `split()` treat as whitespace the characters that ASCII
  `str.isspace` accepts: space, 9–13 and 28–31.
- `lower()` maps only `A`–`Z`.
- `split(",")` is `SplitOn`. Its round trip with `Join` is proved.

A later participant's audio track overwrites an earlier one, because the
`break` at `basic_agent.py:89` leaves only the loop over one participant's
publications. The scan therefore settles on the first audio publication of
the *last* participant that has one (`TrackAcquisition.SelectedTrack`,
`TrackAcquisition.LaterParticipantWins`).

## Model

| member | source | states |
|---|---|---|
| Config.Image | examples/voice_agents/config.py:15 | the set built from a sequence holds the image of every element and nothing else, and is not empty when the sequence is not |
| Config.NormalizedPieces | examples/voice_agents/config.py:15 | the set of normalised pieces is never empty, holds the normalisation of every comma-separated piece and nothing else, and each of its entries is stripped and free of upper-case letters |
| Config.GetIgnoreWords | examples/voice_agents/config.py:12-26 | the set is never empty; with no override or an empty one it is exactly the built-in set; with a non-empty override every comma-separated piece, stripped and lower-cased, is an entry, and every entry comes from such a piece |
| Config.DefaultWhenUnset | examples/voice_agents/config.py:13-17 | corollary of the `GetIgnoreWords` contract: an unset variable and an empty one both give the built-in set |
| Config.DefaultIgnoreWords | examples/voice_agents/config.py:17-26 | the built-in set; its properties are stated by `Config.DefaultSize`, `Config.DefaultKeepsPeriods`, `Config.DefaultIgnoreWordsStripped` and `Config.DefaultIgnoreWordsLowerCase` |
| Config.DefaultSize | examples/voice_agents/config.py:17-26 | the built-in set has eight distinct entries |
| Config.DefaultKeepsPeriods | examples/voice_agents/config.py:17-26 | every built-in entry ends in a period, so `"yeah."` is in the set and `"yeah"` is not |
| Config.DefaultIgnoreWordsStripped | examples/voice_agents/config.py:17-26 | the built-in entries have no surrounding whitespace |
| Config.DefaultIgnoreWordsLowerCase | examples/voice_agents/config.py:17-26 | the built-in entries have no upper-case letter |
| Config.IgnoreWordsNormalized | examples/voice_agents/config.py:12-26 | every entry of every resolved ignore set equals its own `strip().lower()` |
| Config.OverrideSize | examples/voice_agents/config.py:14-15 | a non-empty override gives at least one and at most one entry per comma-separated piece |
| Config.ImageSize | examples/voice_agents/config.py:15 | a set built from n values has at most n entries |
| Config.NormalizePiece | examples/voice_agents/config.py:15 | a piece made of whitespace, a stripped text and whitespace normalises to the lower-cased text |
| Config.OverrideExample | examples/voice_agents/config.py:14-15 | the override `"Yeah, Ok ,  Sure"` resolves to `{"yeah", "ok", "sure"}` |
| Config.PaddedOverride | examples/voice_agents/config.py:14-15 | an override whose comma-separated pieces are comma-free cores padded with whitespace resolves to exactly the set of lower-cased cores |
| Config.OverrideCollapsesDuplicates | examples/voice_agents/config.py:14-15 | for every override whose pieces are whitespace-padded variants of one text differing only in ASCII case, the ignore set is the single lower-cased text |
| Config.DuplicatesExample | examples/voice_agents/config.py:14-15 | the override `"Yeah,yeah , YEAH"` resolves to `{"yeah"}` |
| Config.OverrideKeepsBlankPiece | examples/voice_agents/config.py:14-15 | any blank piece of a non-empty override is kept as the empty entry |
| Config.BlankPieceExample | examples/voice_agents/config.py:14-15 | the override `"a, ,b"` has the empty entry |
| Text.IsSpace | examples/voice_agents/basic_agent.py:116 | a whitespace character is ASCII and is neither a letter nor a comma |
| Text.LowerChar | examples/voice_agents/basic_agent.py:116 | a lowered character is never upper-case; an upper-case letter `A`-`Z` becomes the letter 32 code points above it, in `a`-`z`; any other character is unchanged; whitespace status is kept |
| Text.Lower | examples/voice_agents/basic_agent.py:116 | lower-casing keeps the length, lowers every character position by position as `LowerChar` does, keeps the whitespace positions, and leaves no upper-case letter |
| Text.LowerFixed | examples/voice_agents/basic_agent.py:116 | a text without upper-case letters is its own lower-case form |
| Text.LowerAppend | examples/voice_agents/basic_agent.py:116 | lower-casing distributes over concatenation |
| Text.LeadLen | examples/voice_agents/basic_agent.py:116 | the leading run counted is all whitespace and is followed by the end or by a non-whitespace character |
| Text.TrailLen | examples/voice_agents/basic_agent.py:116 | the trailing run counted is all whitespace and is preceded by the start or by a non-whitespace character |
| Text.LeadLenUnique | examples/voice_agents/basic_agent.py:116 | the leading run is the only whitespace prefix followed by the end or by a non-whitespace character |
| Text.TrailLenUnique | examples/voice_agents/basic_agent.py:116 | the trailing run is the only whitespace suffix preceded by the start or by a non-whitespace character |
| Text.LeadTrailDisjoint | examples/voice_agents/basic_agent.py:116 | in a text that is not blank the leading and trailing runs do not meet |
| Text.Strip | examples/voice_agents/basic_agent.py:116 | the stripped text has no whitespace at either end and is no longer than the input |
| Text.StripFits | examples/voice_agents/basic_agent.py:116 | the stripped text fits in the input after its leading whitespace |
| Text.StripKeepsInfix | examples/voice_agents/basic_agent.py:116 | the stripped text is the infix of the input that starts right after its leading whitespace |
| Text.StripDropsTrailing | examples/voice_agents/basic_agent.py:116 | everything after that infix is whitespace |
| Text.StripEmptyIff | examples/voice_agents/basic_agent.py:116-119 | stripping gives the empty text exactly when the input is all whitespace |
| Text.LeadLenPadded | examples/voice_agents/basic_agent.py:116 | whitespace before a text that does not start with whitespace is exactly the leading run |
| Text.TrailLenPadded | examples/voice_agents/basic_agent.py:116 | whitespace after a text that does not end with whitespace is exactly the trailing run |
| Text.StripPadded | examples/voice_agents/basic_agent.py:116 | whitespace padding around a stripped text is exactly what stripping removes |
| Text.StripFixed | examples/voice_agents/basic_agent.py:116 | a stripped text is its own strip |
| Text.Normalize | examples/voice_agents/basic_agent.py:116 | the normalised text has no surrounding whitespace, no upper-case letter, and is no longer than the input |
| Text.NormalizeFixedIff | examples/voice_agents/basic_agent.py:116 | a text is its own normalisation exactly when it is stripped and has no upper-case letter |
| Text.NormalizeIdempotent | examples/voice_agents/basic_agent.py:116 | normalising twice is normalising once |
| Text.NormalizeEmptyIff | examples/voice_agents/basic_agent.py:116-119 | the normalised text is empty exactly when the input is all whitespace |
| Text.Join | examples/voice_agents/config.py:15 | n pieces joined give at least n - 1 characters, room for a separator between each two pieces |
| Text.JoinPutsSeparator | examples/voice_agents/config.py:15 | with two or more pieces the joined text starts with the first piece followed by the separator |
| Text.SplitOn | examples/voice_agents/config.py:15 | splitting on a separator gives at least one piece, no piece holds the separator, and joining the pieces back gives the input |
| Text.JoinEmptyHead | examples/voice_agents/config.py:15 | an empty first piece contributes only its separator to the joined text |
| Text.JoinExtendHead | examples/voice_agents/config.py:15 | a character put in front of the first piece ends up in front of the joined text |
| Text.SplitOnPrefix | examples/voice_agents/config.py:15 | a separator-free prefix is glued onto the first piece |
| Text.SplitOnJoin | examples/voice_agents/config.py:15 | splitting undoes joining when no piece holds the separator |
| Text.WordLen | examples/voice_agents/basic_agent.py:126 | the leading run has no whitespace and ends at the end of the text or at a whitespace character |
| Text.Words | examples/voice_agents/basic_agent.py:126 | every token is non-empty and free of whitespace, and there are no tokens exactly when the text is all whitespace |
| Text.WordLenCons | examples/voice_agents/basic_agent.py:126 | a whitespace-free word followed by whitespace or nothing is the leading run |
| Text.WordsCons | examples/voice_agents/basic_agent.py:126 | such a word is split off whole as the first token |
| Text.WordsSkipSpace | examples/voice_agents/basic_agent.py:126 | a leading whitespace character produces no token |
| Text.WordsJoinCons | examples/voice_agents/basic_agent.py:126 | a word in front of words joined by a space is split off whole |
| Text.WordsJoin | examples/voice_agents/basic_agent.py:126 | splitting on whitespace undoes joining non-empty whitespace-free words with single spaces |
| Text.JoinWordsStripped | examples/voice_agents/basic_agent.py:116 | words joined by single spaces form a non-empty stripped text |
| Text.LowerAllWords | examples/voice_agents/basic_agent.py:126 | lower-casing keeps every word non-empty and free of whitespace |
| Text.LowerJoin | examples/voice_agents/basic_agent.py:116 | lower-casing commutes with joining on a space |
| Text.LowerAll | examples/voice_agents/basic_agent.py:116 | each word is lower-cased, position by position, and the list keeps its length |
| Text.NormalizePaddedPhrase | examples/voice_agents/basic_agent.py:116-126 | a padded phrase normalises to its words lower-cased and joined by single spaces, and splits back into those lower-cased words |
| WordFilter.Remaining | examples/voice_agents/basic_agent.py:127 | a token is kept exactly when it is among the tokens and not in the ignore set; no more tokens come out than go in |
| WordFilter.RemainingAppend | examples/voice_agents/basic_agent.py:127 | filtering a concatenation filters each part and keeps their order |
| WordFilter.RemainingSingle | examples/voice_agents/basic_agent.py:127 | a single token is kept exactly when it is not ignored |
| WordFilter.RemainingKeepsAll | examples/voice_agents/basic_agent.py:127 | tokens none of which is ignored pass through unchanged |
| WordFilter.IsSubstantive | examples/voice_agents/basic_agent.py:126-129 | a fragment is substantive exactly when some whitespace-delimited token is not in the ignore set, and a substantive fragment is not blank |
| Listener.Decide | examples/voice_agents/basic_agent.py:113-131 | an event is skipped for lack of alternatives exactly when it has none, and skipped as blank exactly when its top hypothesis is all whitespace |
| Listener.Classify | examples/voice_agents/basic_agent.py:118-131 | empty text is skipped, otherwise a non-speaking agent is skipped, and a speaking agent is interrupted exactly when some whitespace-delimited token is outside the ignore set |
| Listener.Fires | examples/voice_agents/basic_agent.py:113-131 | an event can fire only when it has a top hypothesis that is not all whitespace and the agent is speaking |
| Listener.FiresSteps | examples/voice_agents/basic_agent.py:113-131 | each check of the loop body, in order, decides whether the event fires as `Decide` does |
| Listener.ManualListeningLoop | examples/voice_agents/basic_agent.py:112-133 | the interrupts issued are exactly one forced interrupt per event that warrants one, in stream order |
| Listener.Positions | examples/voice_agents/basic_agent.py:112-133 | every listed position holds and positions strictly increase |
| Listener.PositionsSnoc | examples/voice_agents/basic_agent.py:112-133 | one more flag adds its position at the end exactly when it holds |
| Listener.PositionsNone | examples/voice_agents/basic_agent.py:112-133 | when no flag holds, no position is listed |
| Listener.PositionsComplete | examples/voice_agents/basic_agent.py:112-133 | every position that holds is listed |
| Listener.PositionsCount | examples/voice_agents/basic_agent.py:112-133 | as many positions are listed as hold |
| Listener.Verdicts | examples/voice_agents/basic_agent.py:113-131 | the verdict for each event is whether that event fires |
| Listener.FiringIndices | examples/voice_agents/basic_agent.py:112-133 | the abstract interrupt log: the positions, in stream order, of the events for which `Fires` holds (stated by `Listener.FiringIndicesExact`) |
| Listener.Signals | examples/voice_agents/basic_agent.py:131 | one interrupt per position, each with `force` set |
| Listener.FiringIndicesExact | examples/voice_agents/basic_agent.py:112-133 | every logged event warrants an interrupt, the log follows stream order without repeats, and every event that warrants one is logged |
| Listener.FiringIndicesCount | examples/voice_agents/basic_agent.py:112-133 | the number of interrupts equals the number of events that warrant one |
| Listener.SilentAgentNeverInterrupted | examples/voice_agents/basic_agent.py:122-123 | while the agent is never speaking, no interrupt is issued |
| Listener.FiresIff | examples/voice_agents/basic_agent.py:113-131 | an event fires exactly when it has a top hypothesis, the agent is speaking, and some token of the normalised hypothesis is not ignored |
| Listener.DecisionDependsOnNormalizedText | examples/voice_agents/basic_agent.py:116-131 | the decision depends only on the normalised top hypothesis and the agent state |
| Listener.DecisionStableUnderRenormalization | examples/voice_agents/basic_agent.py:116-131 | normalising the top hypothesis beforehand does not change the decision |
| Listener.PaddedPhraseDecision | examples/voice_agents/basic_agent.py:116-133 | a padded phrase spoken while the agent speaks is a backchannel exactly when every word, lower-cased, is ignored, and an interrupt otherwise |
| Listener.SpeakingDecision | examples/voice_agents/basic_agent.py:126-133 | a non-blank normalised text heard while speaking is a backchannel exactly when all its tokens are ignored |
| Listener.LoweredAllIgnored | examples/voice_agents/basic_agent.py:127 | all lower-cased words are ignored exactly when the lower-case form of every word is |
| Listener.SingleWordDecision | examples/voice_agents/basic_agent.py:126-133 | a single lower-case word interrupts exactly when it is not ignored |
| Listener.PhraseInterrupts | examples/voice_agents/basic_agent.py:126-131 | a phrase heard while speaking interrupts as soon as one of its words is lower-case and not ignored |
| Listener.ExactTokenMatch | examples/voice_agents/basic_agent.py:127 | with the built-in set `"yeah."` is a backchannel and `"yeah"` interrupts |
| Listener.YeahButWaitInterrupts | examples/voice_agents/basic_agent.py:126-131 | `"yeah but wait"` while speaking interrupts |
| Listener.StopThatInterrupts | examples/voice_agents/basic_agent.py:126-131 | `"stop that"` while speaking interrupts |
| Listener.HmmIgnored | examples/voice_agents/basic_agent.py:126-133 | `"hmm."` while speaking does not interrupt |
| Listener.PositionsOfTwo | examples/voice_agents/basic_agent.py:112-133 | the positions of a two-element sequence are listed in order |
| Listener.FiringIndicesOfTwo | examples/voice_agents/basic_agent.py:112-133 | two events produce interrupts for the ones that fire, first before second |
| Listener.BackToBackFragments | examples/voice_agents/basic_agent.py:112-133 | `"hmm."` then `"stop that"` while speaking gives exactly one interrupt, for the second fragment |
| TrackAcquisition.IsAudio | examples/voice_agents/basic_agent.py:87 | a publication whose track is not available is never taken, whatever its kind |
| TrackAcquisition.FirstAudio | examples/voice_agents/basic_agent.py:86-89 | the position found is an audio publication, and no audio publication comes before it |
| TrackAcquisition.LastWithAudio | examples/voice_agents/basic_agent.py:85-89 | the participant found has an audio publication, and no later one has |
| TrackAcquisition.SelectedTrack | examples/voice_agents/basic_agent.py:85-89 | one pass finds a track exactly when some participant publishes an available audio track, and that track is audio |
| TrackAcquisition.SelectedTrackStep | examples/voice_agents/basic_agent.py:85-89 | a further participant replaces the track found so far exactly when it has an audio publication |
| TrackAcquisition.ScanRoom | examples/voice_agents/basic_agent.py:85-89 | the pass returns the first audio track of the last participant that has one, and returns one exactly when the room holds an audio track |
| TrackAcquisition.AcquireTrack | examples/voice_agents/basic_agent.py:83-91 | polling stops at the first poll whose room holds an audio track, never earlier, and returns that pass's track; without such a poll it is still waiting when the polls run out |
| TrackAcquisition.LaterParticipantWins | examples/voice_agents/basic_agent.py:85-89 | with two participants each publishing audio, the second one's track is selected |

## Left out

- `AcquireTrack`: the source retries forever. The model runs over a finite
  sequence of room snapshots. A stream with no audio track therefore ends
  "still waiting" instead of never ending.
- The one-second `asyncio.sleep` between polls, and the asyncio tasks, are
  not modelled. Time and concurrency are out of scope.
- `session.agent_state` is read concurrently with the agent's own speech.
  The model pairs each event with the state that was read for it.
- What the session does on `interrupt(force=True)` is not modelled. The loop
  only records each call and the event that caused it.
- The Deepgram and OpenAI clients, `rtc.AudioStream` and `_forward_audio`
  are not modelled: they are network and audio I/O. The recognition stream
  is given as a sequence of events.
- `load_dotenv` and `os.getenv` are not modelled. The environment value is
  a parameter.
- Logging calls are not modelled.
- `AgentSession`, `MyAgent`, `on_enter`, `prewarm` and the VAD model, the
  metrics collection and the worker entry point are not modelled. They are
  framework wiring, not part of the filter.
- The module-level `IGNORE_WORDS = get_ignore_words()` is not a separate
  member. The loop takes the ignore set as a parameter, and
  `Config.GetIgnoreWords` says what that set is.
- Text: Python's full Unicode semantics of `strip`, `split` and `lower` are
  not modelled. Only ASCII whitespace and ASCII upper-case letters are
  handled.
