/** The streaming generator (`SLMRunner`, src/SLMRunner.cs): once the model
    and the tokenizer are loaded, `InferStreamingAsync` generates one token
    per turn of its loop, decodes it into a part, appends the part to a
    buffer and yields it, until the generator is done, cancellation is
    requested, a step fails, or the buffer shows a stop marker. */
module Generation {
  import opened Text

  /** `max_length`: the most tokens the generator's sequence may hold, the
      prompt's tokens included. */
  const MaxLength: nat := 1024

  /** What one turn of the loop gets from the outside world: whether
      cancellation has been requested when the turn starts, and then either
      the part the tokenizer decodes for the new token or a failure (an
      exception from the cancellable delay, the generator or the decoder). */
  datatype Outcome = Decoded(part: string) | Failed
  datatype Turn = Turn(cancelled: bool, outcome: Outcome)

  /** What a caller of `InferStreamingAsync` sees: the invalid-operation
      error raised before anything is yielded; an exception from setting the
      generator up (building its parameters, encoding the prompt, creating
      the decoding stream or the generator), which no handler catches and
      which also comes before anything is yielded; or the parts yielded, in
      order. */
  datatype Stream = NotReady | SetupFailed | Parts(parts: seq<string>)

  /** The buffer shows one of the chat markers that end the answer. */
  predicate HasStopMarker(buffer: string) {
    Contains(buffer, "<|end|>") || Contains(buffer, "<|user|>") || Contains(buffer, "<|system|>")
  }

  /** How many tokens the generator may still produce after the prompt's
      `promptTokens`. */
  function Budget(promptTokens: nat): nat {
    if promptTokens < MaxLength then MaxLength - promptTokens else 0
  }

  /** The parts the loop yields from `turns`, with `buffer` holding what was
      decoded so far and `budget` tokens left before the generator is done. */
  function Yielded(buffer: string, turns: seq<Turn>, budget: nat): (r: seq<string>)
    ensures |r| <= |turns| && |r| <= budget
    decreases |turns|
  {
    if turns == [] || budget == 0 then []
    else if turns[0].cancelled then []
    else match turns[0].outcome
      case Failed => []
      case Decoded(part) =>
        if HasStopMarker(buffer + part) then []
        else [part] + Yielded(buffer + part, turns[1..], budget - 1)
  }

  /** A turn that neither is cancelled, nor fails, nor completes a marker
      yields its part, and the loop goes on. */
  lemma YieldsPart(buffer: string, turns: seq<Turn>, budget: nat)
    requires turns != [] && budget > 0 && !turns[0].cancelled && turns[0].outcome.Decoded?
    requires !HasStopMarker(buffer + turns[0].outcome.part)
    ensures Yielded(buffer, turns, budget)
         == [turns[0].outcome.part]
            + Yielded(buffer + turns[0].outcome.part, turns[1..], budget - 1)
  {
  }

  /** A turn that ends the stream when `buffer` is what was decoded before
      it. */
  predicate Stops(buffer: string, turn: Turn) {
    turn.cancelled || turn.outcome.Failed? || HasStopMarker(buffer + turn.outcome.part)
  }

  /** The yielded parts are the decoded parts of the first turns, one per
      turn, none of them a turn that stops; the turn right after them, if
      the budget and the turns allow one, stops. */
  lemma {:induction false} YieldedIsFirstStop(buffer: string, turns: seq<Turn>, budget: nat)
    ensures var r := Yielded(buffer, turns, budget);
      && (forall i :: 0 <= i < |r| ==>
            turns[i].outcome == Decoded(r[i]) && !Stops(buffer + Concat(r[..i]), turns[i]))
      && (|r| < |turns| && |r| < budget ==> Stops(buffer + Concat(r), turns[|r|]))
    decreases |turns|
  {
    var r := Yielded(buffer, turns, budget);
    if r != [] {
      var part := r[0];
      YieldedFirst(buffer, turns, budget);
      YieldedIsFirstStop(buffer + part, turns[1..], budget - 1);
      forall i | 0 <= i < |r|
        ensures turns[i].outcome == Decoded(r[i]) && !Stops(buffer + Concat(r[..i]), turns[i])
      {
        if i > 0 {
          BufferAfter(buffer, r, i);
          assert turns[i] == turns[1..][i - 1] && r[i] == r[1..][i - 1];
        } else {
          assert Concat(r[..0]) == [];
          assert buffer + [] == buffer;
        }
      }
      BufferAfter(buffer, r, |r|);
      assert r[..|r|] == r && r[1..][..|r| - 1] == r[1..];
      if |r| < |turns| {
        assert turns[|r|] == turns[1..][|r| - 1];
      }
    } else {
      assert buffer + Concat(r) == buffer;
      if turns != [] && budget > 0 {
        assert Stops(buffer, turns[0]);
      }
    }
  }

  /** A non-empty yield starts with the first turn's part, which does not
      stop the loop, and goes on from the buffer holding that part. */
  lemma YieldedFirst(buffer: string, turns: seq<Turn>, budget: nat)
    requires Yielded(buffer, turns, budget) != []
    ensures var r := Yielded(buffer, turns, budget);
      && turns != [] && budget > 0
      && turns[0].outcome == Decoded(r[0]) && !Stops(buffer, turns[0])
      && r[1..] == Yielded(buffer + r[0], turns[1..], budget - 1)
  {
  }

  /** The buffer after the first `i` parts is the buffer after the first
      part, followed by the next `i - 1` parts. */
  lemma BufferAfter(buffer: string, r: seq<string>, i: nat)
    requires 0 < i <= |r|
    ensures buffer + Concat(r[..i]) == (buffer + r[0]) + Concat(r[1..][..i - 1])
  {
    assert r[..i] == [r[0]] + r[1..][..i - 1];
    assert ([r[0]] + r[1..][..i - 1])[1..] == r[1..][..i - 1];
  }

  /** Once cancellation is requested nothing more is yielded: the stream
      ends before the turn that sees the request. */
  lemma CancellationEndsStream(buffer: string, turns: seq<Turn>, budget: nat, k: nat)
    requires k < |turns| && turns[k].cancelled
    ensures |Yielded(buffer, turns, budget)| <= k
  {
    YieldedIsFirstStop(buffer, turns, budget);
  }

  /** A failing turn ends the stream silently: what was yielded before it
      stands, and nothing after it is yielded. */
  lemma FailureEndsStream(buffer: string, turns: seq<Turn>, budget: nat, k: nat)
    requires k < |turns| && turns[k].outcome.Failed?
    ensures |Yielded(buffer, turns, budget)| <= k
  {
    YieldedIsFirstStop(buffer, turns, budget);
  }

  /** The concatenation of the yielded parts never shows a stop marker. */
  lemma {:induction false} YieldedHasNoMarker(buffer: string, turns: seq<Turn>, budget: nat)
    requires !HasStopMarker(buffer)
    ensures !HasStopMarker(buffer + Concat(Yielded(buffer, turns, budget)))
    decreases |turns|
  {
    var r := Yielded(buffer, turns, budget);
    if r == [] {
      assert buffer + Concat(r) == buffer;
    } else {
      YieldedHasNoMarker(buffer + r[0], turns[1..], budget - 1);
      assert buffer + Concat(r) == (buffer + r[0]) + Concat(r[1..]);
    }
  }

  /** The stream a call produces: `setupFails` says whether one of the
      set-up calls before the loop throws; otherwise the loop runs from a
      fresh buffer. */
  function Run(ready: bool, setupFails: bool, promptTokens: nat, turns: seq<Turn>): Stream {
    if !ready then NotReady
    else if setupFails then SetupFailed
    else Parts(Yielded([], turns, Budget(promptTokens)))
  }

  /** Which of the three ways a call ends: not ready exactly when the
      runner is not, a set-up failure exactly when a ready runner's set-up
      throws, and parts otherwise, whatever the turns. */
  lemma RunOutcomes(ready: bool, setupFails: bool, promptTokens: nat, turns: seq<Turn>)
    ensures var s := Run(ready, setupFails, promptTokens, turns);
      && (s.NotReady? <==> !ready)
      && (s.SetupFailed? <==> ready && setupFails)
      && (s.Parts? <==> ready && !setupFails)
  {
  }

  /** A prompt that fills the sequence leaves no budget: nothing is
      yielded. */
  lemma FullPromptYieldsNothing(promptTokens: nat, turns: seq<Turn>)
    requires MaxLength <= promptTokens
    ensures Run(true, false, promptTokens, turns) == Parts([])
  {
  }

  /** The yielded parts are, in order, a prefix of the decoded parts, at
      most one per generated token and no more than the token budget; their
      concatenation shows no stop marker. */
  lemma RunProperties(promptTokens: nat, turns: seq<Turn>)
    ensures var s := Run(true, false, promptTokens, turns);
      && s.Parts?
      && |s.parts| <= |turns| && |s.parts| <= Budget(promptTokens)
      && (forall i :: 0 <= i < |s.parts| ==> turns[i].outcome == Decoded(s.parts[i]))
      && !HasStopMarker(Concat(s.parts))
  {
    var r := Yielded([], turns, Budget(promptTokens));
    YieldedIsFirstStop([], turns, Budget(promptTokens));
    assert !Contains([], "<|end|>") && !Contains([], "<|user|>") && !Contains([], "<|system|>");
    YieldedHasNoMarker([], turns, Budget(promptTokens));
    assert [] + Concat(r) == Concat(r);
  }

  /** The loop does not stop exactly at the marker: a marker split across
      two parts has its opening half yielded before the closing half stops
      the stream. */
  lemma SplitMarkerLeaksOpeningHalf()
    ensures Yielded([], [Turn(false, Decoded("<|en")), Turn(false, Decoded("d|>"))], 2)
         == ["<|en"]
  {
    var turns := [Turn(false, Decoded("<|en")), Turn(false, Decoded("d|>"))];
    assert !HasStopMarker("<|en") by {
      assert !Contains("<|en", "<|end|>") && !Contains("<|en", "<|user|>") && !Contains("<|en", "<|system|>");
    }
    assert HasStopMarker("<|en" + "d|>") by {
      assert "<|en" + "d|>" == "<|end|>";
      assert OccursAt("<|end|>", "<|end|>", 0);
    }
    assert [] + "<|en" == "<|en";
  }

  /** The runner: which of the model and the tokenizer are loaded. */
  class SlmRunner {
    var hasModel: bool
    var hasTokenizer: bool

    /** A runner starts with neither the model nor the tokenizer. */
    constructor()
      ensures !hasModel && !hasTokenizer
    {
      hasModel := false;
      hasTokenizer := false;
    }

    /** `IsReady`: both the model and the tokenizer are loaded. */
    predicate IsReady()
      reads this
    {
      hasModel && hasTokenizer
    }

    /** `InitializeAsync`: loads the model, then the tokenizer from it. */
    method Initialize()
      modifies this
      ensures hasModel && hasTokenizer
      ensures IsReady()
    {
      hasModel := true;
      hasTokenizer := true;
    }

    /** `InferStreamingAsync`: the generation loop over `turns`, for a prompt
        of `promptTokens` tokens; `setupFails` says whether the set-up before
        the loop throws. */
    method InferStreaming(promptTokens: nat, setupFails: bool, turns: seq<Turn>) returns (s: Stream)
      ensures s == Run(IsReady(), setupFails, promptTokens, turns)
    {
      if !IsReady() {
        return NotReady;
      }
      if setupFails {
        return SetupFailed;
      }
      var budget := Budget(promptTokens);
      var buffer: string := [];
      var parts: seq<string> := [];
      var generated := 0;
      while generated < |turns| && generated < budget
        invariant 0 <= generated <= |turns|
        invariant generated <= budget
        invariant |parts| == generated
        invariant buffer == Concat(parts)
        invariant parts + Yielded(buffer, turns[generated..], budget - generated)
               == Yielded([], turns, budget)
        decreases |turns| - generated
      {
        var turn := turns[generated];
        if turn.cancelled {
          break;
        }
        if turn.outcome.Failed? {
          break;
        }
        var part := turn.outcome.part;
        ghost var before := buffer;
        buffer := buffer + part;
        if HasStopMarker(buffer) {
          break;
        }
        ConcatAppend(parts, [part]);
        assert turns[generated..][1..] == turns[generated + 1..];
        YieldsPart(before, turns[generated..], budget - generated);
        ghost var rest := Yielded(buffer, turns[generated + 1..], budget - generated - 1);
        assert (parts + [part]) + rest == parts + ([part] + rest);
        parts := parts + [part];
        generated := generated + 1;
      }
      return Parts(parts);
    }
  }
}
