/** The message batcher of `handleFormSubmit` (index.tsx): every submitted
    message is trimmed, blank ones are ignored, the rest are buffered, and the
    third buffered message flushes the buffer as one batch joined with a
    separator. The delayed extraction call the source schedules for a batch is
    modelled as the batch value the step emits. */
module Batching {
  import opened Wrappers
  import opened Text

  /** Buffered messages that trigger a flush. */
  const Threshold: nat := 3
  /** What `join` puts between the messages of a batch. */
  const Separator: string := "\n---\n"

  /** No buffered message is empty (each was trimmed and checked non-blank). */
  ghost predicate AllFilled(buffer: seq<string>) {
    forall k :: 0 <= k < |buffer| ==> buffer[k] != []
  }

  /** The buffer after one submission, and the batch it emits, if any. */
  datatype Step = Step(buffer: seq<string>, batch: Option<string>)

  /** What submitting `input` does to `buffer`. */
  function Push(buffer: seq<string>, input: string): Step {
    var text := Trim(input);
    if text == [] then Step(buffer, None)
    else if |buffer + [text]| >= Threshold then Step([], Some(Join(buffer + [text], Separator)))
    else Step(buffer + [text], None)
  }

  class Batcher {
    /** `userMessageBuffer`: messages not yet sent to extraction, oldest first. */
    var buffer: seq<string>

    constructor ()
      ensures buffer == []
    {
      buffer := [];
    }

    /** The batching part of `handleFormSubmit`. After it the buffer holds
        fewer than `Threshold` messages; a batch is emitted only when the
        accepted message is the third one, and then the buffer is emptied. */
    method Submit(input: string) returns (batch: Option<string>)
      modifies this
      ensures Step(buffer, batch) == Push(old(buffer), input)
      ensures |buffer| < Threshold || (Trim(input) == [] && buffer == old(buffer))
      ensures batch.Some? <==> Trim(input) != [] && |old(buffer)| + 1 >= Threshold
      ensures batch.Some? ==> buffer == [] && batch.value == Join(old(buffer) + [Trim(input)], Separator)
      ensures AllFilled(old(buffer)) ==> AllFilled(buffer)
    {
      var userInput := Trim(input);
      if userInput == [] {
        return None;
      }
      buffer := buffer + [userInput];
      if |buffer| >= Threshold {
        var combined := Join(buffer, Separator);
        buffer := [];
        batch := Some(combined);
      } else {
        batch := None;
      }
    }
  }

  /** From any buffer below the threshold, a submission leaves it below the threshold. */
  lemma PushKeepsBufferSmall(buffer: seq<string>, input: string)
    requires |buffer| < Threshold
    ensures |Push(buffer, input).buffer| < Threshold
  {
  }

  /** After a flush, two non-blank submissions emit nothing and the third emits
      the three trimmed messages, in arrival order, joined with the separator;
      the buffer is then empty again. */
  lemma ThirdMessageFlushes(a: string, b: string, c: string)
    requires Trim(a) != [] && Trim(b) != [] && Trim(c) != []
    ensures Push([], a) == Step([Trim(a)], None)
    ensures Push([Trim(a)], b) == Step([Trim(a), Trim(b)], None)
    ensures Push([Trim(a), Trim(b)], c) ==
      Step([], Some(Trim(a) + Separator + Trim(b) + Separator + Trim(c)))
  {
    var x, y, z := Trim(a), Trim(b), Trim(c);
    PushNonBlank([], a);
    PushNonBlank([x], b);
    PushNonBlank([x, y], c);
    assert [x, y] + [z] == [x, y, z];
    JoinThree(x, y, z);
  }

  /** A non-blank submission appends its trimmed text, and flushes once the
      buffer reaches the threshold. */
  lemma PushNonBlank(buffer: seq<string>, input: string)
    requires Trim(input) != []
    ensures Push(buffer, input) ==
      if |buffer| + 1 >= Threshold then Step([], Some(Join(buffer + [Trim(input)], Separator)))
      else Step(buffer + [Trim(input)], None)
  {
  }

  lemma JoinThree(x: string, y: string, z: string)
    ensures Join([x, y, z], Separator) == x + Separator + y + Separator + z
  {
    assert [x, y, z] == [x] + [y, z];
    assert [y, z] == [y] + [z];
    JoinCons(x, [y, z], Separator);
    JoinCons(y, [z], Separator);
  }

  // ----- a whole session of submissions -----

  /** The buffer left by a run of submissions and the batches it emitted, in order. */
  datatype Run = Run(buffer: seq<string>, batches: seq<string>)

  function Feed(buffer: seq<string>, inputs: seq<string>): Run
    decreases |inputs|
  {
    if inputs == [] then Run(buffer, [])
    else
      var step := Push(buffer, inputs[0]);
      var rest := Feed(step.buffer, inputs[1..]);
      Run(rest.buffer, Emitted(step) + rest.batches)
  }

  /** The batches one step emits: none or one. */
  function Emitted(step: Step): seq<string> {
    if step.batch.Some? then [step.batch.value] else []
  }

  /** What one submission contributes to the buffer: its trimmed text, unless blank. */
  function Admitted(input: string): seq<string> {
    if Trim(input) == [] then [] else [Trim(input)]
  }

  /** The messages of a run that reach the buffer: trimmed, blank ones dropped. */
  function Accepted(inputs: seq<string>): (msgs: seq<string>)
    ensures |msgs| <= |inputs|
    ensures AllFilled(msgs)
  {
    if inputs == [] then []
    else
      var rest := Accepted(inputs[1..]);
      AdmittedFilled(inputs[0], rest);
      Admitted(inputs[0]) + rest
  }

  /** Accepted's step: the admitted form of one input, in front of filled
      messages, leaves them filled. */
  lemma AdmittedFilled(input: string, rest: seq<string>)
    requires AllFilled(rest)
    ensures |Admitted(input)| <= 1
    ensures AllFilled(Admitted(input) + rest)
  {
    var a := Admitted(input);
    forall k | 0 <= k < |a + rest| ensures (a + rest)[k] != [] {
      if k >= |a| {
        assert (a + rest)[k] == rest[k - |a|];
      }
    }
  }

  /** Consecutive groups of `Threshold` messages, each joined with the separator. */
  function Batches(msgs: seq<string>): seq<string>
    decreases |msgs|
  {
    if |msgs| < Threshold then [] else [Join(msgs[..Threshold], Separator)] + Batches(msgs[Threshold..])
  }

  /** The messages after the last complete group. */
  function Leftover(msgs: seq<string>): (rest: seq<string>)
    ensures |rest| < Threshold
    decreases |msgs|
  {
    if |msgs| < Threshold then msgs else Leftover(msgs[Threshold..])
  }

  /** The whole-run outcome for an arrival sequence of accepted messages. */
  function Cut(msgs: seq<string>): Run {
    Run(Leftover(msgs), Batches(msgs))
  }

  /** A run of submissions cuts the accepted messages, after what was already
      buffered, into consecutive groups of three in arrival order: one batch per
      complete group, and what is left over stays buffered. */
  lemma {:induction false} FeedCutsIntoTriples(buffer: seq<string>, inputs: seq<string>)
    requires |buffer| < Threshold
    ensures Feed(buffer, inputs) == Cut(buffer + Accepted(inputs))
    decreases |inputs|
  {
    if inputs == [] {
      assert buffer + Accepted(inputs) == buffer;
    } else {
      var step := Push(buffer, inputs[0]);
      var rest := Accepted(inputs[1..]);
      FeedUnfold(buffer, inputs);
      FeedCutsIntoTriples(step.buffer, inputs[1..]);
      PushCutsTriples(buffer, inputs[0], rest);
      AcceptedUnfold(buffer, inputs);
    }
  }

  /** One step of Feed. */
  lemma FeedUnfold(buffer: seq<string>, inputs: seq<string>)
    requires inputs != []
    ensures var step := Push(buffer, inputs[0]);
      var tail := Feed(step.buffer, inputs[1..]);
      Feed(buffer, inputs) == Run(tail.buffer, Emitted(step) + tail.batches)
  {
  }

  /** One step of Accepted, after a buffer. */
  lemma AcceptedUnfold(buffer: seq<string>, inputs: seq<string>)
    requires inputs != []
    ensures buffer + Accepted(inputs) == buffer + Admitted(inputs[0]) + Accepted(inputs[1..])
  {
    assert Accepted(inputs) == Admitted(inputs[0]) + Accepted(inputs[1..]);
  }

  /** The step case of FeedCutsIntoTriples: one submission moves its accepted
      message from the pending input into the buffer or into a batch. */
  lemma PushCutsTriples(buffer: seq<string>, input: string, rest: seq<string>)
    requires |buffer| < Threshold
    ensures var after := Cut(Push(buffer, input).buffer + rest);
      Cut(buffer + Admitted(input) + rest) == Run(after.buffer, Emitted(Push(buffer, input)) + after.batches)
  {
    var text := Trim(input);
    if text == [] {
      BlankCutsNothing(buffer, input, rest);
    } else if |buffer| + 1 < Threshold {
      assert Push(buffer, input) == Step(buffer + [text], None);
      assert Admitted(input) == [text];
    } else {
      assert Push(buffer, input) == Step([], Some(Join(buffer + [text], Separator)));
      assert Admitted(input) == [text];
      FlushCutsOneTriple(buffer, text, rest);
    }
  }

  /** The blank case of PushCutsTriples: nothing moves. */
  lemma BlankCutsNothing(buffer: seq<string>, input: string, rest: seq<string>)
    requires Trim(input) == []
    ensures var after := Cut(Push(buffer, input).buffer + rest);
      Cut(buffer + Admitted(input) + rest) == Run(after.buffer, Emitted(Push(buffer, input)) + after.batches)
  {
    assert Push(buffer, input) == Step(buffer, None);
    assert buffer + Admitted(input) + rest == buffer + rest;
  }

  /** The flushing case of FeedCutsIntoTriples: the first complete group is
      exactly the buffer plus the new message. */
  lemma FlushCutsOneTriple(buffer: seq<string>, text: string, rest: seq<string>)
    requires |buffer| + 1 == Threshold
    ensures Leftover(buffer + [text] + rest) == Leftover([] + rest)
    ensures Batches(buffer + [text] + rest) == [Join(buffer + [text], Separator)] + Batches([] + rest)
  {
    var all := buffer + [text] + rest;
    assert all[..Threshold] == buffer + [text];
    assert all[Threshold..] == [] + rest;
  }

}
