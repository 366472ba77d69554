/**
 * `PromiseReporter`: a readable stream that redraws the status of named
 * promises. It holds the pending and settled item lists, the flag set by
 * `end()`, the `_running` flag of the pull loop, and the line count of the
 * last frame. What the stream has been given by `push` is kept in `output`;
 * the consumer's answer to a push is an input of the step that pushes, and
 * a scheduled timer is the `tickScheduled` flag, fired by `Tick`.
 */
module Reporter {
  import opened Wrappers
  import opened Text
  import opened Tasks
  import opened Frame
  import opened Spinner

  /** A chunk pushed into the stream: a frame's bytes, or end-of-stream (`push(null)`). */
  datatype Chunk = Data(bytes: String) | Eof

  /** "Cannot add another promise after .end() has been called" */
  datatype AddError = AlreadyEnded

  /** End-of-stream, once pushed, is the last thing ever pushed. */
  predicate EofOnlyLast(out: seq<Chunk>)
  {
    forall k :: 0 <= k < |out| && out[k] == Eof ==> k == |out| - 1
  }

  lemma PushData(out: seq<Chunk>, bytes: String)
    requires Eof !in out
    ensures Eof !in out + [Data(bytes)] && EofOnlyLast(out + [Data(bytes)])
  {
  }

  lemma PushEof(out: seq<Chunk>)
    requires Eof !in out
    ensures EofOnlyLast(out + [Eof])
  {
  }

  class PromiseReporter {
    var settled: seq<Item>
    var pending: seq<Item>
    var running: bool
    var prevLineCount: nat
    var allQueued: bool
    /** A `setTimeout(pushFrame, interval)` is outstanding. */
    var tickScheduled: bool
    /** Identity of the next item record to be created. */
    var nextId: nat
    var output: seq<Chunk>
    const spinner: SpinnerClock
    const style: Style
    /** `ansiEscapes.eraseLines`, an opaque function of the line count. */
    const eraseLines: nat -> String

    ghost predicate Ended()
      reads this`output
    {
      |output| > 0 && output[|output| - 1] == Eof
    }

    /** Everything that holds between calls, except how `running` follows the loop's state. */
    ghost predicate Inv()
      reads this`pending, this`settled, this`nextId, this`output, this`tickScheduled, this`allQueued
    {
      && Registry(pending, settled, nextId)
      && EofOnlyLast(output)
      && !(tickScheduled && Ended())
      && (Ended() ==> allQueued && pending == [])
    }

    /**
     * The object invariant: every registered item is in exactly one list
     * (their ids are exactly `0 .. nextId-1`), pending items are pending and
     * in registration order, settled items are terminal; and the loop is
     * `running` exactly while a tick is scheduled or the stream has ended.
     */
    ghost predicate Valid()
      reads this`pending, this`settled, this`nextId, this`output, this`tickScheduled, this`allQueued, this`running
    {
      Inv() && running == (tickScheduled || Ended())
    }

    /** One frame was rendered with the next spinner glyph and pushed; then the loop decided. */
    twostate predicate FramePushed(wantMore: bool)
      reads this, spinner
    {
      && Terminal(settled)
      && spinner.i == old(spinner.i) + 1
      && var text := RenderText(style, settled, pending, FrameAt(spinner.frames, spinner.i));
      && prevLineCount == |Split(text, '\n')| == Count(text, '\n') + 1
      && var done := pending == [] && allQueued;
      && output == old(output) + [Data(eraseLines(old(prevLineCount)) + text)] + (if done then [Eof] else [])
      && tickScheduled == (!done && wantMore)
      && running == (done || wantMore)
    }

    constructor (clock: Clock, style: Style, eraseLines: nat -> String)
      ensures Valid() && fresh(spinner)
      ensures spinner.frames == clock.frames && spinner.interval == clock.interval && spinner.i == 0
      ensures settled == [] && pending == [] && output == [] && nextId == 0
      ensures !running && !allQueued && !tickScheduled && prevLineCount == 0
      ensures this.style == style && this.eraseLines == eraseLines
    {
      settled := [];
      pending := [];
      running := false;
      prevLineCount := 0;
      spinner := new SpinnerClock(clock);
      allQueued := false;
      tickScheduled := false;
      nextId := 0;
      output := [];
      this.style := style;
      this.eraseLines := eraseLines;
    }

    /** Every registered item is in exactly one of the two lists. */
    lemma OneListEach()
      requires Valid()
      ensures |pending| + |settled| == nextId
      ensures forall id: nat :: id < nextId ==> (Has(pending, id) <==> !Has(settled, id))
      ensures forall id: nat :: nextId <= id ==> !Has(pending, id) && !Has(settled, id)
    {
      ExactlyOneList(pending, settled, nextId);
    }

    /**
     * `add(name, promise)`: after `end()` it throws and changes nothing;
     * otherwise one new pending item goes to the end of the pending list
     * and the promise is handed back.
     */
    method Add(name: String, promise: nat) returns (r: Result<nat, AddError>)
      requires Valid()
      modifies this`pending, this`nextId
      ensures Valid()
      ensures old(allQueued) ==> r == Failure(AlreadyEnded) && pending == old(pending) && nextId == old(nextId)
      ensures !old(allQueued) ==> r == Success(promise)
      ensures !old(allQueued) ==> pending == old(pending) + [Item(old(nextId), name, promise, Pending)]
      ensures !old(allQueued) ==> nextId == old(nextId) + 1
    {
      if allQueued {
        return Failure(AlreadyEnded);
      }
      Register(name, promise);
      r := Success(promise);
    }

    /** The item record is created with the next identity and appended to the pending list. */
    method Register(name: String, promise: nat)
      requires Valid() && !allQueued
      modifies this`pending, this`nextId
      ensures Valid()
      ensures pending == old(pending) + [Item(old(nextId), name, promise, Pending)]
      ensures nextId == old(nextId) + 1
    {
      AddKeepsRegistry(pending, settled, nextId, name, promise);
      pending := pending + [Item(nextId, name, promise, Pending)];
      nextId := nextId + 1;
      assert EofOnlyLast(output) && !(tickScheduled && Ended()) && (Ended() ==> allQueued && pending == []);
    }

    /**
     * The `update` closure, run when the item's promise settles: the item
     * leaves the pending list (the others keep their order), gets its
     * terminal status, and goes to the end of the settled list.
     */
    method Settle(id: nat, outcome: Outcome)
      requires Valid()
      requires Has(pending, id)
      modifies this`pending, this`settled
      ensures Valid()
      ensures pending == RemoveFromArray(old(pending), id) == Without(old(pending), id)
      ensures var k := IndexOf(old(pending), id);
        0 <= k && settled == old(settled) + [old(pending)[k].(status := Stamp(outcome))]
      ensures |pending| + |settled| == old(|pending| + |settled|)
    {
      var k := IndexOf(pending, id);
      var item := pending[k].(status := Stamp(outcome));
      SettleKeepsRegistry(pending, settled, nextId, id, item.status);
      RemoveIsWithout(pending, id);
      pending := RemoveFromArray(pending, id);
      settled := settled + [item];
      assert EofOnlyLast(output) && !(tickScheduled && Ended()) && (Ended() ==> allQueued && pending == []);
    }

    /**
     * `_renderFrame()`: advance the spinner once, render the lists with that
     * one glyph, remember the new line count, and return the erase sequence
     * for the previous frame followed by the text.
     */
    method RenderFrame() returns (bytes: String)
      requires Terminal(settled)
      modifies this`prevLineCount, spinner`i
      ensures spinner.i == old(spinner.i) + 1
      ensures var text := RenderText(style, settled, pending, FrameAt(spinner.frames, spinner.i));
        && prevLineCount == |Split(text, '\n')| == Count(text, '\n') + 1
        && bytes == eraseLines(old(prevLineCount)) + text
    {
      var glyph := spinner.Frame();
      var text := RenderText(style, settled, pending, glyph);
      var previous := prevLineCount;
      SplitLength(text, '\n');
      prevLineCount := |Split(text, '\n')|;
      bytes := eraseLines(previous) + text;
    }

    /**
     * `pushFrame`: push one frame, then end the stream if nothing is pending
     * and `end()` was called, else schedule the next tick if the consumer
     * wants more, else stop running until the next `_read`.
     */
    method PushFrame(wantMore: bool)
      requires Inv() && running && !tickScheduled && !Ended()
      modifies this`prevLineCount, this`output, this`running, this`tickScheduled, spinner`i
      ensures Valid()
      ensures FramePushed(wantMore)
    {
      var bytes := RenderFrame();
      Push(bytes, wantMore);
    }

    /** The push of one frame's bytes and the decision that follows it. */
    method Push(bytes: String, wantMore: bool)
      requires Inv() && running && !tickScheduled && !Ended()
      modifies this`output, this`running, this`tickScheduled
      ensures Valid()
      ensures var done := pending == [] && allQueued;
        && output == old(output) + [Data(bytes)] + (if done then [Eof] else [])
        && tickScheduled == (!done && wantMore)
        && running == (done || wantMore)
    {
      assert Eof !in output by {
        forall k | 0 <= k < |output| ensures output[k] != Eof {
          assert k == |output| - 1 ==> !Ended();
        }
      }
      PushData(output, bytes);
      output := output + [Data(bytes)];
      if pending == [] && allQueued {
        PushEof(output);
        output := output + [Eof];
      } else if wantMore {
        tickScheduled := true;
      } else {
        running := false;
      }
    }

    /**
     * `_read()`: ignored while the loop is running (a tick is scheduled or
     * the stream has ended); otherwise the loop starts with an immediate frame.
     */
    method Read(wantMore: bool)
      requires Valid()
      modifies this`prevLineCount, this`output, this`running, this`tickScheduled, spinner`i
      ensures Valid()
      ensures old(running) ==> unchanged(this) && spinner.i == old(spinner.i)
      ensures old(Ended()) ==> output == old(output)
      ensures !old(running) ==> FramePushed(wantMore)
    {
      if running {
        return;
      }
      running := true;
      PushFrame(wantMore);
    }

    /** The scheduled timer fires: the loop pushes its next frame. */
    method Tick(wantMore: bool)
      requires Valid() && tickScheduled
      modifies this`prevLineCount, this`output, this`running, this`tickScheduled, spinner`i
      ensures Valid()
      ensures FramePushed(wantMore)
    {
      tickScheduled := false;
      PushFrame(wantMore);
    }

    /** `end()`: no more items may be added; calling it again changes nothing. */
    method End()
      requires Valid()
      modifies this`allQueued
      ensures Valid()
      ensures allQueued
    {
      allQueued := true;
    }
  }

  /**
   * `new PromiseReporter(options)`: throws when the chosen spinner has no
   * `frames` property (missing or falsy; an empty array is accepted); otherwise an idle reporter with empty lists.
   */
  method Create(opt: SpinnerOption, table: map<String, SpinnerSpec>, fallback: SpinnerSpec,
                style: Style, eraseLines: nat -> String)
    returns (r: Result<PromiseReporter, ConfigError>)
    ensures r.Failure? <==> Choose(opt, table, fallback).frames.None?
    ensures r.Success? ==> fresh(r.value) && r.value.Valid()
    ensures r.Success? ==> r.value.pending == [] && r.value.settled == [] && r.value.output == []
    ensures r.Success? ==> !r.value.running && !r.value.allQueued && r.value.prevLineCount == 0
    ensures r.Success? ==> r.value.spinner.frames == Choose(opt, table, fallback).frames.value
    ensures r.Success? ==> r.value.spinner.interval == Interval(Choose(opt, table, fallback).interval)
    ensures r.Success? ==> fresh(r.value.spinner) && r.value.spinner.i == 0
    ensures r.Success? ==> r.value.nextId == 0 && !r.value.tickScheduled
    ensures r.Success? ==> r.value.style == style && r.value.eraseLines == eraseLines
  {
    var clock := Resolve(opt, table, fallback);
    if clock.Failure? {
      return Failure(clock.error);
    }
    var reporter := new PromiseReporter(clock.value, style, eraseLines);
    r := Success(reporter);
  }
}
