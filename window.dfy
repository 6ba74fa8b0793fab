/** The launcher window's key handling: an input buffer grown and shrunk one key at a time,
    the engine updated after each change, and the two lines the window shows. */
module Window {
  import opened Order
  import opened Completion

  /** Shown on the candidate line when there is no candidate. */
  const NotFound: string := "Command not found"
  const CommandLabel: string := "Command  : "
  const CandidateLabel: string := "Candidate: "

  const Escape: char := 27 as char
  const Backspace: char := 8 as char

  /** is_num_or_alph: the printable characters, space to tilde.  Letters and digits are among
      them, and none of the keys that MainWindow::start handles specially is. */
  predicate IsNumOrAlph(c: char)
    ensures ('a' <= c <= 'z' || 'A' <= c <= 'Z' || '0' <= c <= '9') ==> IsNumOrAlph(c)
    ensures c in ['\r', '\n', Escape, Backspace] ==> !IsNumOrAlph(c)
  {
    32 <= c as int <= 126
  }

  /** Every character of the buffer is one that a key press can append. */
  predicate Printable(s: string)
  {
    forall i :: 0 <= i < |s| ==> IsNumOrAlph(s[i])
  }

  /** What one key does to the buffer: run the command, close the window, replace the
      buffer (after which the engine is updated and the window redrawn), or nothing. */
  datatype Reaction = Run | Close | Edit(buffer: string) | Ignore

  /** The KeyPress branch of MainWindow::start, testing the key in the same order. */
  function React(input: string, key: char): (r: Reaction)
    ensures r == Run <==> key == '\r' || key == '\n'
    ensures r == Close <==> key == Escape
    ensures r.Edit? <==> IsNumOrAlph(key) || key == Backspace
    ensures r.Edit? && IsNumOrAlph(key) ==> r.buffer == input + [key]
    ensures r.Edit? && key == Backspace ==> r.buffer == if input == [] then [] else input[..|input| - 1]
  {
    if key == '\r' || key == '\n' then Run
    else if IsNumOrAlph(key) then Edit(input + [key])
    else if key == Escape then Close
    else if key == Backspace then Edit(if |input| > 0 then input[..|input| - 1] else input)
    else Ignore
  }

  /** The buffer only ever holds printable characters. */
  lemma ReactKeepsPrintable(input: string, key: char)
    requires Printable(input)
    ensures React(input, key).Edit? ==> Printable(React(input, key).buffer)
  {
  }

  /** Backspace takes back a printable key. */
  lemma BackspaceUndoesKey(input: string, key: char)
    requires IsNumOrAlph(key)
    ensures React(React(input, key).buffer, Backspace) == Edit(input)
  {
    assert (input + [key])[..|input|] == input;
  }

  /** What the window shows. */
  datatype Screen = Screen(command: string, candidate: string)

  /** redraw_window: the buffer and the top candidate, or NotFound. */
  function Redraw(complete: Complete, input: string): (s: Screen)
    reads complete
    requires complete.Valid()
    ensures s.command == CommandLabel + input
    ensures s.candidate == CandidateLabel + complete.Get(0, NotFound)
  {
    Screen(CommandLabel + input, CandidateLabel + complete.Get(0, NotFound))
  }

  /** The screen for a buffer, given the engine's names: the least name that begins with
      the buffer, or NotFound. */
  function View(names: seq<string>, input: string): (s: Screen)
    requires StrictlySorted(names)
    ensures s.command == CommandLabel + input
    ensures HasMatch(names, input) ==>
      exists k :: 0 <= k < |names| && IsPrefix(input, names[k]) && s.candidate == CandidateLabel + names[k] &&
        forall j :: 0 <= j < |names| && IsPrefix(input, names[j]) ==> Compare(names[k], names[j]) <= 0
    ensures !HasMatch(names, input) ==> s.candidate == CandidateLabel + NotFound
  {
    var top := TopName(names, input, NotFound);
    assert HasMatch(names, input) ==> exists k :: 0 <= k < |names| && names[k] == top;
    Screen(CommandLabel + input, CandidateLabel + top)
  }

  /** What the window reports when the loop ends. */
  datatype Outcome = Executed(command: string) | Closed | Waiting

  /** The events the window reacts to. */
  datatype Event = Expose | KeyPress(key: char) | KeyRelease | Other

  /** How far the event loop has got: still waiting for events, ended by Return, or ended by
      Escape. */
  datatype Progress = Listening | Ran | Escaped

  /** The loop's state after some events: its progress, the buffer, and the buffer at each
      redraw so far. */
  datatype Trace = Trace(progress: Progress, input: string, redrawn: seq<string>)

  /** One event handled by a loop that is still listening. */
  function Step(t: Trace, e: Event): Trace
  {
    match e
    case Expose => Trace(Listening, t.input, t.redrawn + [t.input])
    case KeyPress(key) =>
      (match React(t.input, key)
       case Run => Trace(Ran, t.input, t.redrawn)
       case Close => Trace(Escaped, t.input, t.redrawn)
       case Edit(buffer) => Trace(Listening, buffer, t.redrawn + [buffer])
       case Ignore => t)
    case KeyRelease => t
    case Other => t
  }

  /** What the event loop makes of `events`, starting from an empty buffer: each event in turn
      until Return or Escape ends the loop.  The buffer and every redrawn buffer hold only
      printable characters. */
  function Replay(events: seq<Event>): (r: Trace)
    ensures Printable(r.input)
    ensures forall i :: 0 <= i < |r.redrawn| ==> Printable(r.redrawn[i])
    decreases |events|
  {
    if events == [] then Trace(Listening, [], [])
    else
      var t := Replay(events[..|events| - 1]);
      if t.progress == Listening then
        ReactKeepsPrintable(t.input, if events[|events| - 1].KeyPress? then events[|events| - 1].key else ' ');
        Step(t, events[|events| - 1])
      else t
  }

  lemma ReplayLast(events: seq<Event>, e: Event)
    ensures Replay(events + [e]) ==
      if Replay(events).progress == Listening then Step(Replay(events), e) else Replay(events)
  {
    assert (events + [e])[..|events|] == events;
  }

  /** Once Return or Escape has ended the loop, later events change nothing. */
  lemma {:induction false} ReplayEnded(done: seq<Event>, later: seq<Event>)
    requires Replay(done).progress != Listening
    ensures Replay(done + later) == Replay(done)
    decreases |later|
  {
    if later == [] {
      assert done + later == done;
    } else {
      var init := later[..|later| - 1];
      ReplayEnded(done, init);
      assert done + later == (done + init) + [later[|later| - 1]];
      ReplayLast(done + init, later[|later| - 1]);
    }
  }

  /** Return ends the loop and runs the buffer as it stands. */
  lemma ReturnRunsBuffer(events: seq<Event>, later: seq<Event>)
    requires Replay(events).progress == Listening
    ensures Replay(events + [KeyPress('\r')] + later) == Trace(Ran, Replay(events).input, Replay(events).redrawn)
  {
    ReplayLast(events, KeyPress('\r'));
    ReplayEnded(events + [KeyPress('\r')], later);
  }

  /** Escape ends the loop, keeping the buffer and running nothing. */
  lemma EscapeCloses(events: seq<Event>, later: seq<Event>)
    requires Replay(events).progress == Listening
    ensures Replay(events + [KeyPress(Escape)] + later) == Trace(Escaped, Replay(events).input, Replay(events).redrawn)
  {
    ReplayLast(events, KeyPress(Escape));
    ReplayEnded(events + [KeyPress(Escape)], later);
  }

  /** Key releases, other events and keys the loop does not handle leave everything as it was. */
  lemma IgnoredEvents(events: seq<Event>, e: Event)
    requires e.KeyRelease? || e.Other? || (e.KeyPress? && React(Replay(events).input, e.key) == Ignore)
    ensures Replay(events + [e]) == Replay(events)
  {
    ReplayLast(events, e);
  }

  /** A printable key appends itself to the buffer and the window is redrawn with it. */
  lemma TypingAppends(events: seq<Event>, key: char)
    requires Replay(events).progress == Listening && IsNumOrAlph(key)
    ensures Replay(events + [KeyPress(key)]) ==
      Trace(Listening, Replay(events).input + [key], Replay(events).redrawn + [Replay(events).input + [key]])
  {
    ReplayLast(events, KeyPress(key));
  }

  /** Typing "ls" and Return runs "ls", after redrawing "l" and "ls"; a key after Return is
      never seen. */
  lemma ReplayRunExample()
    ensures Replay([KeyPress('l'), KeyPress('s'), KeyPress('\r'), KeyPress('x')]) == Trace(Ran, "ls", ["l", "ls"])
  {
    TypingAppends([], 'l');
    assert [] + [KeyPress('l')] == [KeyPress('l')];
    TypingAppends([KeyPress('l')], 's');
    assert [KeyPress('l')] + [KeyPress('s')] == [KeyPress('l'), KeyPress('s')];
    ReturnRunsBuffer([KeyPress('l'), KeyPress('s')], [KeyPress('x')]);
    assert [KeyPress('l'), KeyPress('s')] + [KeyPress('\r')] + [KeyPress('x')] ==
      [KeyPress('l'), KeyPress('s'), KeyPress('\r'), KeyPress('x')];
  }

  /** Typing "a" and then Escape closes the window with "a" in the buffer. */
  lemma ReplayEscapeExample()
    ensures Replay([KeyPress('a'), KeyPress(Escape)]) == Trace(Escaped, "a", ["a"])
  {
    TypingAppends([], 'a');
    assert [] + [KeyPress('a')] == [KeyPress('a')];
    EscapeCloses([KeyPress('a')], []);
    assert [KeyPress('a')] + [KeyPress(Escape)] + [] == [KeyPress('a'), KeyPress(Escape)];
  }

  /** The event loop of MainWindow::start over the events received so far.  It does what
      Replay says: same buffer, same redraws, Return runs exec on the buffer and Escape closes
      the window; when the events run out the window is still waiting.  Every redraw shows the
      screen for the buffer at that moment, and the engine's candidates always belong to the
      current buffer. */
  method Start(complete: Complete, events: seq<Event>)
    returns (outcome: Outcome, input: string, screens: seq<Screen>, ghost buffers: seq<string>)
    requires complete.Valid() && complete.candidates == []
    modifies complete
    ensures complete.Valid() && complete.commands == old(complete.commands)
    ensures complete.candidates == Candidates(complete.commands, input)
    ensures input == Replay(events).input && buffers == Replay(events).redrawn
    ensures outcome == Waiting <==> Replay(events).progress == Listening
    ensures outcome == Closed <==> Replay(events).progress == Escaped
    ensures outcome.Executed? <==> Replay(events).progress == Ran
    ensures outcome.Executed? ==> outcome.command == complete.Exec(input)
    ensures |screens| == |buffers|
    ensures forall i :: 0 <= i < |buffers| ==> screens[i] == View(complete.commands, buffers[i])
  {
    input := [];
    screens := [];
    buffers := [];
    outcome := Waiting;
    for n := 0 to |events|
      invariant complete.Valid() && complete.commands == old(complete.commands)
      invariant complete.candidates == Candidates(complete.commands, input)
      invariant Replay(events[..n]) == Trace(Listening, input, buffers)
      invariant outcome == Waiting
      invariant |screens| == |buffers|
      invariant forall i :: 0 <= i < |buffers| ==> screens[i] == View(complete.commands, buffers[i])
    {
      ghost var next := Step(Trace(Listening, input, buffers), events[n]);
      Advance(events, n, Trace(Listening, input, buffers));
      match events[n] {
        case Expose() =>
          assert next == Trace(Listening, input, buffers + [input]);
          RedrawShowsView(complete, input);
          screens, buffers := screens + [Redraw(complete, input)], buffers + [input];
        case KeyPress(key) =>
          match React(input, key) {
            case Run() =>
              assert next == Trace(Ran, input, buffers);
              outcome := Executed(complete.Exec(input));
              Finish(events, n + 1, next);
              return;
            case Close() =>
              assert next == Trace(Escaped, input, buffers);
              outcome := Closed;
              Finish(events, n + 1, next);
              return;
            case Edit(buffer) =>
              assert next == Trace(Listening, buffer, buffers + [buffer]);
              input := buffer;
              complete.Update(input);
              RedrawShowsView(complete, input);
              screens, buffers := screens + [Redraw(complete, input)], buffers + [input];
            case Ignore() =>
              assert next == Trace(Listening, input, buffers);
          }
        case KeyRelease() =>
          assert next == Trace(Listening, input, buffers);
        case Other() =>
          assert next == Trace(Listening, input, buffers);
      }
    }
    Exhausted(events, Trace(Listening, input, buffers));
  }

  lemma Exhausted(events: seq<Event>, t: Trace)
    requires Replay(events[..|events|]) == t
    ensures Replay(events) == t
  {
    assert events[..|events|] == events;
  }

  /** The loop still listening after `n` events handles the next one with Step. */
  lemma Advance(events: seq<Event>, n: nat, t: Trace)
    requires n < |events| && Replay(events[..n]) == t && t.progress == Listening
    ensures Replay(events[..n + 1]) == Step(t, events[n])
  {
    assert events[..n + 1] == events[..n] + [events[n]];
    ReplayLast(events[..n], events[n]);
  }

  /** The loop has ended after the first `n` events, so the remaining ones do not matter. */
  lemma Finish(events: seq<Event>, n: nat, t: Trace)
    requires n <= |events| && Replay(events[..n]) == t && t.progress != Listening
    ensures Replay(events) == t
  {
    ReplayEnded(events[..n], events[n..]);
    assert events[..n] + events[n..] == events;
  }

  /** With the candidates of the current buffer, the window shows View of that buffer. */
  lemma RedrawShowsView(complete: Complete, input: string)
    requires complete.Valid() && complete.candidates == Candidates(complete.commands, input)
    ensures Redraw(complete, input) == View(complete.commands, input)
  {
    GetAfterUpdate(complete, input, NotFound);
  }
}
