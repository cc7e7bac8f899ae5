/** The input-handling loop of `run_chat_loop`: read a line, strip it, skip it
    when empty, stop on "exit" or "quit" in any letter case, otherwise send it
    once to the chat session; a failed send is reported and the loop goes on,
    and an interrupt or the end of input ends the loop. */
module ChatLoop {
  import Text
  import Formatter

  /** One prompt's worth of standard input: the line `input()` returned (without
      its newline), or an interrupt while waiting for it. The end of the event
      sequence is the end of standard input. */
  datatype InputEvent = Line(text: string) | Interrupt

  /** What one `chat.send_message` call did: a reply with its text, or an exception. */
  datatype SendOutcome = Replied(text: string) | SendFailed(error: string)

  /** One message sent to the session and what came of it. */
  datatype Turn = Turn(question: string, outcome: SendOutcome)

  /** Why the loop ended. */
  datatype Ending = QuitCommand | EndOfInput | Interrupted

  /** What one input does to the loop. */
  datatype Step = Skip | Stop(ending: Ending) | Send(question: string)

  /** `s.lower() in {"quit", "exit"}`. */
  predicate IsQuitCommand(s: string) {
    Text.Lower(s) == "quit" || Text.Lower(s) == "exit"
  }

  /** How the loop treats one input. */
  function Classify(e: InputEvent): (step: Step)
    ensures step.Send? ==> e.Line? && step.question == Text.Strip(e.text)
  {
    match e
    case Interrupt => Stop(Interrupted)
    case Line(text) =>
      var question := Text.Strip(text);
      if question == [] then Skip
      else if IsQuitCommand(question) then Stop(QuitCommand)
      else Send(question)
  }

  /** What each input does, in input order. */
  function Steps(events: seq<InputEvent>): (steps: seq<Step>)
    ensures |steps| == |events|
    decreases |events|
  {
    if events == [] then [] else [Classify(events[0])] + Steps(events[1..])
  }

  /** The messages a run of steps sends: every `Send` before the first `Stop`. */
  function Sent(steps: seq<Step>): seq<string>
    decreases |steps|
  {
    if steps == [] then []
    else
      match steps[0]
      case Skip => Sent(steps[1..])
      case Stop(_) => []
      case Send(question) => [question] + Sent(steps[1..])
  }

  /** Why a run of steps ends: the first `Stop`, or the end of input. */
  function Ends(steps: seq<Step>): Ending
    decreases |steps|
  {
    if steps == [] then EndOfInput
    else
      match steps[0]
      case Stop(ending) => ending
      case _ => Ends(steps[1..])
  }

  /** Some step among `steps` ends the loop. */
  predicate Stops(steps: seq<Step>)
    decreases |steps|
  {
    steps != [] && (steps[0].Stop? || Stops(steps[1..]))
  }

  /** The messages the loop sends for `events`, in order. */
  function Sends(events: seq<InputEvent>): seq<string> {
    Sent(Steps(events))
  }

  /** Why the loop ends on `events`. */
  function EndingOf(events: seq<InputEvent>): Ending {
    Ends(Steps(events))
  }

  /** Some input among `events` ends the loop. */
  predicate HasStop(events: seq<InputEvent>) {
    Stops(Steps(events))
  }

  /** The messages of the turns, in order. */
  function Questions(turns: seq<Turn>): seq<string>
  {
    seq(|turns|, j requires 0 <= j < |turns| => turns[j].question)
  }

  /** The replies as the loop prints them: the successful ones only, each
      formatted once. */
  function Shown(turns: seq<Turn>): seq<string>
    decreases |turns|
  {
    if turns == [] then []
    else
      var last := turns[|turns| - 1];
      Shown(turns[..|turns| - 1])
      + (if last.outcome.Replied? then [Formatter.ToMarkdown(last.outcome.text)] else [])
  }

  /** The loop of `run_chat_loop`. `events` is standard input, prompt by prompt;
      `respond` stands for the session: given the turns so far and a message, it
      says what `send_message` does. It returns every turn, the replies as
      printed, and why the loop ended. */
  method RunChatLoop(events: seq<InputEvent>, respond: (seq<Turn>, string) -> SendOutcome)
    returns (turns: seq<Turn>, shown: seq<string>, ending: Ending)
    // Exactly the messages `Sends` describes are sent, in that order; what the
    // session answers does not change which messages are sent.
    ensures Questions(turns) == Sends(events)
    // Each message is sent once, in the session as it stood after the earlier turns.
    ensures forall j :: 0 <= j < |turns| ==> turns[j].outcome == respond(turns[..j], turns[j].question)
    ensures shown == Shown(turns)
    ensures ending == EndingOf(events)
  {
    turns, shown, ending := [], [], EndOfInput;
    var i := 0;
    while i < |events|
      invariant 0 <= i <= |events|
      invariant Questions(turns) + Sends(events[i..]) == Sends(events)
      invariant EndingOf(events[i..]) == EndingOf(events)
      invariant forall j :: 0 <= j < |turns| ==> turns[j].outcome == respond(turns[..j], turns[j].question)
      invariant shown == Shown(turns)
    {
      var event := events[i];
      Unroll(events, i);
      if event.Interrupt? {
        ending := Interrupted;
        break;
      }
      var question := Text.Strip(event.text);
      if question == [] {
        i := i + 1;
        continue;
      }
      if IsQuitCommand(question) {
        ending := QuitCommand;
        break;
      }
      var outcome := respond(turns, question);
      ghost var before := turns;
      turns := turns + [Turn(question, outcome)];
      AppendTurn(before, Turn(question, outcome), Sends(events[i + 1..]));
      if outcome.Replied? {
        shown := shown + [Formatter.ToMarkdown(outcome.text)];
      }
      i := i + 1;
    }
  }

  /** One input of the loop, as `Sends` and `EndingOf` see it. */
  lemma Unroll(events: seq<InputEvent>, i: nat)
    requires i < |events|
    ensures var rest := events[i + 1..];
      match Classify(events[i])
      case Skip => Sends(events[i..]) == Sends(rest) && EndingOf(events[i..]) == EndingOf(rest)
      case Stop(ending) => Sends(events[i..]) == [] && EndingOf(events[i..]) == ending
      case Send(q) => Sends(events[i..]) == [q] + Sends(rest) && EndingOf(events[i..]) == EndingOf(rest)
  {
    assert events[i..] == [events[i]] + events[i + 1..];
    StepsCons(events[i], events[i + 1..]);
    StepCons(Classify(events[i]), Steps(events[i + 1..]));
  }

  /** The steps of an input in front of more input. */
  lemma StepsCons(e: InputEvent, b: seq<InputEvent>)
    ensures Steps([e] + b) == [Classify(e)] + Steps(b)
  {
    assert ([e] + b)[0] == e && ([e] + b)[1..] == b;
  }

  /** The i-th step is what the i-th input does on its own. */
  lemma {:induction false} StepsClassify(events: seq<InputEvent>)
    ensures forall i :: 0 <= i < |events| ==> Steps(events)[i] == Classify(events[i])
    decreases |events|
  {
    if events != [] {
      StepsClassify(events[1..]);
      forall i | 1 <= i < |events|
        ensures Steps(events)[i] == Classify(events[i])
      {
        assert Steps(events)[i] == Steps(events[1..])[i - 1];
        assert events[1..][i - 1] == events[i];
      }
    }
  }

  /** One step in front of more steps. */
  lemma StepCons(step: Step, t: seq<Step>)
    ensures step.Skip? ==> Sent([step] + t) == Sent(t)
    ensures step.Stop? ==> Sent([step] + t) == []
    ensures step.Send? ==> Sent([step] + t) == [step.question] + Sent(t)
    ensures Ends([step] + t) == if step.Stop? then step.ending else Ends(t)
    ensures Stops([step] + t) == (step.Stop? || Stops(t))
  {
    assert ([step] + t)[0] == step && ([step] + t)[1..] == t;
  }

  /** Appending a turn extends the questions and keeps the earlier histories. */
  lemma AppendTurn(before: seq<Turn>, turn: Turn, later: seq<string>)
    ensures Questions(before + [turn]) + later == Questions(before) + ([turn.question] + later)
    ensures forall j :: 0 <= j <= |before| ==> (before + [turn])[..j] == before[..j]
  {
    assert Questions(before + [turn]) == Questions(before) + [turn.question];
  }

  // ---------------------------------------------------------------------------
  // What the loop promises
  // ---------------------------------------------------------------------------

  /** What the loop sends for one input is non-empty, already stripped, and not a
      quit command. */
  lemma SentQuestion(e: InputEvent)
    requires Classify(e).Send?
    ensures var q := Classify(e).question;
      q != [] && Text.Strip(q) == q && !IsQuitCommand(q)
  {
    Text.StripIdempotent(e.text);
  }

  /** Every message sent is non-empty, already stripped, and not a quit command. */
  lemma {:induction false} SendsAreQuestions(events: seq<InputEvent>)
    ensures forall q :: q in Sends(events) ==>
      q != [] && Text.Strip(q) == q && !IsQuitCommand(q)
    decreases |events|
  {
    if events != [] {
      SendsAreQuestions(events[1..]);
      assert events == [events[0]] + events[1..];
      StepsCons(events[0], events[1..]);
      StepCons(Classify(events[0]), Steps(events[1..]));
      if Classify(events[0]).Send? {
        SentQuestion(events[0]);
      }
    }
  }

  /** Steps after the first stop do not matter; before it, the two halves are
      handled one after the other. */
  lemma {:induction false} SentAppend(s: seq<Step>, t: seq<Step>)
    ensures Sent(s + t) == Sent(s) + (if Stops(s) then [] else Sent(t))
    ensures Ends(s + t) == if Stops(s) then Ends(s) else Ends(t)
    decreases |s|
  {
    if s == [] {
      assert s + t == t;
    } else {
      assert s + t == [s[0]] + (s[1..] + t) && s == [s[0]] + s[1..];
      SentAppend(s[1..], t);
      StepCons(s[0], s[1..] + t);
      StepCons(s[0], s[1..]);
    }
  }

  /** Classifying input piece by piece gives the same steps. */
  lemma {:induction false} StepsAppend(a: seq<InputEvent>, b: seq<InputEvent>)
    ensures Steps(a + b) == Steps(a) + Steps(b)
    decreases |a|
  {
    if a == [] {
      assert a + b == b;
    } else {
      assert a + b == [a[0]] + (a[1..] + b) && a == [a[0]] + a[1..];
      StepsAppend(a[1..], b);
      StepsCons(a[0], a[1..] + b);
      StepsCons(a[0], a[1..]);
    }
  }

  /** Input after the first stop is never read; before it, the two halves of the
      input are handled one after the other. */
  lemma SendsAppend(a: seq<InputEvent>, b: seq<InputEvent>)
    ensures Sends(a + b) == Sends(a) + (if HasStop(a) then [] else Sends(b))
    ensures EndingOf(a + b) == if HasStop(a) then EndingOf(a) else EndingOf(b)
  {
    StepsAppend(a, b);
    SentAppend(Steps(a), Steps(b));
  }

  /** The loop ends at end of input exactly when no input stops it. */
  lemma {:induction false} EndOfInputIffNoStop(events: seq<InputEvent>)
    ensures EndingOf(events) == EndOfInput <==> !HasStop(events)
    decreases |events|
  {
    if events != [] {
      assert events == [events[0]] + events[1..];
      StepsCons(events[0], events[1..]);
      StepCons(Classify(events[0]), Steps(events[1..]));
      EndOfInputIffNoStop(events[1..]);
    }
  }

  /** What an input does, in the middle of a run that has not stopped before it. */
  lemma InputAfter(a: seq<InputEvent>, e: InputEvent, b: seq<InputEvent>)
    requires !HasStop(a)
    ensures Sends(a + [e] + b) == Sends(a) + Sent([Classify(e)] + Steps(b))
    ensures EndingOf(a + [e] + b) == Ends([Classify(e)] + Steps(b))
  {
    assert a + [e] + b == a + ([e] + b);
    SendsAppend(a, [e] + b);
    StepsCons(e, b);
  }

  /** A line that is empty once stripped sends nothing and does not stop the loop:
      the run is as if it had never been typed. */
  lemma BlankLineSkipped(a: seq<InputEvent>, text: string, b: seq<InputEvent>)
    requires Text.AllSpace(text)
    ensures Sends(a + [Line(text)] + b) == Sends(a + b)
    ensures EndingOf(a + [Line(text)] + b) == EndingOf(a + b)
  {
    Text.StripEmptyIffBlank(text);
    assert Classify(Line(text)) == Skip;
    StepCons(Skip, Steps(b));
    SendsAppend(a, b);
    if HasStop(a) {
      SendsAppend(a, [Line(text)] + b);
      assert a + [Line(text)] + b == a + ([Line(text)] + b);
    } else {
      InputAfter(a, Line(text), b);
    }
  }

  /** A quit command (any letter case, any surrounding whitespace) sends nothing
      and ends the loop: nothing typed after it is sent. */
  lemma QuitLineStops(a: seq<InputEvent>, text: string, b: seq<InputEvent>)
    requires !HasStop(a) && IsQuitCommand(Text.Strip(text))
    ensures Sends(a + [Line(text)] + b) == Sends(a)
    ensures EndingOf(a + [Line(text)] + b) == QuitCommand
  {
    assert Text.Strip(text) != [] by {
      assert |Text.Lower(Text.Strip(text))| == 4;
    }
    assert Classify(Line(text)) == Stop(QuitCommand);
    InputAfter(a, Line(text), b);
    StepCons(Stop(QuitCommand), Steps(b));
  }

  /** An interrupt at the prompt sends nothing and ends the loop. */
  lemma InterruptStops(a: seq<InputEvent>, b: seq<InputEvent>)
    requires !HasStop(a)
    ensures Sends(a + [Interrupt] + b) == Sends(a)
    ensures EndingOf(a + [Interrupt] + b) == Interrupted
  {
    InputAfter(a, Interrupt, b);
    StepCons(Stop(Interrupted), Steps(b));
  }

  /** Any other line is sent exactly once, as its stripped text, after everything
      typed before it and before everything typed after it. */
  lemma QuestionSentOnce(a: seq<InputEvent>, text: string, b: seq<InputEvent>)
    requires !HasStop(a)
    requires Text.Strip(text) != [] && !IsQuitCommand(Text.Strip(text))
    ensures Sends(a + [Line(text)] + b) == Sends(a) + [Text.Strip(text)] + Sends(b)
    ensures EndingOf(a + [Line(text)] + b) == EndingOf(b)
  {
    var q := Text.Strip(text);
    assert Classify(Line(text)) == Send(q);
    InputAfter(a, Line(text), b);
    StepCons(Send(q), Steps(b));
    Text.AppendAssoc(Sends(a), [q], Sends(b));
  }

  /** A run of steps sends no more messages than it has steps. */
  lemma {:induction false} SentBounded(steps: seq<Step>)
    ensures |Sent(steps)| <= |steps|
    decreases |steps|
  {
    if steps != [] {
      SentBounded(steps[1..]);
    }
  }

  /** No more messages are sent than lines are typed. */
  lemma SendsBounded(events: seq<InputEvent>)
    ensures |Sends(events)| <= |events|
  {
    SentBounded(Steps(events));
  }

  /** `s` spells `word` when every ASCII capital of `s` is read as its small
      letter: each character is the word's own or the capital 32 code points
      below it. */
  predicate MatchesIgnoringCase(s: string, word: string) {
    |s| == |word| &&
    forall i :: 0 <= i < |word| ==> s[i] == word[i] || s[i] as int + 32 == word[i] as int
  }

  /** Lower-casing gives a word of small letters exactly when the text matches
      it ignoring case. */
  lemma LowerIsWord(s: string, word: string)
    requires forall i :: 0 <= i < |word| ==> 'a' <= word[i] <= 'z'
    ensures Text.Lower(s) == word <==> MatchesIgnoringCase(s, word)
  {
    var r := Text.Lower(s);
    if r == word {
      forall i | 0 <= i < |word|
        ensures s[i] == word[i] || s[i] as int + 32 == word[i] as int
      {
        assert r[i] == Text.LowerChar(s[i]);
      }
    }
    if MatchesIgnoringCase(s, word) {
      forall i | 0 <= i < |word|
        ensures r[i] == word[i]
      {
        assert r[i] == Text.LowerChar(s[i]);
      }
    }
  }

  /** A stripped input is a quit command exactly when it is "quit" or "exit"
      in any letter case. */
  lemma QuitCommandIff(s: string)
    ensures IsQuitCommand(s) <==> MatchesIgnoringCase(s, "quit") || MatchesIgnoringCase(s, "exit")
  {
    LowerIsWord(s, "quit");
    LowerIsWord(s, "exit");
  }

  /** "  QUIT  " with any whitespace around it is a quit command once stripped. */
  lemma PaddedQuit(before: string, after: string)
    requires Text.AllSpace(before) && Text.AllSpace(after)
    ensures IsQuitCommand(Text.Strip(before + "QUIT" + after))
  {
    Text.StripSurrounded(before, "QUIT", after);
    QuitCommandIff("QUIT");
  }
}
