/**
  `TrajectoryParser.convert_to_docent_format`: a parsed trajectory becomes one run, an
  ordered conversation of user and assistant messages with a small metadata record.
 */
module DocentFormat {
  import opened Trajectory

  datatype Role = User | Assistant

  datatype Message = Message(role: Role, content: string)

  datatype RunMetadata = RunMetadata(filename: string, experimentType: string, totalRounds: nat)

  datatype Run = Run(messages: seq<Message>, metadata: RunMetadata)

  const ExperimentType: string := "multi_agent_negotiation"

  /** The assistant message's content: the public answer, or the full answer when the public answer is empty. */
  function AssistantContent(r: ParsedRound): string {
    if r.publicAnswer != "" then r.publicAnswer else r.fullAnswer
  }

  /** What one round adds to the conversation: its prompt as a user message when the prompt is
      non-empty, then its answer as an assistant message. */
  function RoundMessages(r: ParsedRound): seq<Message> {
    (if r.prompt != "" then [Message(User, r.prompt)] else []) + [Message(Assistant, AssistantContent(r))]
  }

  /** The conversation the rounds build, in round order. */
  function Messages(rounds: seq<ParsedRound>): seq<Message> {
    if rounds == [] then []
    else Messages(rounds[..|rounds| - 1]) + RoundMessages(rounds[|rounds| - 1])
  }

  /** The non-empty prompts of the rounds, in round order. */
  function Prompts(rounds: seq<ParsedRound>): seq<string> {
    if rounds == [] then []
    else
      var r := rounds[|rounds| - 1];
      Prompts(rounds[..|rounds| - 1]) + (if r.prompt != "" then [r.prompt] else [])
  }

  /** The answers of the rounds, one per round, in round order. */
  function Answers(rounds: seq<ParsedRound>): seq<string> {
    seq(|rounds|, i requires 0 <= i < |rounds| => AssistantContent(rounds[i]))
  }

  /** The contents of the messages with role `role`, in order. */
  function Contents(msgs: seq<Message>, role: Role): seq<string> {
    if msgs == [] then []
    else
      var m := msgs[|msgs| - 1];
      Contents(msgs[..|msgs| - 1], role) + (if m.role == role then [m.content] else [])
  }

  /** The run `convert_to_docent_format` builds around the conversation. */
  function RunOf(parsed: ParsedTrajectory): Run {
    Run(Messages(parsed.rounds), RunMetadata(parsed.filename, ExperimentType, parsed.metadata.totalRounds))
  }

  /**
    `convert_to_docent_format(parsed_data)`: the messages are appended round by round, and the
    one run built from them is returned.
   */
  method ConvertToDocentFormat(parsed: ParsedTrajectory) returns (docentRuns: seq<Run>)
    ensures docentRuns == [RunOf(parsed)]
  {
    docentRuns := [];
    var messages: seq<Message> := [];
    for i := 0 to |parsed.rounds|
      invariant messages == Messages(parsed.rounds[..i])
    {
      var roundData := parsed.rounds[i];
      if roundData.prompt != "" {
        var promptMessage := Message(User, roundData.prompt);
        messages := messages + [promptMessage];
      }
      var message := Message(Assistant, if roundData.publicAnswer != "" then roundData.publicAnswer else roundData.fullAnswer);
      messages := messages + [message];
      assert parsed.rounds[..i + 1][..i] == parsed.rounds[..i];
    }
    assert parsed.rounds[..|parsed.rounds|] == parsed.rounds;
    var run := Run(messages, RunMetadata(parsed.filename, ExperimentType, parsed.metadata.totalRounds));
    docentRuns := docentRuns + [run];
  }

  /** The one run carries the file name and round count of the parse, and the experiment type. */
  lemma RunMetadataOf(parsed: ParsedTrajectory)
    ensures RunOf(parsed).metadata.filename == parsed.filename
    ensures RunOf(parsed).metadata.experimentType == "multi_agent_negotiation"
    ensures RunOf(parsed).metadata.totalRounds == parsed.metadata.totalRounds
  {
  }

  /** The assistant message says the public answer, or the full answer when the public answer
      is empty; it is empty only when both are. */
  lemma AssistantContentCases(r: ParsedRound)
    ensures r.publicAnswer != "" ==> AssistantContent(r) == r.publicAnswer
    ensures r.publicAnswer == "" ==> AssistantContent(r) == r.fullAnswer
    ensures AssistantContent(r) == "" <==> r.publicAnswer == "" && r.fullAnswer == ""
  {
  }

  /** There are as many messages as rounds plus non-empty prompts. */
  lemma {:induction false} MessageCount(rounds: seq<ParsedRound>)
    ensures |Messages(rounds)| == |rounds| + |Prompts(rounds)|
  {
    if rounds != [] {
      MessageCount(rounds[..|rounds| - 1]);
    }
  }

  /** The conversation of `a` then `b` is that of `a` followed by that of `b`: each round's
      messages stay together, in round order. */
  lemma {:induction false} MessagesAppend(a: seq<ParsedRound>, b: seq<ParsedRound>)
    ensures Messages(a + b) == Messages(a) + Messages(b)
  {
    if b == [] {
      assert a + b == a;
    } else {
      var b' := b[..|b| - 1];
      assert (a + b)[..|a + b| - 1] == a + b';
      assert (a + b)[|a + b| - 1] == b[|b| - 1];
      MessagesAppend(a, b');
    }
  }

  /** Selecting the messages of one role distributes over concatenation. */
  lemma {:induction false} ContentsAppend(a: seq<Message>, b: seq<Message>, role: Role)
    ensures Contents(a + b, role) == Contents(a, role) + Contents(b, role)
  {
    if b == [] {
      assert a + b == a;
    } else {
      var b' := b[..|b| - 1];
      assert (a + b)[..|a + b| - 1] == a + b';
      assert (a + b)[|a + b| - 1] == b[|b| - 1];
      ContentsAppend(a, b', role);
    }
  }

  /** One round's messages, selected by role. */
  lemma RoundContents(r: ParsedRound)
    ensures Contents(RoundMessages(r), User) == (if r.prompt != "" then [r.prompt] else [])
    ensures Contents(RoundMessages(r), Assistant) == [AssistantContent(r)]
  {
    var am := [Message(Assistant, AssistantContent(r))];
    assert am[..0] == [];
    if r.prompt != "" {
      var pm := [Message(User, r.prompt)];
      assert pm[..0] == [];
      assert RoundMessages(r) == pm + am;
      ContentsAppend(pm, am, User);
      ContentsAppend(pm, am, Assistant);
    } else {
      assert RoundMessages(r) == am;
    }
  }

  /** The user messages are the non-empty prompts, and the assistant messages are the answers,
      one per round, each in round order. */
  lemma {:induction false} MessagesByRole(rounds: seq<ParsedRound>)
    ensures Contents(Messages(rounds), User) == Prompts(rounds)
    ensures Contents(Messages(rounds), Assistant) == Answers(rounds)
  {
    if rounds != [] {
      var init := rounds[..|rounds| - 1];
      var r := rounds[|rounds| - 1];
      MessagesByRole(init);
      ContentsAppend(Messages(init), RoundMessages(r), User);
      ContentsAppend(Messages(init), RoundMessages(r), Assistant);
      RoundContents(r);
      assert Answers(rounds) == Answers(init) + [AssistantContent(r)];
    }
  }

  /** Every user message in `m` is followed at once by an assistant message. */
  predicate PromptsAnswered(m: seq<Message>) {
    forall j :: 0 <= j < |m| && m[j].role == User ==> j + 1 < |m| && m[j + 1].role == Assistant
  }

  /** Every user message is followed at once by an assistant message: a prompt is always answered. */
  lemma {:induction false} PromptAnswered(rounds: seq<ParsedRound>)
    ensures PromptsAnswered(Messages(rounds))
  {
    if rounds != [] {
      var init := rounds[..|rounds| - 1];
      PromptAnswered(init);
      var m := Messages(rounds);
      var mi := Messages(init);
      var rm := RoundMessages(rounds[|rounds| - 1]);
      assert m == mi + rm;
      assert rm[|rm| - 1].role == Assistant;
      assert |rm| == 2 ==> rm[1].role == Assistant;
      assert rm[0].role == User ==> |rm| == 2;
      forall j | 0 <= j < |m| && m[j].role == User ensures j + 1 < |m| && m[j + 1].role == Assistant {
        if j < |mi| {
          assert m[j] == mi[j];
          assert m[j + 1] == mi[j + 1];
        } else {
          assert m[j] == rm[j - |mi|];
          assert m[j + 1] == rm[1];
        }
      }
    }
  }

  /** When every prompt is non-empty the conversation has 2N messages, alternating: the prompt
      of round i at position 2i, its answer at 2i + 1. */
  lemma {:induction false} AllPromptsAlternate(rounds: seq<ParsedRound>)
    requires forall i :: 0 <= i < |rounds| ==> rounds[i].prompt != ""
    ensures |Messages(rounds)| == 2 * |rounds|
    ensures forall i :: 0 <= i < |rounds| ==>
      && Messages(rounds)[2 * i] == Message(User, rounds[i].prompt)
      && Messages(rounds)[2 * i + 1] == Message(Assistant, AssistantContent(rounds[i]))
  {
    if rounds != [] {
      var n := |rounds| - 1;
      var init := rounds[..n];
      AllPromptsAlternate(init);
      var m := Messages(rounds);
      var mi := Messages(init);
      assert m == mi + [Message(User, rounds[n].prompt), Message(Assistant, AssistantContent(rounds[n]))];
      forall i | 0 <= i < |rounds|
        ensures m[2 * i] == Message(User, rounds[i].prompt)
        ensures m[2 * i + 1] == Message(Assistant, AssistantContent(rounds[i]))
      {
        if i < n {
          assert init[i] == rounds[i];
          assert m[2 * i] == mi[2 * i];
          assert m[2 * i + 1] == mi[2 * i + 1];
        }
      }
    }
  }

  /** When no prompt is set the conversation is the answers alone, as assistant messages. */
  lemma {:induction false} NoPromptsOnlyAnswers(rounds: seq<ParsedRound>)
    requires forall i :: 0 <= i < |rounds| ==> rounds[i].prompt == ""
    ensures Messages(rounds) == seq(|rounds|, i requires 0 <= i < |rounds| => Message(Assistant, AssistantContent(rounds[i])))
  {
    if rounds != [] {
      var n := |rounds| - 1;
      NoPromptsOnlyAnswers(rounds[..n]);
      assert RoundMessages(rounds[n]) == [Message(Assistant, AssistantContent(rounds[n]))];
    }
  }

  /** For the record a file parses to, the run has one assistant message per input round, and
      its round count is that number. */
  lemma RunOfParsedFile(config: AgentConfigs.Config, filepath: string, data: RawTrajectory)
    ensures var run := RunOf(ParsedTrajectoryOf(config, filepath, data)); var raws := data.rounds.GetOr([]);
      && run.metadata.totalRounds == |raws|
      && |Contents(run.messages, Assistant)| == |raws|
      && |run.messages| == |raws| + |Prompts(ParsedTrajectoryOf(config, filepath, data).rounds)|
      && run.metadata.filename == PathName(filepath)
  {
    var p := ParsedTrajectoryOf(config, filepath, data);
    ParsedTrajectoryShape(config, filepath, data);
    MessagesByRole(p.rounds);
    MessageCount(p.rounds);
  }
}
