/**
  `TrajectoryParser.parse_trajectory_file` and `TrajectoryParser._parse_round`: one decoded
  trajectory file becomes a record of parsed rounds plus metadata.
 */
module Trajectory {
  import opened Wrappers
  import opened Text
  import opened TagSpans
  import opened AgentConfigs

  /** One element of a file's `rounds` list, with the keys the parser reads; an absent key is None. */
  datatype RawRound = RawRound(agent: Option<string>, prompt: Option<string>,
                               fullAnswer: Option<string>, publicAnswer: Option<string>)

  /** A decoded trajectory file, with the keys the parser reads; an absent key is None. */
  datatype RawTrajectory = RawTrajectory(slotAssignment: Option<seq<string>>, rounds: Option<seq<RawRound>>,
                                         finishedRounds: Option<int>)

  /** The record `_parse_round` returns. `agentConfig` is None where the source stores `{}`. */
  datatype ParsedRound = ParsedRound(
    roundIndex: nat,
    agent: string,
    agentConfig: Option<AgentConfig>,
    prompt: string,
    fullAnswer: string,
    publicAnswer: string,
    dealsProposed: seq<string>,
    scratchpadReasoning: Option<string>,
    messageLength: nat,
    hasScratchpad: bool,
    hasDeal: bool)

  datatype TrajectoryMetadata = TrajectoryMetadata(config: Config, totalRounds: nat, finishedRounds: int)

  /** The record `parse_trajectory_file` returns. */
  datatype ParsedTrajectory = ParsedTrajectory(filename: string, slotAssignment: seq<string>,
                                               rounds: seq<ParsedRound>, metadata: TrajectoryMetadata)

  // ---------------------------------------------------------------------------
  // Path(filepath).name
  // ---------------------------------------------------------------------------

  /** The last path component that is neither empty nor `.`, or "" when there is none. */
  function LastName(parts: seq<string>): (r: string)
    ensures r != "."
    ensures r == "" || r in parts
  {
    if parts == [] then ""
    else
      var p := parts[|parts| - 1];
      if p != "" && p != "." then p else LastName(parts[..|parts| - 1])
  }

  /** The name chosen is the LAST component that is neither empty nor `.`: only empty and `.`
      components follow it, and when there is none every component is empty or `.`. */
  lemma {:induction false} LastNameIsLast(parts: seq<string>)
    ensures var r := LastName(parts);
      && (r != "" ==>
        exists i :: (0 <= i < |parts| && parts[i] == r && forall j :: i < j < |parts| ==> parts[j] == "" || parts[j] == "."))
      && (r == "" ==> forall j :: 0 <= j < |parts| ==> parts[j] == "" || parts[j] == ".")
  {
    if parts != [] {
      var n := |parts| - 1;
      var p := parts[n];
      if p == "" || p == "." {
        var init := parts[..n];
        LastNameIsLast(init);
        var r := LastName(init);
        if r != "" {
          var i :| 0 <= i < |init| && init[i] == r && forall j :: i < j < |init| ==> init[j] == "" || init[j] == ".";
          assert parts[i] == r;
          assert forall j :: i < j < |parts| ==> parts[j] == "" || parts[j] == "." by {
            forall j | i < j < |parts| ensures parts[j] == "" || parts[j] == "." {
              if j < n { assert parts[j] == init[j]; }
            }
          }
        } else {
          forall j | 0 <= j < |parts| ensures parts[j] == "" || parts[j] == "." {
            if j < n { assert parts[j] == init[j]; }
          }
        }
      }
    }
  }

  /** `Path(path).name` for a POSIX path: `/` separates components, and empty and `.`
      components are dropped. */
  function PathName(path: string): string {
    LastName(Split(path, '/'))
  }

  /** A file name holds no `/` and is never `.`. */
  lemma PathNameIsComponent(path: string)
    ensures '/' !in PathName(path) && PathName(path) != "."
  {
    SplitFieldsFree(path, '/');
  }

  /** The name of `dir/name` is `name`, whatever the directory part. */
  lemma PathNameOf(dir: string, name: string)
    requires '/' !in name && name != "" && name != "."
    ensures PathName(dir + "/" + name) == name
  {
    assert dir + "/" + name == dir + ['/'] + name;
    SplitSnoc(dir, name, '/');
  }

  /** A trailing `/` or `/.` does not change the name: `dir/name/` and `dir/name/.` are named `name`. */
  lemma PathNameDropsTail(dir: string, name: string, tail: string)
    requires '/' !in name && name != "" && name != "."
    requires tail == "" || tail == "."
    ensures PathName(dir + "/" + name + "/" + tail) == name
  {
    assert dir + "/" + name + "/" + tail == (dir + ['/'] + name) + ['/'] + tail;
    SplitSnoc(dir + ['/'] + name, tail, '/');
    SplitSnoc(dir, name, '/');
    var parts := Split(dir, '/') + [name] + [tail];
    var init := Split(dir, '/') + [name];
    assert parts[..|parts| - 1] == init;
    assert init[|init| - 1] == name;
    assert LastName(init) == name;
    assert LastName(parts) == LastName(init);
  }

  /** A bare file name is its own name. */
  lemma PathNameBare(name: string)
    requires '/' !in name && name != "" && name != "."
    ensures PathName(name) == name
  {
    SplitAfterPiece(name, [], '/');
    assert name + [] == name;
  }

  // ---------------------------------------------------------------------------
  // _parse_round
  // ---------------------------------------------------------------------------

  /** The agent's config record, or None (the source's empty dict) when the agent is not configured. */
  function AgentConfigFor(config: Config, agent: string): Option<AgentConfig> {
    if agent in config then Some(config[agent]) else None
  }

  /** `_parse_round(round_data, round_idx)`. */
  function ParseRound(config: Config, r: RawRound, roundIdx: nat): ParsedRound {
    var agent := r.agent.GetOr("");
    var fullAnswer := r.fullAnswer.GetOr("");
    var deals := Deals(fullAnswer);
    var scratchpad := Scratchpad(fullAnswer);
    ParsedRound(
      roundIdx,
      agent,
      AgentConfigFor(config, agent),
      r.prompt.GetOr(""),
      fullAnswer,
      PublicAnswer(fullAnswer, r.publicAnswer),
      deals,
      scratchpad,
      |fullAnswer|,
      scratchpad.Some?,
      |deals| > 0)
  }

  /** The fields copied from the round: absent keys read as '', and the length is that of the
      full answer. */
  lemma ParseRoundFields(config: Config, r: RawRound, roundIdx: nat)
    ensures var p := ParseRound(config, r, roundIdx);
      && p.roundIndex == roundIdx
      && p.agent == r.agent.GetOr("")
      && p.prompt == r.prompt.GetOr("")
      && p.fullAnswer == r.fullAnswer.GetOr("")
      && p.messageLength == |p.fullAnswer|
      && (r.fullAnswer.None? ==> p.messageLength == 0 && p.dealsProposed == [] && !p.hasDeal
                                  && !p.hasScratchpad && p.publicAnswer == r.publicAnswer.GetOr(""))
  {
    if r.fullAnswer.None? {
      NoOpenNoSpan("", AnswerOpen, AnswerClose);
    }
  }

  /** `deals_proposed` is the scanner's list, each entry non-empty and free of `<`, and `has_deal`
      holds exactly when some position of the full answer starts a deal match. */
  lemma ParseRoundDeals(config: Config, r: RawRound, roundIdx: nat)
    ensures var p := ParseRound(config, r, roundIdx);
      && p.dealsProposed == Deals(p.fullAnswer)
      && (forall j :: 0 <= j < |p.dealsProposed| ==> p.dealsProposed[j] != [] && '<' !in p.dealsProposed[j])
      && (p.hasDeal <==> p.dealsProposed != [])
      && (p.hasDeal <==> exists k :: 0 <= k <= |p.fullAnswer| && DealAt(p.fullAnswer[k..]).Some?)
  {
    var fa := r.fullAnswer.GetOr("");
    DealsWellFormed(fa);
    DealsEmptyIff(fa);
  }

  /** `has_scratchpad` holds exactly when `scratchpad_reasoning` is present, exactly when some
      position of the full answer starts a complete scratchpad span; the reasoning is stripped. */
  lemma ParseRoundScratchpad(config: Config, r: RawRound, roundIdx: nat)
    ensures var p := ParseRound(config, r, roundIdx);
      && p.scratchpadReasoning == Scratchpad(p.fullAnswer)
      && (p.hasScratchpad <==> p.scratchpadReasoning.Some?)
      && (p.hasScratchpad <==>
          exists k :: 0 <= k < |p.fullAnswer| && SpanAt(p.fullAnswer[k..], ScratchpadOpen, ScratchpadClose).Some?)
      && (p.hasScratchpad ==> Strip(p.scratchpadReasoning.value) == p.scratchpadReasoning.value)
  {
    var fa := r.fullAnswer.GetOr("");
    ScratchpadAbsentIff(fa);
    var sp := FirstSpan(fa, ScratchpadOpen, ScratchpadClose);
    if sp.Some? {
      StripIdempotent(sp.value);
    }
  }

  /** `public_answer`: a complete answer span in the full answer wins, stripped; otherwise the
      round's own `public_answer`, or ''. */
  lemma ParseRoundAnswer(config: Config, r: RawRound, roundIdx: nat)
    ensures var p := ParseRound(config, r, roundIdx);
      var span := FirstSpan(p.fullAnswer, AnswerOpen, AnswerClose);
      && (span.Some? ==> p.publicAnswer == Strip(span.value) && !Occurs(span.value, AnswerClose))
      && (span.None? ==> p.publicAnswer == r.publicAnswer.GetOr(""))
      && (!Occurs(p.fullAnswer, AnswerOpen) ==> p.publicAnswer == r.publicAnswer.GetOr(""))
  {
    var fa := r.fullAnswer.GetOr("");
    FirstSpanSound(fa, AnswerOpen, AnswerClose);
    if !Occurs(fa, AnswerOpen) {
      AnswerFallback(fa, r.publicAnswer);
    }
  }

  /** `agent_config` in terms of the lines of `config.txt`: present exactly when some line of at
      least five fields names the agent, and then the record of the last such line. */
  lemma ParseRoundAgentConfig(lines: seq<string>, r: RawRound, roundIdx: nat)
    ensures var p := ParseRound(ConfigOf(lines), r, roundIdx);
      var last := LastDefinition(LineEntries(lines), p.agent);
      && (p.agentConfig.Some? <==> last.Some?)
      && (p.agentConfig.None? ==> forall i :: 0 <= i < |lines| ==> !Names(ConfigLine(lines[i]), p.agent))
      && (p.agentConfig.Some? ==> p.agentConfig.value == ConfigLine(lines[last.value]).value.1)
  {
    ConfigLookup(lines, r.agent.GetOr(""));
  }

  // ---------------------------------------------------------------------------
  // parse_trajectory_file
  // ---------------------------------------------------------------------------

  /** The rounds of a file, each parsed with its position. */
  function ParsedRounds(config: Config, raws: seq<RawRound>): seq<ParsedRound> {
    seq(|raws|, i requires 0 <= i < |raws| => ParseRound(config, raws[i], i))
  }

  /** The record `parse_trajectory_file` builds from the decoded file `data` found at `filepath`. */
  function ParsedTrajectoryOf(config: Config, filepath: string, data: RawTrajectory): ParsedTrajectory {
    var raws := data.rounds.GetOr([]);
    ParsedTrajectory(
      PathName(filepath),
      data.slotAssignment.GetOr([]),
      ParsedRounds(config, raws),
      TrajectoryMetadata(config, |raws|, data.finishedRounds.GetOr(0)))
  }

  /** One parsed round per input round, in input order, each carrying its position; the
      round count in the metadata is that number; absent keys give `[]` and 0. */
  lemma ParsedTrajectoryShape(config: Config, filepath: string, data: RawTrajectory)
    ensures var p := ParsedTrajectoryOf(config, filepath, data); var raws := data.rounds.GetOr([]);
      && |p.rounds| == |raws| == p.metadata.totalRounds
      && (forall i :: 0 <= i < |p.rounds| ==> p.rounds[i].roundIndex == i)
      && (forall i :: 0 <= i < |p.rounds| ==> p.rounds[i] == ParseRound(config, raws[i], i))
      && (data.rounds.None? ==> p.rounds == [] && p.metadata.totalRounds == 0)
      && (data.slotAssignment.None? ==> p.slotAssignment == [])
      && (data.finishedRounds.None? ==> p.metadata.finishedRounds == 0)
      && p.metadata.config == config
      && p.filename == PathName(filepath)
  {
  }

  /**
    `parse_trajectory_file(filepath)`, given the decoded contents `data` of that file.
    The rounds are parsed one by one and appended in order.
   */
  method ParseTrajectoryFile(config: Config, filepath: string, data: RawTrajectory) returns (parsed: ParsedTrajectory)
    ensures parsed == ParsedTrajectoryOf(config, filepath, data)
  {
    var raws := data.rounds.GetOr([]);
    var rounds: seq<ParsedRound> := [];
    for roundIdx := 0 to |raws|
      invariant |rounds| == roundIdx
      invariant forall j :: 0 <= j < roundIdx ==> rounds[j] == ParseRound(config, raws[j], j)
    {
      var parsedRound := ParseRound(config, raws[roundIdx], roundIdx);
      rounds := rounds + [parsedRound];
    }
    parsed := ParsedTrajectory(
      PathName(filepath),
      data.slotAssignment.GetOr([]),
      rounds,
      TrajectoryMetadata(config, |raws|, data.finishedRounds.GetOr(0)));
  }
}
