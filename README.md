# Docent trajectory parser, modelled in Dafny

This project models the transform half of `TrajectoryParser` in
`docent/docent_trajectory_parser.py`, the script that prepares the JSON transcripts of
multi-agent negotiation experiments for the Docent trajectory-analysis platform. It covers these steps:

- **Loading the agent configuration** (`_load_config`). Each line of `config.txt` is stripped and split at commas. A line of five or more fields maps its first field to a record of the next four: `short_name`, `player_type`, `strategy` and `model`.
- **Parsing one round** (`_parse_round`). Three fixed patterns are scanned in the round's `full_answer`:
  - every `<DEAL>` capture;
  - the first `<SCRATCHPAD>` span, stripped;
  - the first `<ANSWER>` span, stripped. It wins over the round's own `public_answer` field.

  The round also gets its index, its agent's config record, the answer length and the `has_deal` / `has_scratchpad` flags.
- **Parsing one trajectory file** (`parse_trajectory_file`). The rounds are parsed in order and the file name and metadata are recorded.
- **Flattening** (`convert_to_docent_format`). A parsed trajectory becomes one run. The run holds one user message per non-empty prompt and one assistant message per round, plus the file name, the experiment type and the round count.
- **The batch loop** (`process_all_trajectories`). Every file is parsed and converted. A file that raises is skipped, and the loop carries on.

Files (modules):

- `wrappers.dfy` (`Wrappers`): `Option` (an absent JSON key; `GetOr` is `dict.get` with a default) and `Result` (a file that loads or raises).
- `text.dfy` (`Text`): Python's whitespace class, `str.strip()`, `str.split(',')`, `str.join`, and prefix and occurrence tests.
- `tag_spans.dfy` (`TagSpans`): the three patterns as scanners over suffixes. `DealAt` / `SpanAt` match at the head of a string. `Deals` is `re.findall`, and `FirstSpan` is `re.search`.
- `agent_config.dfy` (`AgentConfigs`): config lines, the map they build, and the `LoadConfig` loop.
- `trajectory.dfy` (`Trajectory`): raw and parsed records, `Path.name`, `ParseRound`, and the `ParseTrajectoryFile` loop.
- `docent_format.dfy` (`DocentFormat`): messages and runs, and the `ConvertToDocentFormat` loop.
- `batch.dfy` (`Batch`): the `ProcessAllTrajectories` loop and its bookkeeping.

Each loop of the source is a method with a `for` loop. Each method is proved equal to a specification function, and the properties are proved about those functions:

| method | specification |
|---|---|
| `LoadConfig` | `ConfigOf` |
| `ParseTrajectoryFile` | `ParsedTrajectoryOf` |
| `ConvertToDocentFormat` | `RunOf` |
| `ProcessAllTrajectories` | `AllRuns`, `Processed` |

`_parse_round` has no loop and no state, so it is a function.

How the DEAL pattern `<DEAL>\s*([^<]+)\s*</DEAL>` behaves:

- The capture runs from the first non-whitespace character after `<DEAL>` up to the first `<`.
- That `<` must begin `</DEAL>`, or that position does not match.
- Trailing whitespace stays in the capture: the greedy `[^<]+` has already taken it, and the second `\s*` matches nothing.
- When everything between the tags is whitespace, backtracking leaves the last whitespace character to the group. So `<DEAL>  </DEAL>` yields `" "`.
- `<DEAL></DEAL>` does not match.

Whitespace (`Text.IsSpace`) is the set CPython uses both for `str.strip()` and for `\s` in a `str` pattern.

How the two lazy patterns behave: a lazy pattern with DOTALL yields the text up to the first closing tag after the leftmost opening tag that has one.

## Model

| member | source | states |
|---|---|---|
| Text.Strip | docent/docent_trajectory_parser.py:26 | the stripped text is empty or starts and ends with a non-whitespace character |
| Text.StripRemovesSpace | docent/docent_trajectory_parser.py:26 | `strip()` removes only whitespace: the text is whitespace, then the result, then whitespace |
| Text.StripUnique | docent/docent_trajectory_parser.py:26 | whitespace + a core with non-whitespace ends + whitespace strips to exactly that core |
| Text.StripIdempotent | docent/docent_trajectory_parser.py:74 | stripping twice is stripping once, so the stored scratchpad and answer are already stripped |
| Text.Split | docent/docent_trajectory_parser.py:26 | `split(',')` gives one field more than there are commas, so at least one |
| Text.SplitFieldsFree | docent/docent_trajectory_parser.py:26 | no field of a split holds the separator |
| Text.JoinSplit | docent/docent_trajectory_parser.py:26 | joining the fields with the separator gives back the line |
| Text.SplitJoin | docent/docent_trajectory_parser.py:26 | splitting the join of separator-free fields gives back the fields |
| Text.SplitSnoc | docent/docent_trajectory_parser.py:43 | a separator-free piece after the last separator is the last field |
| AgentConfigs.LineFields | docent/docent_trajectory_parser.py:26 | no contract of its own: `line.strip().split(',')`; its properties are those of `Text.Strip` and `Text.Split`, and `FieldsOfLine` states them for one config line |
| AgentConfigs.ConfigLine | docent/docent_trajectory_parser.py:26-34 | no contract of its own: the entry one line contributes, present only with five or more fields; `FieldsOfLine` and `ShortLineSkipped` state its properties |
| AgentConfigs.ConfigOf | docent/docent_trajectory_parser.py:21-35 | no contract of its own: the dictionary the lines build in file order; `LoadConfig` is proved equal to it, and `ConfigLookup` and `ApplyLookup` state what it maps each name to |
| AgentConfigs.LoadConfig | docent/docent_trajectory_parser.py:18-35 | a missing file gives the empty map; otherwise the result is the map the lines build, one line at a time in file order |
| AgentConfigs.LastDefinition | docent/docent_trajectory_parser.py:27-29 | the index it returns is the last line entry naming the agent, or there is none |
| AgentConfigs.ApplyLookup | docent/docent_trajectory_parser.py:27-34 | a name is in the map exactly when some entry names it, and it maps to the record of the last such entry: a later line overwrites an earlier one |
| AgentConfigs.ConfigLookup | docent/docent_trajectory_parser.py:25-34 | the same in terms of lines: absent exactly when no line of five or more fields names the agent; otherwise the record of the last such line |
| AgentConfigs.FieldsOfLine | docent/docent_trajectory_parser.py:26-34 | a line of comma-free fields joined by commas, whose joined text starts and ends with a non-whitespace character (or is empty), surrounded by whitespace such as its line break, gives back exactly those fields; it contributes an entry exactly when it has at least five, keyed by field 0 with fields 1-4, extra fields ignored |
| AgentConfigs.ShortLineSkipped | docent/docent_trajectory_parser.py:27 | a line of fewer than five fields after a good line leaves the good line's entry alone in the map |
| TagSpans.LtFreePrefix | docent/docent_trajectory_parser.py:68 | the length of the longest `<`-free prefix: no `<` before it, a `<` at it |
| TagSpans.DealAt | docent/docent_trajectory_parser.py:68 | a deal match has a non-empty capture free of `<`, and the scan resumes strictly further on |
| TagSpans.SplitDealBody | docent/docent_trajectory_parser.py:68 | `\s*([^<]+)` splits the body into whitespace then a non-empty capture; the capture starts with a non-whitespace or is the body's last character |
| TagSpans.DealAtSound | docent/docent_trajectory_parser.py:68 | a match covers `<DEAL>`, whitespace, the capture and `</DEAL>` in that order, and the rest follows |
| TagSpans.DealAtOnBody | docent/docent_trajectory_parser.py:68 | `<DEAL>`, a non-empty `<`-free body and `</DEAL>` always match, and the scan resumes after `</DEAL>` |
| TagSpans.DealAtWrapped | docent/docent_trajectory_parser.py:68 | whitespace followed by `<`-free text between the tags matches |
| TagSpans.DealCaptureCases | docent/docent_trajectory_parser.py:68 | the capture is the text when that starts with a non-whitespace, and the last character when all is whitespace |
| TagSpans.DealAtEmptyBody | docent/docent_trajectory_parser.py:68 | `<DEAL></DEAL>` is not a match |
| TagSpans.Deals | docent/docent_trajectory_parser.py:68-69 | no contract of its own: `re.findall` of the deal pattern; `DealsWellFormed`, `DealsEmptyIff`, `DealsCons`, `DealsSkip`, `NoDealTagNoDeals` and `TwoDeals` state its properties |
| TagSpans.DealsWellFormed | docent/docent_trajectory_parser.py:69 | every deal found is non-empty and contains no `<` |
| TagSpans.DealsEmptyIff | docent/docent_trajectory_parser.py:69 | no deal is found exactly when no position of the text starts a match |
| TagSpans.DealsSkip | docent/docent_trajectory_parser.py:69 | text without `<DEAL>`, followed by text that is empty or starts with `<`, adds no deal and leaves the deals after it unchanged |
| TagSpans.NoDealTagNoDeals | docent/docent_trajectory_parser.py:69 | without `<DEAL>` the list is `[]` |
| TagSpans.DealsCons | docent/docent_trajectory_parser.py:69 | a well-formed span contributes its text, followed by the deals of the rest |
| TagSpans.DealKeepsTrailingSpace | docent/docent_trajectory_parser.py:68-69 | whitespace between the deal text and `</DEAL>` stays in the capture |
| TagSpans.TwoDeals | docent/docent_trajectory_parser.py:69 | two deal spans `A` and `B` give `[A, B]`, in source order |
| TagSpans.Find | docent/docent_trajectory_parser.py:73 | returns a position where the closing tag begins with no whole occurrence before it, and None exactly when it does not occur |
| TagSpans.FindFirst | docent/docent_trajectory_parser.py:73 | the position `Find` returns is the first at which the tag begins, for any tag, overlapping or not |
| TagSpans.FindAfter | docent/docent_trajectory_parser.py:73 | the search stops at the first closing tag |
| TagSpans.SpanAt | docent/docent_trajectory_parser.py:72-78 | no contract of its own: the lazy DOTALL match at the head of the text; `SpanAtSound` states its properties |
| TagSpans.FirstSpan | docent/docent_trajectory_parser.py:72-78 | no contract of its own: `re.search` of a lazy pattern; `FirstSpanSound`, `FirstSpanNoneIff`, `NoOpenNoSpan` and `FirstSpanOf` state its properties |
| TagSpans.SpanAtSound | docent/docent_trajectory_parser.py:72-73 | a span starts at a position exactly when the opening tag is there and a closing tag follows; the span is the text up to the first one, the shortest match |
| TagSpans.FirstSpanSound | docent/docent_trajectory_parser.py:73 | the span found contains no closing tag |
| TagSpans.FirstSpanNoneIff | docent/docent_trajectory_parser.py:73-74 | there is no match exactly when no position starts a span |
| TagSpans.NoOpenNoSpan | docent/docent_trajectory_parser.py:73 | with no opening tag there is no match |
| TagSpans.FirstSpanOf | docent/docent_trajectory_parser.py:72-73 | the first opening tag, text without a closing tag, then a closing tag: the span is that text, newlines included |
| TagSpans.Scratchpad | docent/docent_trajectory_parser.py:72-74 | no contract of its own: `scratchpad_content`; `ScratchpadFound` and `ScratchpadAbsentIff` state its properties |
| TagSpans.PublicAnswer | docent/docent_trajectory_parser.py:77-79 | no contract of its own: `public_answer`; `AnswerTagWins` and `AnswerFallback` state its properties |
| TagSpans.ScratchpadFound | docent/docent_trajectory_parser.py:72-74 | a scratchpad span yields its text, stripped |
| TagSpans.ScratchpadAbsentIff | docent/docent_trajectory_parser.py:72-74 | the scratchpad is None exactly when no position starts a complete span |
| TagSpans.AnswerTagWins | docent/docent_trajectory_parser.py:77-79 | an answer span wins over the round's `public_answer`, whatever that holds |
| TagSpans.AnswerFallback | docent/docent_trajectory_parser.py:77-79 | without an answer tag the field is used, and with neither the answer is '' |
| Trajectory.LastName | docent/docent_trajectory_parser.py:43 | the name chosen is one of the components, and never `.` |
| Trajectory.LastNameIsLast | docent/docent_trajectory_parser.py:43 | the name chosen is the last component that is neither empty nor `.`; when it is "", every component is empty or `.` |
| Trajectory.PathName | docent/docent_trajectory_parser.py:43 | no contract of its own: `Path(filepath).name`, the last component of the path; `LastName`, `LastNameIsLast`, `PathNameIsComponent`, `PathNameOf`, `PathNameDropsTail` and `PathNameBare` state its properties |
| Trajectory.PathNameDropsTail | docent/docent_trajectory_parser.py:43 | `dir/name/` and `dir/name/.` are named `name` |
| Trajectory.PathNameIsComponent | docent/docent_trajectory_parser.py:43 | a file name holds no `/` and is never `.` |
| Trajectory.PathNameOf | docent/docent_trajectory_parser.py:43 | the name of `dir/name` is `name` |
| Trajectory.PathNameBare | docent/docent_trajectory_parser.py:43 | a bare file name is its own name |
| Trajectory.AgentConfigFor | docent/docent_trajectory_parser.py:84 | no contract of its own: `self.config.get(agent, {})`, None standing for `{}`; `ParseRoundAgentConfig` states what it returns |
| Trajectory.ParseRound | docent/docent_trajectory_parser.py:63-93 | no contract of its own: `_parse_round`; `ParseRoundFields`, `ParseRoundDeals`, `ParseRoundScratchpad`, `ParseRoundAnswer` and `ParseRoundAgentConfig` state its properties |
| Trajectory.ParseRoundFields | docent/docent_trajectory_parser.py:63-93 | `round_index` is the position given; agent, prompt and full answer default to ''; `message_length` is the length of the full answer; a round without a full answer has no deal, no scratchpad and the field's public answer |
| Trajectory.ParseRoundDeals | docent/docent_trajectory_parser.py:68-92 | `deals_proposed` is the list of deal captures, each non-empty and without `<`; `has_deal` holds exactly when it is non-empty, exactly when some position starts a deal match |
| Trajectory.ParseRoundScratchpad | docent/docent_trajectory_parser.py:72-91 | `has_scratchpad` holds exactly when the reasoning is not None, exactly when some position starts a complete span; the reasoning is stripped |
| Trajectory.ParseRoundAnswer | docent/docent_trajectory_parser.py:77-87 | the first answer span, stripped, wins; without one the round's `public_answer` is used, or '' |
| Trajectory.ParseRoundAgentConfig | docent/docent_trajectory_parser.py:84 | `agent_config` is present exactly when a config line of five or more fields names the agent, and is then the last such line's record; otherwise `{}` |
| Trajectory.ParsedRounds | docent/docent_trajectory_parser.py:56-59 | no contract of its own: each round parsed with its position, in order; `ParsedTrajectoryShape` states its properties |
| Trajectory.ParsedTrajectoryOf | docent/docent_trajectory_parser.py:45-61 | no contract of its own: the record `parse_trajectory_file` returns; `ParseTrajectoryFile` is proved equal to it, and `ParsedTrajectoryShape` and `RunOfParsedFile` state its properties |
| Trajectory.ParsedTrajectoryShape | docent/docent_trajectory_parser.py:45-61 | one parsed round per input round, in order, each with its position as `round_index`; `total_rounds` is their number; `slot_assignment` defaults to `[]` and `finished_rounds` to 0 |
| Trajectory.ParseTrajectoryFile | docent/docent_trajectory_parser.py:37-61 | the loop's record is the parse of the whole file: filename, defaults, metadata and every round in order |
| DocentFormat.AssistantContent | docent/docent_trajectory_parser.py:114 | no contract of its own: `public_answer or full_answer`; `AssistantContentCases` states its properties |
| DocentFormat.RoundMessages | docent/docent_trajectory_parser.py:103-116 | no contract of its own: what one round appends; `RoundContents` states its properties |
| DocentFormat.Messages | docent/docent_trajectory_parser.py:100-116 | no contract of its own: the conversation the rounds build; `MessageCount`, `MessagesAppend`, `MessagesByRole`, `PromptAnswered`, `AllPromptsAlternate` and `NoPromptsOnlyAnswers` state its properties |
| DocentFormat.RunOf | docent/docent_trajectory_parser.py:119-128 | no contract of its own: the one run built around the conversation; `ConvertToDocentFormat` is proved equal to it, and `RunMetadataOf` and `RunOfParsedFile` state its properties |
| DocentFormat.ConvertToDocentFormat | docent/docent_trajectory_parser.py:95-129 | exactly one run, whose messages are those the rounds build in order and whose metadata is that of the parse |
| DocentFormat.RunMetadataOf | docent/docent_trajectory_parser.py:119-126 | the run's metadata copies `filename` and `total_rounds` and has `experiment_type` `multi_agent_negotiation` |
| DocentFormat.AssistantContentCases | docent/docent_trajectory_parser.py:112-115 | the assistant content is the public answer when non-empty, otherwise the full answer; it is empty only when both are |
| DocentFormat.MessageCount | docent/docent_trajectory_parser.py:102-116 | the message count is the number of rounds plus the number of non-empty prompts |
| DocentFormat.MessagesAppend | docent/docent_trajectory_parser.py:102-116 | the messages of rounds `a` then `b` are those of `a` followed by those of `b`: each round's prompt and answer stay together, in round order |
| DocentFormat.ContentsAppend | docent/docent_trajectory_parser.py:109-116 | selecting the messages of one role distributes over appending |
| DocentFormat.RoundContents | docent/docent_trajectory_parser.py:103-116 | one round adds its prompt as a user message only when non-empty, and exactly one assistant message |
| DocentFormat.MessagesByRole | docent/docent_trajectory_parser.py:102-116 | the user messages are the non-empty prompts and the assistant messages are the answers, one per round, each in round order |
| DocentFormat.PromptAnswered | docent/docent_trajectory_parser.py:102-116 | every user message is at once followed by an assistant message |
| DocentFormat.AllPromptsAlternate | docent/docent_trajectory_parser.py:102-116 | with every prompt non-empty there are 2N messages: the prompt of round i at 2i, its answer at 2i+1 |
| DocentFormat.NoPromptsOnlyAnswers | docent/docent_trajectory_parser.py:102-116 | with no prompt set the messages are the answers alone |
| DocentFormat.RunOfParsedFile | docent/docent_trajectory_parser.py:51-126 | for a parsed file, `total_rounds` and the number of assistant messages are both the number of input rounds, and the filename is the path's name |
| Batch.AllRuns | docent/docent_trajectory_parser.py:141-146 | no contract of its own: `all_runs` after the loop; `ProcessAllTrajectories` is proved equal to it, and `OutputsMatchLoaded`, `OutputsAppend`, `FailureIsolated` and `AllLoad` state its properties |
| Batch.Processed | docent/docent_trajectory_parser.py:141-147 | no contract of its own: `processed_files` after the loop; `ProcessAllTrajectories` is proved equal to it, and `OutputsMatchLoaded`, `LoadedMembers`, `OutputsAppend`, `FailureIsolated` and `AllLoad` state its properties |
| Batch.Loaded | docent/docent_trajectory_parser.py:141-150 | every file kept loads |
| Batch.ProcessAllTrajectories | docent/docent_trajectory_parser.py:131-153 | the loop's two lists are the runs and the paths of the files that load, in discovery order |
| Batch.OutputsMatchLoaded | docent/docent_trajectory_parser.py:141-150 | `len(all_runs) == len(processed_files)`, and index i of both belongs to the i-th file that loads |
| Batch.LoadedMembers | docent/docent_trajectory_parser.py:143-150 | a file is processed exactly when it is one of the files and it does not raise |
| Batch.LoadedAppend | docent/docent_trajectory_parser.py:141-150 | files kept from `a` then `b` are those of `a` followed by those of `b`: discovery order |
| Batch.OutputsAppend | docent/docent_trajectory_parser.py:141-150 | the outputs over `a` then `b` are those over `a` followed by those over `b` |
| Batch.FailureIsolated | docent/docent_trajectory_parser.py:143-150 | a file that raises adds nothing to either list, and the files after it still go through |
| Batch.LoadedAll | docent/docent_trajectory_parser.py:141-150 | when no file raises, every file is kept |
| Batch.AllLoad | docent/docent_trajectory_parser.py:141-150 | when no file raises, every file is processed in order with one run each |

## Left out

- `docent/docent_proper_ingestion.py` is not part of this model. It builds objects of the Docent SDK and uploads them over the network.
- `agent.py` is not part of this model. It holds clients for language-model APIs.
- `main` in `docent/docent_trajectory_parser.py` is not modelled. It writes the JSON output, moves processed files into `processed/` and prints summary statistics; all of this is file-system and console work.
- File and JSON I/O become parameters:
  - `config.txt` is given as its list of lines, or None when it does not exist.
  - A trajectory file is given as its decoded record.
  - The glob result is given as a sequence of files, in the order the file system returns them.
- The decoded input is only a stand-in for JSON:
  - Each key the parser reads holds a string or is absent.
  - `slot_assignment` is a sequence of strings.
  - `finished_rounds` is an integer.
  - JSON `null` and values of other types are not modelled.
- Exceptions are modelled by outcome only:
  - An exception raised while reading, decoding or parsing a file (a missing file, bad JSON, a non-string `full_answer`) is the file's `Failure` content.
  - What raised, and its message, are not modelled.
- `print` output is left out.
- `TrajectoryParser` is not a class here. Its only state, `data_dir` and `config`, is fixed by its constructor and then only read. So `config` is passed to the operations, and `data_dir` only appears inside the file paths.
- Trajectory.PathName: models POSIX `Path.name` only. Empty and `.` components are dropped; Windows separators and drive letters are not modelled.
- Strings are sequences of Unicode scalar values, so `len` counts code points. Lone surrogates, which Python strings can hold, cannot be represented.
- The regular expressions are modelled as the three fixed patterns only, each as its own scanner. General regex semantics are not modelled.
- TagSpans.TwoDeals: a deal text that starts with whitespace, or contains `<`, is not covered. The general scanner (`DealCaptureCases`, `DealsEmptyIff`) states what happens then: leading whitespace is dropped, and a `<` ends the capture, so that position does not match unless `</DEAL>` follows.
