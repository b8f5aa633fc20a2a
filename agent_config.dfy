/**
  The agent configuration `TrajectoryParser._load_config` reads from `config.txt`:
  one comma-separated line per agent, `name,short_name,player_type,strategy,model`.
 */
module AgentConfigs {
  import opened Wrappers
  import opened Text

  /** The record stored for one agent. */
  datatype AgentConfig = AgentConfig(shortName: string, playerType: string, strategy: string, model: string)

  /** Agent name to record. */
  type Config = map<string, AgentConfig>

  /** The fields of a config line: the line stripped of surrounding whitespace, then split at every comma. */
  function LineFields(line: string): seq<string> {
    Split(Strip(line), ',')
  }

  /** What one line contributes: field 0 as the key for fields 1-4, when it has at least five fields. */
  function ConfigLine(line: string): Option<(string, AgentConfig)> {
    var parts := LineFields(line);
    if |parts| >= 5 then Some((parts[0], AgentConfig(parts[1], parts[2], parts[3], parts[4]))) else None
  }

  /** What each line contributes, in file order. */
  function LineEntries(lines: seq<string>): (es: seq<Option<(string, AgentConfig)>>)
    ensures |es| == |lines|
  {
    seq(|lines|, i requires 0 <= i < |lines| => ConfigLine(lines[i]))
  }

  /** The map a series of line contributions builds, a later entry for a name replacing an earlier one. */
  function Apply(es: seq<Option<(string, AgentConfig)>>): Config {
    if es == [] then map[]
    else
      var before := Apply(es[..|es| - 1]);
      match es[|es| - 1]
      case Some((name, entry)) => before[name := entry]
      case None => before
  }

  /** The map the lines of `config.txt` build. */
  function ConfigOf(lines: seq<string>): Config {
    Apply(LineEntries(lines))
  }

  lemma LineEntriesSnoc(lines: seq<string>, i: nat)
    requires i < |lines|
    ensures LineEntries(lines[..i + 1]) == LineEntries(lines[..i]) + [ConfigLine(lines[i])]
  {
  }

  lemma ApplySnoc(es: seq<Option<(string, AgentConfig)>>, e: Option<(string, AgentConfig)>)
    ensures Apply(es + [e]) == if e.Some? then Apply(es)[e.value.0 := e.value.1] else Apply(es)
  {
    assert (es + [e])[..|es|] == es;
  }

  /**
    `_load_config`. `configFile` is the list of lines of `config.txt` (each still carrying
    its line break), or None when the file does not exist.
   */
  method LoadConfig(configFile: Option<seq<string>>) returns (config: Config)
    ensures configFile.None? ==> config == map[]
    ensures configFile.Some? ==> config == ConfigOf(configFile.value)
  {
    config := map[];
    if configFile.Some? {
      var lines := configFile.value;
      for i := 0 to |lines|
        invariant config == Apply(LineEntries(lines[..i]))
      {
        var parts := LineFields(lines[i]);
        if |parts| >= 5 {
          var agentName := parts[0];
          config := config[agentName := AgentConfig(parts[1], parts[2], parts[3], parts[4])];
        }
        LineEntriesSnoc(lines, i);
        ApplySnoc(LineEntries(lines[..i]), ConfigLine(lines[i]));
      }
      assert lines[..|lines|] == lines;
    }
  }

  /** Entry `e` names agent `name`. */
  predicate Names(e: Option<(string, AgentConfig)>, name: string) {
    e.Some? && e.value.0 == name
  }

  /** Index of the last entry that names `name`. */
  function LastDefinition(es: seq<Option<(string, AgentConfig)>>, name: string): (r: Option<nat>)
    ensures r.None? ==> forall i :: 0 <= i < |es| ==> !Names(es[i], name)
    ensures r.Some? ==> r.value < |es| && Names(es[r.value], name)
    ensures r.Some? ==> forall j :: r.value < j < |es| ==> !Names(es[j], name)
  {
    if es == [] then None
    else if Names(es[|es| - 1], name) then Some(|es| - 1)
    else
      var r := LastDefinition(es[..|es| - 1], name);
      assert forall i :: 0 <= i < |es| - 1 ==> es[..|es| - 1][i] == es[i];
      r
  }

  /** A name is in the map exactly when some entry names it, and then it holds the record of the
      LAST such entry. */
  lemma {:induction false} ApplyLookup(es: seq<Option<(string, AgentConfig)>>, name: string)
    ensures name in Apply(es) <==> LastDefinition(es, name).Some?
    ensures name in Apply(es) ==> Apply(es)[name] == es[LastDefinition(es, name).value].value.1
  {
    if es != [] {
      ApplyLookup(es[..|es| - 1], name);
      if !Names(es[|es| - 1], name) {
        var r := LastDefinition(es[..|es| - 1], name);
        if r.Some? {
          assert es[..|es| - 1][r.value] == es[r.value];
        }
      }
    }
  }

  /** The config lookup in terms of lines: `name` is present exactly when some line of at least
      five fields names it, and it maps to the record built from the last such line. */
  lemma ConfigLookup(lines: seq<string>, name: string)
    ensures var last := LastDefinition(LineEntries(lines), name);
      && (name in ConfigOf(lines) <==> last.Some?)
      && (last.None? ==> forall i :: 0 <= i < |lines| ==> !Names(ConfigLine(lines[i]), name))
      && (last.Some? ==> ConfigOf(lines)[name] == ConfigLine(lines[last.value]).value.1)
  {
    ApplyLookup(LineEntries(lines), name);
    var last := LastDefinition(LineEntries(lines), name);
    if last.None? {
      forall i | 0 <= i < |lines| ensures !Names(ConfigLine(lines[i]), name) {
        assert LineEntries(lines)[i] == ConfigLine(lines[i]);
      }
    }
  }

  /** The fields of a line are recovered exactly: whitespace around the line (its line break)
      is dropped, and the line holds `fields` joined with commas. */
  lemma FieldsOfLine(a: string, fields: seq<string>, b: string)
    requires AllSpace(a) && AllSpace(b)
    requires fields != [] && forall i :: 0 <= i < |fields| ==> ',' !in fields[i]
    requires var core := Join(fields, ',');
      core == [] || (!IsSpace(core[0]) && !IsSpace(core[|core| - 1]))
    ensures LineFields(a + Join(fields, ',') + b) == fields
    ensures ConfigLine(a + Join(fields, ',') + b).Some? <==> |fields| >= 5
    ensures |fields| >= 5 ==>
      ConfigLine(a + Join(fields, ',') + b) == Some((fields[0], AgentConfig(fields[1], fields[2], fields[3], fields[4])))
  {
    StripUnique(a, Join(fields, ','), b);
    SplitJoin(fields, ',');
  }

  /** A file of a well-formed line followed by a line of fewer than five fields maps the first
      line's agent alone. */
  lemma ShortLineSkipped(first: string, second: string, name: string, entry: AgentConfig)
    requires ConfigLine(first) == Some((name, entry)) && ConfigLine(second) == None
    ensures ConfigOf([first, second]) == map[name := entry]
  {
    assert LineEntries([first, second]) == [Some((name, entry)), None];
    assert [Some((name, entry)), None][..1] == [Some((name, entry))];
    assert [Some((name, entry))][..0] == [];
    assert Apply([Some((name, entry))]) == map[name := entry];
    assert Apply([Some((name, entry)), None]) == Apply([Some((name, entry))]);
  }
}
