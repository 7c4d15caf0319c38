/**
 The start of every run of the script: the `.env` file is loaded into the
 process environment, the session's API key falls back to the environment
 when it is missing or empty, and the analysis agent is built only when that
 key is non-empty. Streamlit runs the whole script again on every
 interaction, so the session value and the environment of one run are the
 inputs of the next.
 */
module Session {
  import opened Wrappers
  import opened EnvFile

  /** The environment variable and session entry that hold the API key. */
  const KeyName: string := "GOOGLE_API_KEY"

  /** The model the agent is configured with. */
  const ModelId: string := "gemini-2.5-flash"

  /** The web-search tool handed to the agent. */
  datatype SearchTool = DuckDuckGo(verifySsl: bool, fixedMaxResults: nat, timeout: nat)

  /** What the agent is built from: model, credential, tools and output format. */
  datatype AgentConfig = AgentConfig(modelId: string, apiKey: string, tools: seq<SearchTool>, markdown: bool)

  /** The one search tool: certificate checks off, at most 3 results, a 10-second timeout. */
  const Search: SearchTool := DuckDuckGo(false, 3, 10)

  /** A session entry that is missing, or present but empty, counts as unset. */
  predicate Unset(session: Option<string>) {
    session.None? || session.value == ""
  }

  /**
   The session key after the fallback: an entry that is set is kept, an
   unset one is replaced by the environment's value, or by "" when the
   environment has none.
   */
  function ResolveKey(session: Option<string>, env: map<string, string>): (key: string)
    ensures !Unset(session) ==> key == session.value
    ensures Unset(session) && KeyName in env ==> key == env[KeyName]
    ensures key == "" <==> Unset(session) && (KeyName !in env || env[KeyName] == "")
  {
    if Unset(session) then Get(env, KeyName).GetOr("") else session.value
  }

  /** The agent, present exactly when the key is non-empty and then configured with that key. */
  function BuildAgent(key: string): (agent: Option<AgentConfig>)
    ensures agent.Some? <==> key != ""
    ensures agent.Some? ==> agent.value.apiKey == key && agent.value.modelId == ModelId
    ensures agent.Some? ==> agent.value.tools == [Search] && agent.value.markdown
  {
    if key == "" then None else Some(AgentConfig(ModelId, key, [Search], true))
  }

  /** What one run of the script's preamble leaves behind. */
  datatype Run = Run(env: map<string, string>, sessionKey: string, agent: Option<AgentConfig>)

  /** The preamble: load the file into the environment, resolve the key, build the agent. */
  function Startup(osEnv: map<string, string>, file: Option<seq<string>>, session: Option<string>): (r: Run)
    ensures osEnv.Keys <= r.env.Keys && forall k | k in osEnv :: r.env[k] == osEnv[k]
    ensures r.agent.Some? <==> r.sessionKey != ""
    ensures r.agent.Some? ==> r.agent.value.apiKey == r.sessionKey
    ensures !Unset(session) ==> r.sessionKey == session.value
    ensures Unset(session) && KeyName in osEnv ==> r.sessionKey == osEnv[KeyName]
  {
    var env := LoadFile(osEnv, file);
    var key := ResolveKey(session, env);
    Run(env, key, BuildAgent(key))
  }

  /** Once resolved, the key resolves to itself: the fallback never fires twice. */
  lemma ResolveKeyIdempotent(session: Option<string>, env: map<string, string>)
    ensures ResolveKey(Some(ResolveKey(session, env)), env) == ResolveKey(session, env)
  {
  }

  /** There is an agent exactly when the session or, failing that, the environment holds a non-empty key. */
  lemma AgentIffKeyAvailable(session: Option<string>, env: map<string, string>)
    ensures BuildAgent(ResolveKey(session, env)).Some? <==>
      !Unset(session) || (KeyName in env && env[KeyName] != "")
  {
  }

  /**
   With the key neither in the session nor in the process environment, the
   session key is the value of the first line of the file that defines it.
   */
  lemma KeyFromFile(osEnv: map<string, string>, lines: seq<string>, session: Option<string>, i: nat)
    requires Unset(session) && KeyName !in osEnv
    requires i < |lines| && Defines(lines[i], KeyName)
    requires forall j | 0 <= j < i :: !Defines(lines[j], KeyName)
    ensures Startup(osEnv, Some(lines), session).sessionKey == ParseLine(lines[i]).value.value
  {
    FirstDefinitionWins(osEnv, lines, KeyName, i);
  }

  /** With the key set nowhere, not in the session, the environment or the file, no agent is built. */
  lemma NoKeyNoAgent(osEnv: map<string, string>, file: Option<seq<string>>, session: Option<string>)
    requires Unset(session) && KeyName !in osEnv
    requires file.Some? ==> forall j | 0 <= j < |file.value| :: !Defines(file.value[j], KeyName)
    ensures Startup(osEnv, file, session).agent.None?
  {
    if file.Some? {
      UndefinedStaysUnset(osEnv, file.value, KeyName);
    }
  }

  /**
   Running the script again, on the environment and session the previous run
   left and the same file, reproduces that run exactly.
   */
  lemma RerunIsStable(osEnv: map<string, string>, file: Option<seq<string>>, session: Option<string>)
    ensures var r := Startup(osEnv, file, session);
      Startup(r.env, file, Some(r.sessionKey)) == r
  {
    var r := Startup(osEnv, file, session);
    LoadFileIdempotent(osEnv, file);
    ResolveKeyIdempotent(session, r.env);
  }
}
