# Medical imaging assistant: start-up and error handling

The application is a single Streamlit script. It loads an API key, builds a
Gemini-backed analysis agent, and sends an uploaded medical image to that agent.
The model covers the few parts the script computes itself:

- **the `.env` loader** `_load_env`: reads `KEY=VALUE` lines into the process
  environment; a variable that is already set is never replaced;
- **the key fallback and agent gate**: an unset session key is taken from the
  environment (or becomes `""`), and the agent exists exactly when that key is
  non-empty;
- **the exception handler of the analysis step**: an error whose message
  contains `"429"` shows the rate-limit notice; any other error shows a generic
  notice that quotes the message.

Modules:

- `Wrappers`: `Option` and `Result`.
- `Strings`: Python's `str.strip(chars)`, `c in s`, the first index of a
  character and `p in s` for substrings.
- `EnvFile`: the line parser and the environment merge.
- `Session`: the key fallback, the agent configuration and one run of the
  script's preamble.
- `Analysis`: the `try` body, the classifier and what each outcome writes to
  the page.

The environment is an immutable `map<string, string>`. The `.env` file is
`Option<seq<string>>`: its lines, or None when it does not exist. The session
entry is `Option<string>`. The agent's reply is a
`Result<string, string>`: the reply's content, or the message of the error the
call raised.

Streamlit runs the whole script again on every interaction. So the environment
and session value one run leaves behind are the inputs of the next run;
`Session.RerunIsStable` proves that a rerun reproduces the earlier run.

Two behaviours of the code are worth knowing:

- **No agent.** With no agent the analyse button still runs:
  `medical_agent.run` is called on `None` (ai_medical_imaging.py:170), which
  raises `AttributeError`. The generic handler reports it as `Error al analizar
  la imagen: 'NoneType' object has no attribute 'run'`. `Analysis.Analyze`
  models this path, and `Analysis.NoAgentIgnoresReply` states it.
- **Resize height.** The resize truncates the height with `int()`
  (ai_medical_imaging.py:144), so a 1000×1 image gets height 0. The resize
  itself is not part of this model.

## Model

| member | source | states |
|---|---|---|
| Strings.Strip | ai_medical_imaging.py:16 | Python's `strip(chars)`; the result is never longer than the input |
| Strings.StripSpec | ai_medical_imaging.py:16 | Strip cuts off exactly the leading and trailing runs of the given characters: it leaves a slice whose outside is made of those characters only and whose two ends are not among them |
| Strings.StripUnique | ai_medical_imaging.py:16 | at most one string is a strip of a given string, so the characterisation determines Strip |
| Strings.StripIdempotent | ai_medical_imaging.py:20-21 | stripping twice by the same set is stripping once |
| Strings.StripKeepsOthers | ai_medical_imaging.py:16-17 | a character outside the set is in the stripped string iff it is in the original (so trimming neither adds nor loses an `=`) |
| Strings.StripUnwraps | ai_medical_imaging.py:20-21 | text surrounded by runs of set characters, and with no such character at its own ends, is recovered exactly |
| Strings.IndexOf | ai_medical_imaging.py:19 | the position of the first occurrence of a character: it holds that character and nothing before it does |
| Strings.Contains | ai_medical_imaging.py:181 | Python's `p in s`: true iff `p` occurs in `s` at some position |
| Strings.ContainsAfterPrefix | ai_medical_imaging.py:184 | putting text that lacks `p`'s first character in front of `s` neither creates nor hides an occurrence of `p` |
| EnvFile.CleanValue | ai_medical_imaging.py:21 | the value after `strip()`, `strip('"')` and `strip("'")`: never longer than the text, no `'` at either end, and a text with no blank or quote at its ends is kept as it is (Strings.StripSpec characterises each of the three strips) |
| EnvFile.SplitAt | ai_medical_imaging.py:19-21 | the cut at a position gives an entry iff the trimmed left part is non-empty; its key is non-empty and trimmed, its value has no `'` at either end, and a left part without `=` gives a key without `=` |
| EnvFile.ParseTrimmed | ai_medical_imaging.py:17-22 | an empty trimmed line, a comment line, or a line without `=` gives nothing; an entry read from a trimmed line has a valid key |
| EnvFile.ParseLine | ai_medical_imaging.py:16-22 | a line without `=`, blank after trimming, or starting with `#` after trimming defines nothing; every entry has a non-empty, trimmed, `=`-free key not starting with `#`; and on every line the result equals an independent reading (`ParseLineReference`) that splits the raw line at its first `=` and drops empty or `#` keys |
| EnvFile.ParseDefinition | ai_medical_imaging.py:19-21 | blanks, a valid key, blanks, `=`, then any text: parses to that key and the cleaned text; later `=` characters stay in the value |
| EnvFile.ParseEmptyKey | ai_medical_imaging.py:22 | a line whose text before the first `=` is blank (`=value`) defines nothing |
| EnvFile.ReferenceAtFirstEquals | ai_medical_imaging.py:19-22 | given the text left of a line's first `=` and the text right of it, the reference reading gives the trimmed left text and the cleaned right text, or nothing when the key is empty or starts with `#` |
| EnvFile.CleanDoubleQuoted | ai_medical_imaging.py:21 | cleaning `"v"` gives `v` back when `v` has no quote at its ends |
| EnvFile.CleanSingleQuoted | ai_medical_imaging.py:21 | cleaning `'v'` gives `v` back when `v` has no single quote at its ends |
| EnvFile.ParseDoubleQuoted | ai_medical_imaging.py:21 | `k="v"` defines `k` as `v` exactly, inner blanks kept: there is no trim after quote removal |
| EnvFile.ParseSingleQuoted | ai_medical_imaging.py:21 | `k='v'` defines `k` as `v` exactly |
| EnvFile.ParseFormatted | ai_medical_imaging.py:19-21 | writing `k=v` for a valid key and a value with no blank or quote at its ends, then reading it back, gives `k` and `v` |
| EnvFile.ParseSplitsAtFirstEquals | ai_medical_imaging.py:19 | an illustration of EnvFile.ParseDefinition: the line `A=b=c` defines `A` as `b=c` |
| EnvFile.ParseAll | ai_medical_imaging.py:15 | each line of the file is parsed on its own, in order |
| EnvFile.MergeEntry | ai_medical_imaging.py:22-23 | one entry merged: every variable set before keeps its value, the entry's variable is set afterwards, and the only variable that can be added is the entry's, with the entry's value |
| EnvFile.MergeAll | ai_medical_imaging.py:22-23 | merging entries only adds variables: every variable set before keeps its value |
| EnvFile.LoadEnv | ai_medical_imaging.py:15-23 | loading the lines only adds variables: every variable set before keeps its value |
| EnvFile.LoadFile | ai_medical_imaging.py:13-23 | a missing file leaves the environment unchanged; an existing file only adds variables |
| EnvFile.MergeFirstWins | ai_medical_imaging.py:22-23 | over parsed entries: a variable unset beforehand gets the value of the first entry that defines it |
| EnvFile.MergeUndefined | ai_medical_imaging.py:22-23 | over parsed entries: a variable unset beforehand and defined by no entry stays unset |
| EnvFile.MergeDefinedIsSet | ai_medical_imaging.py:22-23 | over parsed entries: every variable some entry defines is set afterwards |
| EnvFile.MergeSetIsNoop | ai_medical_imaging.py:22-23 | entries that only define variables already set change nothing |
| EnvFile.MergeAppend | ai_medical_imaging.py:15-23 | merging two runs of entries is merging the first, then the second |
| EnvFile.FirstDefinitionWins | ai_medical_imaging.py:22-23 | a variable unset beforehand gets the value of the first line that defines it |
| EnvFile.UndefinedStaysUnset | ai_medical_imaging.py:22-23 | a variable unset beforehand, and defined by no line, stays unset, so nothing but defined keys is added |
| EnvFile.DefinedIsSet | ai_medical_imaging.py:22-23 | every variable some line defines is set after loading |
| EnvFile.SkippedLineIsNeutral | ai_medical_imaging.py:17-18 | removing a line that defines nothing (blank, comment, no `=`, empty key) does not change the result |
| EnvFile.LoadEnvAppend | ai_medical_imaging.py:15-23 | loading two blocks of lines is loading the first and then the second |
| EnvFile.LoadEnvIdempotent | ai_medical_imaging.py:15-23 | loading the same lines a second time changes nothing |
| EnvFile.LoadFileIdempotent | ai_medical_imaging.py:13-23 | loading the same file, present or missing, a second time changes nothing |
| Wrappers.Get | ai_medical_imaging.py:28 | `os.environ.get`: a value exactly when the name is in the environment, and then the environment's value |
| Session.ResolveKey | ai_medical_imaging.py:27-28 | a set session key is kept; an unset (missing or empty) one takes the environment's value; the key is empty iff it is set in neither place |
| Session.ResolveKeyIdempotent | ai_medical_imaging.py:27-28 | a resolved key resolves to itself on the next run |
| Session.BuildAgent | ai_medical_imaging.py:54-61 | an agent exists iff the key is non-empty; it then holds that key, model `gemini-2.5-flash`, the one search tool (no certificate checks, 3 results, timeout 10) and markdown output |
| Session.AgentIffKeyAvailable | ai_medical_imaging.py:54-61 | an agent exists iff the session key, or failing that the environment's key, is non-empty |
| Session.Startup | ai_medical_imaging.py:25-61 | the preamble only adds variables; there is an agent iff the session key is non-empty, and it holds that key; a set session key is kept and otherwise a variable already in the process environment wins over the file |
| Session.KeyFromFile | ai_medical_imaging.py:11-28 | with the key neither in the session nor in the process environment, the session key is the value from the first line of the file that defines it |
| Session.NoKeyNoAgent | ai_medical_imaging.py:11-61 | with the key in neither the session, the environment nor the file, no agent is built |
| Session.RerunIsStable | ai_medical_imaging.py:11-61 | running the script again on the environment and session it left, with the same file, gives the same environment, key and agent |
| Analysis.Classify | ai_medical_imaging.py:179-184 | the rate-limit notice is chosen iff the message contains `429`; otherwise the generic notice carries the message unchanged |
| Analysis.Render | ai_medical_imaging.py:171-184 | a reply is written as header, rule, the reply, rule, note, with no error box; an error is one error box |
| Analysis.Analyze | ai_medical_imaging.py:162-184 | the reply is shown iff the save succeeded, there is an agent and the call returned, and then it is shown as returned; a failed save or a failed call is classified by its message |
| Analysis.NoAgentErrorIsGeneric | ai_medical_imaging.py:170-184 | the error from calling `run` on the missing agent gets the generic notice |
| Analysis.NoAgentIgnoresReply | ai_medical_imaging.py:162-184 | without an agent nothing is shown and the outcome does not depend on the reply; after a successful save it is the generic notice about the missing agent |
| Analysis.FailureQuotesError | ai_medical_imaging.py:184 | the generic notice is one error box that contains the error message verbatim |
| Analysis.RateLimitIgnoresDetails | ai_medical_imaging.py:181-182 | all errors mentioning `429` give the same single notice, whatever else their messages say |
| Analysis.NoticeMentionsCodeIff | ai_medical_imaging.py:181-184 | the error box mentions `429` iff the error message did |
| Analysis.ReplyShownVerbatim | ai_medical_imaging.py:171-178 | a returned reply is placed, unchanged, between header and rule above it and rule and review note below it |
| Analysis.RenderDistinguishes | ai_medical_imaging.py:171-184 | two outcomes that write the same blocks are the same outcome: the page tells a shown reply, the rate-limit notice and each generic notice apart |

## Left out

- Reading the file: the path next to the script, `os.path.exists`, `open`, the text encoding and the splitting into lines (ai_medical_imaging.py:12-15). The file is given as its lines, or None when it is missing.
- Errors from `os.environ[k] = v`, e.g. a NUL character in a key or value (operating-system behaviour); the model always sets the variable.
- Case-insensitive variable names on Windows: the environment is an exact-match map.
- The Streamlit layout: sidebar, messages, CSS, containers, spinner, uploader and button (ai_medical_imaging.py:30-52, 105-161, 186). Whether the button was pressed is the caller's decision to call `Analysis.Analyze`.
- Image decoding, the resize to width 500 (floating-point division, then `int()` truncation) and the save to `temp_resized_image.png` (ai_medical_imaging.py:140-145, 163-164). A failed save is the `saveError` input.
- Building the image reference (ai_medical_imaging.py:167). It is assumed not to raise.
- The Gemini call and the DuckDuckGo tool (ai_medical_imaging.py:170). The call is the `reply` input: the content, or the message it failed with. The prompt text (ai_medical_imaging.py:67-103) is a constant with no behaviour.
- Errors raised while the reply is being written out, after the header is on the page (ai_medical_imaging.py:171-178): the model shows either the whole reply or one error box.
- Exceptions that are not `Exception` subclasses (e.g. `KeyboardInterrupt`), which the handler does not catch.
