# CodePilot core, modelled in Dafny

This project models the three pieces of deterministic logic in the CodePilot
VS Code extension and its Python backend. It then proves what each piece
promises.

- **Workspace file collector** (`collectFiles` and its inner `walk` in the
  chat command). It walks a directory tree depth first and collects the
  content of every readable file whose `path.extname` is on a
  case-sensitive allow-list of 13 extensions. The map it builds is keyed by
  the file's path relative to the root. The file system is a tree datatype:
  `File(name, content)` with `content == None` for a file `readFileSync`
  cannot read, `Dir(name, children)`, and `UnreadableDir(name)` for a
  directory `readdirSync` throws on. `walk` is the imperative method
  `FileCollector.Collector.Walk`. It updates the `fileMap` field in place,
  entry by entry, and is proved against the recursive specification
  `WalkSpec`. The body of its loop over a listing is written as the method
  `Collector.Visit`, which `Walk` calls once per entry and which calls
  `Walk` back for a subdirectory. Separate lemmas then state what that specification means,
  through `Resolve`, path lookup from the root.
- **Code-edit pipeline** (`code_editor_agent.py`). This is a linear graph of
  three nodes: clarify, then fix, then explain. They work over a dictionary
  state, and each node's partial result is merged into it. The language
  model is a function parameter from prompt to answer. A node that reads a
  key the state lacks raises `KeyError` and ends the run. The fix node
  stores two values. `updated_selection` is the answer with Python's
  whitespace stripped. `updated_code` is Python `str.replace` of the
  selection by that answer within the full file. Both operations are in
  `PyStr`, with Python's whitespace set and the empty-pattern case.
- **Boilerplate extraction** (`boilerplate_node` in `boilerplate_agent.py`).
  The answer is stripped. The greedy DOTALL search for `\{.*\}` takes the
  span from the first `{` to the last `}` after it, and that span is parsed
  as JSON. When there is no match or the parse fails, the files become a
  single `error.txt` entry. The JSON parser is a function parameter
  returning a value or an error message. The one fact used about it, taken
  from section 4 of RFC 8259, is that a successful parse of text starting
  with `{` yields an object.

Modules: `Wrappers` (Option, Result), `PyStr` (Python `str.strip`,
`str.find`, `str.count`, `str.replace`), `CharSearch` (first and last index
of a character), `NodePath` (POSIX `path.extname` of a base name, and
relative paths as `/`-joined segments), `FileCollector`, `CodeEditor`,
`Boilerplate`.

## Model

| member | source | states |
|---|---|---|
| PyStr.IsSpace | backend/agents/code_editor_agent.py:77 | no ensures: the set of characters Python's `str.isspace` accepts, which `strip()` removes; the scan functions and `Strip` below are specified in terms of it |
| PyStr.LeadingSpace | backend/agents/code_editor_agent.py:77 | strip's forward scan stops at the first non-whitespace character, or at the end; everything before it is whitespace |
| PyStr.LeadingSpaceUnique | backend/agents/code_editor_agent.py:77 | any position with only whitespace before it and non-whitespace (or the end) at it is where the forward scan stops |
| PyStr.TrailingStart | backend/agents/code_editor_agent.py:77 | strip's backward scan stops just after the last non-whitespace character, or at the start; everything after it is whitespace |
| PyStr.TrailingStartUnique | backend/agents/code_editor_agent.py:77 | any position with only whitespace after it and non-whitespace (or the start) just before it is where the backward scan stops |
| PyStr.Strip | backend/agents/code_editor_agent.py:77 | the result is a contiguous part of the input, whitespace lies on both sides of it, and it is empty or has non-whitespace at both ends |
| PyStr.StripUnique | backend/agents/code_editor_agent.py:77 | any text meeting that description is the stripped text, so strip is the unique such part |
| PyStr.StripIdempotent | backend/agents/boilerplate_agent.py:84 | stripping twice is stripping once |
| PyStr.Find | backend/agents/code_editor_agent.py:76 | `str.find(pattern, start)`, the search that `str.replace` repeats for each occurrence: an index found is not before `start` and the pattern occurs there |
| PyStr.FindFirst | backend/agents/code_editor_agent.py:76 | the index found is the first occurrence from `start`, and there is none exactly when the pattern occurs nowhere from `start` on |
| PyStr.FindAbsent | backend/agents/code_editor_agent.py:76 | searching the whole text finds nothing exactly when the pattern does not occur in it |
| PyStr.Count | backend/agents/code_editor_agent.py:76 | no ensures: `str.count`, the number of non-overlapping occurrences scanned left to right, and |s| + 1 for the empty pattern; specified by CountZeroIffAbsent and used by ReplaceLength |
| PyStr.Replace | backend/agents/code_editor_agent.py:76 | no ensures: `str.replace`, every non-overlapping occurrence replaced left to right, and the replacement inserted around every character for the empty pattern; specified by ReplaceLength, ReplaceAbsent, ReplaceBySelf, ReplaceSkipsPrefix and, against the find-based ReplaceFrom, ReplaceAgreesWithFind |
| PyStr.CountZeroIffAbsent | backend/agents/code_editor_agent.py:76 | the non-overlapping occurrence count is zero exactly when the pattern does not occur |
| PyStr.ReplaceLength | backend/agents/code_editor_agent.py:76 | the length of the replaced text is the original length plus the count of occurrences times the length difference |
| PyStr.ReplaceAbsent | backend/agents/code_editor_agent.py:76 | a non-empty pattern that does not occur leaves the text unchanged |
| PyStr.ReplaceBySelf | backend/agents/code_editor_agent.py:76 | replacing a pattern by itself leaves the text unchanged, also for the empty pattern |
| PyStr.ReplaceSkipsPrefix | backend/agents/code_editor_agent.py:76 | text before the first occurrence is copied unchanged |
| PyStr.ReplaceFromAgrees | backend/agents/code_editor_agent.py:76 | for a non-empty pattern, the scanning replace of the text from any position equals the find-based definition `ReplaceFrom` from that position: copy up to the next occurrence found by find, emit the replacement, and continue after the occurrence |
| PyStr.ReplaceAgreesWithFind | backend/agents/code_editor_agent.py:76 | for a non-empty pattern, the scanning replace of the whole text equals the find-based definition |
| CharSearch.FirstIndexOf | backend/agents/boilerplate_agent.py:87 | an index holding the character with no earlier one, or none exactly when the character is absent |
| CharSearch.LastIndexOf | backend/agents/boilerplate_agent.py:87 | an index holding the character with no later one, or none exactly when the character is absent |
| NodePath.Extname | vscode-extension/src/commands/chat.ts:104 | the extension is empty or a single leading dot followed by no other dot, it is a suffix of the name, and it is non-empty exactly when a dot occurs after the first character and the name is not ".." |
| NodePath.ExtnameOfStem | vscode-extension/src/commands/chat.ts:104 | a non-empty stem followed by a one-dot extension has exactly that extension |
| NodePath.Join | vscode-extension/src/commands/chat.ts:99-109 | no ensures: the record key `path.relative(dir, path.join(currentPath, entry.name))` as the root-relative segments joined with '/'; specified by SplitJoin, JoinSplit and JoinInjective |
| NodePath.Split | vscode-extension/src/commands/chat.ts:109 | a relative path splits into at least one segment, and no segment contains '/' |
| NodePath.SplitJoin | vscode-extension/src/commands/chat.ts:109 | splitting the joined segments gives the segments back |
| NodePath.JoinSplit | vscode-extension/src/commands/chat.ts:109 | joining the split path gives the path back |
| NodePath.JoinInjective | vscode-extension/src/commands/chat.ts:109 | distinct relative paths give distinct keys |
| FileCollector.Allowed | vscode-extension/src/commands/chat.ts:92-104 | no ensures: `allowedExt.includes(path.extname(name))`; specified by ExtensionFilterIsCaseSensitive and AllowedExtensionsAreRecognised |
| FileCollector.WalkSpec | vscode-extension/src/commands/chat.ts:94-114 | no ensures: the entries walk(currentPath) adds, or None when it throws (readdirSync on something that is not a readable directory); Walk is proved against it, and its meaning is stated by CollectedIsCollectable, CollectedCount and CollectFailsIffUnreadableDir |
| FileCollector.ListingSpec | vscode-extension/src/commands/chat.ts:96-113 | no ensures: what the loop over a listing adds, each entry's additions written over the earlier ones, None from the first entry that throws; stated by ListingContents, ListingCount and ListingStopsAtFailure |
| FileCollector.EntrySpec | vscode-extension/src/commands/chat.ts:99-112 | no ensures: what one iteration adds: the subtree for a directory, the file's own key for a readable allow-listed file, nothing otherwise; stated by EntryContents and EntryCount |
| FileCollector.Collector.constructor | vscode-extension/src/commands/chat.ts:91 | the record starts empty |
| FileCollector.Collector.Walk | vscode-extension/src/commands/chat.ts:94-114 | walk succeeds exactly when the specification does, and then the record is its old contents overwritten by the entries of the subtree, keyed relative to the root |
| FileCollector.Collector.Visit | vscode-extension/src/commands/chat.ts:99-112 | one loop iteration succeeds exactly when the entry's specification does, and then the record is its old contents overwritten by what the entry adds: its subtree for a directory, its own key for a readable allow-listed file, nothing otherwise |
| FileCollector.CollectFiles | vscode-extension/src/commands/chat.ts:89-118 | collectFiles returns the specified map for a readable root directory and rejects when the specification fails |
| FileCollector.ListingStopsAtFailure | vscode-extension/src/commands/chat.ts:96-102 | once an entry of a listing has thrown, the rest of the listing is never reached and the listing throws |
| FileCollector.EntryContents | vscode-extension/src/commands/chat.ts:97-113 | for every key, what one entry contributes is the collectable file that the key's path reaches below it |
| FileCollector.ListingContents | vscode-extension/src/commands/chat.ts:97-113 | for every key, what a listing contributes is the collectable file that the key's path reaches in it |
| FileCollector.CollectedIsCollectable | vscode-extension/src/commands/chat.ts:94-117 | a key is present exactly when its path reaches, from the root, a readable file with an allowed extension, and its value is that file's content |
| FileCollector.KeysNameCollectedFiles | vscode-extension/src/commands/chat.ts:100-109 | every key names a file, never a directory, that has an allowed extension; its value is the content read for it |
| FileCollector.EveryCollectableFileIsKept | vscode-extension/src/commands/chat.ts:104-109 | every readable allow-listed file anywhere in the tree is recorded under its root-relative path |
| FileCollector.UnreadableFileIsSkipped | vscode-extension/src/commands/chat.ts:106-111 | a file that cannot be read leaves no key in the collected map |
| FileCollector.EntryCount | vscode-extension/src/commands/chat.ts:97-113 | an entry contributes one key per readable allow-listed file below it |
| FileCollector.NewNameAddsNewKeys | vscode-extension/src/commands/chat.ts:97-113 | an entry whose name no earlier sibling has adds only keys the earlier siblings did not add |
| FileCollector.ListingCount | vscode-extension/src/commands/chat.ts:97-113 | a listing contributes one key per readable allow-listed file below it, since sibling contributions are disjoint |
| FileCollector.CollectedCount | vscode-extension/src/commands/chat.ts:94-116 | the map has as many entries as there are readable allow-listed files in the tree |
| FileCollector.NothingToCollect | vscode-extension/src/commands/chat.ts:116-117 | a tree without readable allow-listed files gives the empty map |
| FileCollector.EntryFailureSpreads | vscode-extension/src/commands/chat.ts:96-102 | an entry that throws makes its whole listing throw |
| FileCollector.ListingFailsAt | vscode-extension/src/commands/chat.ts:96-102 | an unreadable directory reachable in a listing makes the listing throw |
| FileCollector.EntryFailsAt | vscode-extension/src/commands/chat.ts:96-102 | an unreadable directory reachable below an entry makes that entry throw |
| FileCollector.CollectFailsIffUnreadableDir | vscode-extension/src/commands/chat.ts:94-116 | collectFiles rejects exactly when the root is not a readable directory or some directory below it cannot be listed; unreadable files never make it reject |
| FileCollector.ExtensionFilterIsCaseSensitive | vscode-extension/src/commands/chat.ts:92-104 | a name ending in ".py" is collected, and the same name ending in ".PY" is not |
| FileCollector.AllowedExtensionsAreRecognised | vscode-extension/src/commands/chat.ts:92-104 | any non-empty stem followed by any of the 13 listed extensions passes the filter |
| CodeEditor.Merge | backend/agents/code_editor_agent.py:115-128 | no ensures: the graph's merge of a node's partial state into the state; specified by MergeField and MergeKeepsUnwritten |
| CodeEditor.MergeField | backend/agents/code_editor_agent.py:115-128 | merging a node's partial state sets the keys it returned and keeps every other key |
| CodeEditor.MergeKeepsUnwritten | backend/agents/code_editor_agent.py:115-128 | a key outside the node's partial state keeps its value |
| CodeEditor.Read | backend/agents/code_editor_agent.py:27-28 | a state lookup gives the stored value, or a KeyError naming the key exactly when the key is absent |
| CodeEditor.ClarifyNode | backend/agents/code_editor_agent.py:22-46 | succeeds exactly when instruction and selected_code are present, writes only instruction, and sets it to the model's answer about that selection and instruction |
| CodeEditor.FixNode | backend/agents/code_editor_agent.py:49-78 | succeeds exactly when full_code, selected_code and instruction are present, writes only updated_code and updated_selection; the selection is the stripped answer, and the code is the full code with every occurrence of the selection replaced by it |
| CodeEditor.ExplainNode | backend/agents/code_editor_agent.py:81-111 | succeeds exactly when selected_code, updated_selection and full_code are present, and writes only explanation, the model's answer about that triple |
| CodeEditor.RunCodeEditor | backend/agents/code_editor_agent.py:115-128 | the run succeeds exactly when the request holds full_code, selected_code and instruction, and full_code and selected_code come out unchanged |
| CodeEditor.RunOutcome | backend/agents/code_editor_agent.py:122-126 | the whole end state of a run: fix works on the clarified instruction, and explain sees the stripped answer and the original selection |
| CodeEditor.AbsentSelectionLeavesCode | backend/agents/code_editor_agent.py:76 | a non-empty selection that does not occur in the file gives back the file unchanged |
| CodeEditor.UnchangedSelectionLeavesCode | backend/agents/code_editor_agent.py:76 | when the updated selection equals the selection, the updated code equals the file |
| CodeEditor.UpdatedCodeLength | backend/agents/code_editor_agent.py:76 | the updated code's length is the file's length plus one length difference per occurrence of the selection |
| CodeEditor.UpdatedSelectionIsStripped | backend/agents/code_editor_agent.py:77 | the updated selection has no surrounding whitespace, whatever the model answers |
| Boilerplate.BraceSpan | backend/agents/boilerplate_agent.py:87 | the span found matches `\{.*\}`, every other matching span lies inside it, so it has the leftmost start and the farthest end, and there is none exactly when no '{' precedes a '}' |
| Boilerplate.Search | backend/agents/boilerplate_agent.py:87 | the matched text starts with '{' and ends with '}', and there is none exactly when no '{' precedes a '}' |
| Boilerplate.WholeTextMatches | backend/agents/boilerplate_agent.py:87 | an answer that is one brace-delimited text is matched whole |
| Boilerplate.ErrorText | backend/agents/boilerplate_agent.py:96 | no ensures: the error.txt text built from the exception message and the stripped answer; specified by ErrorFilesShape |
| Boilerplate.ErrorFiles | backend/agents/boilerplate_agent.py:95-97 | no ensures: the one-entry `{"error.txt": ...}` object of the except branch; specified by ErrorFilesShape |
| Boilerplate.ErrorFilesShape | backend/agents/boilerplate_agent.py:96 | the fallback is a single error.txt entry; its text starts with the fixed header and the message, and ends with the raw-output trailer and the stripped answer |
| Boilerplate.ExtractFiles | backend/agents/boilerplate_agent.py:87-97 | no ensures: the search, the parse of the match and the except branch, on the stripped answer; specified by NoMatchGivesErrorFile, ParseFailureGivesErrorFile, ParsedSpanIsKept and FilesAlwaysObject |
| Boilerplate.NoMatchGivesErrorFile | backend/agents/boilerplate_agent.py:90-96 | with no '{' before a '}', files is the error.txt entry reporting "No valid JSON found in LLM output." |
| Boilerplate.ParseFailureGivesErrorFile | backend/agents/boilerplate_agent.py:94-97 | when the matched span does not parse, files is the error.txt entry carrying the parser's message |
| Boilerplate.ParsedSpanIsKept | backend/agents/boilerplate_agent.py:87-91 | when the span from the first '{' to the last '}' parses, files is the parsed value |
| Boilerplate.FilesAlwaysObject | backend/agents/boilerplate_agent.py:89-97 | with a parser that follows RFC 8259, files is always a JSON object |
| Boilerplate.EnhancePromptNode | backend/agents/boilerplate_agent.py:21-54 | succeeds exactly when user_input is present, and writes only enhanced_prompt, the stripped answer |
| Boilerplate.BoilerplateNode | backend/agents/boilerplate_agent.py:58-99 | succeeds exactly when enhanced_prompt is present, and writes only files, extracted from the stripped answer |
| Boilerplate.Merge | backend/agents/boilerplate_agent.py:102-112 | no ensures: the graph's merge of a node's partial state; RunBoilerplate and RunOutcome state the end state it produces |
| Boilerplate.RunBoilerplate | backend/agents/boilerplate_agent.py:102-112 | the run succeeds exactly when the request holds user_input, which is kept, and it always ends with files set |
| Boilerplate.RunOutcome | backend/agents/boilerplate_agent.py:102-112 | the files are extracted from the stripped answer to the stripped enhancement of the user's input, and with an RFC 8259 parser they are an object |

## Left out

- Windows paths. Keys use '/' as the separator, as on POSIX. `path.join` and `path.relative` are modelled only for plain names, without `.`/`..` normalisation.
- Entries that are neither directories nor regular files, such as symlinks and sockets. `isDirectory()` is false for them, so the code sends them to the file branch, and the model's `File` covers them by what reading them yields. The code does not restrict itself to regular files, and the model follows the code.
- Decoding of file content. `readFileSync(path, "utf-8")` replaces invalid bytes and does not throw, so content is an uninterpreted string. A file is unreadable only when the read itself throws.
- NodePath.Extname: models `path.extname` only for base names, which is what a directory listing returns.
- FileCollector.Collector.Walk: does not specify the partial contents of `fileMap` when walk throws, since the caller discards them.
- The asynchronous wrapper of `collectFiles`. A rejected promise is `None`.
- The order of keys in the record and in Python dicts. Maps are unordered here.
- Language-model calls and prompt text. The model is a parameter: a function from the values each prompt interpolates to the answer's content.
- The workings of `json.loads`. The parser is a parameter, and the only property required of it is the RFC 8259 object rule, stated as `Boilerplate.ObjectsParseAsObjects`.
- The exception type and quoting in a `KeyError`. A failure carries the missing key's name.
- LangGraph's runtime. Only the fixed node order and the merge of partial states are modelled.
- The HTTP layer, FastAPI and Pydantic models, and the response field names. The response sends the state's `updated_selection` as `updated_code` and the state's `updated_code` as `full_updated_code` (backend/main.py:56).
- The VS Code UI, `fetch` calls, the file-writing loop of the boilerplate command, FAISS and embeddings, and concurrency between commands. These are host I/O and foreign libraries.
- The client's non-empty-selection check (vscode-extension/src/commands/editor.ts:19-23). `str.replace` is modelled for the empty pattern as well, so no precondition is needed.
