# Feature request clarifier: the clarification backend in Dafny

The backend takes a free-text feature request, and an optional title, through six defect types in a fixed order:

- four kinds of ambiguity (lexical, syntactic, semantic, pragmatic);
- vagueness;
- incompleteness.

For each type it sends a detection prompt to a text-generation service and cuts the reply at commas. It strips whitespace and double quotes from each piece and drops the pieces that read "no defect found" in any case. For every remaining segment it asks the service for one clarifying question. It collects one row per segment in a table. The interface then lists the table's questions and writes the user's answers back into it.

The model has six modules, one file each:

- `Text` (`text.dfy`): ASCII models of the Python string methods the backend uses.
  - `lower`, `title`, `replace` of one character, `strip` and `split` on a one-character separator.
  - Each comes with its defining properties:
    - `strip` keeps the slice between the dropped ends, and is idempotent;
    - `split` gives one more piece than there are separators;
    - `split` and `join` are inverse to each other.
- `Catalog` (`catalog.dfy`): the catalog data.
  - The six identifiers and their order, and the definitions table.
  - The case-insensitive definition lookup with its fallback.
  - The title-cased subclass name that the ambiguity template embeds.
- `Prompts` (`prompts.dfy`): `detection_prompt` and `cqs_prompt`, with the exact template texts.
- `Pipeline` (`pipeline.dfy`): `questions_for_request`.
  - The reply parsing, as the function `Segments`.
  - The loops, as methods, each proved equal to a specification function:
    - the inner loop, `CollectQuestions`, to `QuestionRows` and `QuestionPrompts` of the reply's segments;
    - one pass of the outer loop, `CollectStage`, to `Stage`;
    - both loops, `CollectFindings`, to `Run`. Its loop invariant is `RunUpTo`, the run after the first n defect types.
  - `Stage`, `RunUpTo` and `Run` log every row and every prompt sent. The prompt log is a device of the model: `questions_for_request` returns only the table, and `QuestionsForRequest` gives the log back as a ghost result.
  - Lemmas about that log:
    - how many service calls are made;
    - which call answers which row;
    - what every row holds;
    - that rows come grouped by defect type in catalog order.
- `QuestionTable` (`table.dfy`): `get_questions_list` and `save_answer` over the table, which is a Dafny `array` of rows.
- `Wrappers` (`wrappers.dfy`): the `Option` and `Result` types.

`RunUpTo`, the run after its first n defect types, is stated for any list of defect types with their detection prompts, and for any way of cutting a reply into segments. `Run` instantiates it with the catalog, the catalog's prompts and `Segments`. The lemmas about `RunUpTo` need only the hypotheses they name: distinct types, and clean segments.

The text-generation service is a parameter `gen: (nat, string) -> string`. `gen(k, prompt)` is the reply to the k-th call, counted from 0 over the whole run. This covers a service that answers each prompt in a fixed way, and also one that replays a list of canned replies.

## Model

| member | source | states |
|---|---|---|
| Text.Lower | backend.py:43 | `s.lower()` on ASCII: every upper-case letter becomes its lower-case letter, every other character is kept, and the length is unchanged. |
| Text.Title | backend.py:60 | `s.title()` on ASCII: a letter that follows a cased character is lower-cased, every other letter is upper-cased. |
| Text.ReplaceChar | backend.py:60 | `s.replace(old, new)` for single characters: every occurrence of `old` becomes `new`. |
| Text.Strip | backend.py:97 | `s.strip(chars)`: the longest run of characters in `chars` is cut off the front, then off the back. |
| Text.Join | backend.py:96 | `sep.join(parts)`, the inverse against which `split` is characterised. |
| Text.StripSpec | backend.py:97 | `strip(chars)` returns a slice of its input. Every character cut off before or after the slice is in `chars`. Neither end of the slice is in `chars`. The slice is empty exactly when every character is in `chars`. |
| Text.StripUnique | backend.py:97 | Conversely, any slice with only characters of `chars` cut off around it and neither end in `chars` is the result of `strip(chars)`. |
| Text.StripKeepsChars | backend.py:97 | Stripping only removes characters. |
| Text.StripUnchanged | backend.py:97 | A string with both ends outside `chars` is unchanged by `strip`. |
| Text.StripIdempotent | backend.py:97 | Stripping twice is the same as stripping once. |
| Text.SplitCount | backend.py:96 | `split(sep)` yields one more piece than `sep` occurs in the input. |
| Text.Split | backend.py:96 | `split` yields at least one piece, and no piece contains the separator. |
| Text.JoinSplit | backend.py:96 | Joining the pieces of a split with the separator gives back the input. |
| Text.SplitJoin | backend.py:96 | Separator-free pieces come back unchanged from splitting their join. |
| Text.SplitWithoutSep | backend.py:96 | A string without the separator splits into itself alone. |
| Text.SplitAtSep | backend.py:96 | Splitting at the first separator yields the prefix, then the split of the rest. |
| Text.LowerIdempotent | backend.py:43 | Lower-casing twice is the same as lower-casing once. |
| Catalog.DefinitionFor | backend.py:43 | `definitions.get(defect_type.lower(), fallback)`: the definition of the lower-cased identifier, or the text "No definition available for this defect type." |
| Catalog.Subclass | backend.py:60 | `defect_type.replace("_", " ").title()`: the identifier as given, underscores turned into spaces, title-cased. |
| Catalog.DefinitionsShape | backend.py:27-34 | The definitions table has exactly the six catalog identifiers as keys. The fallback text is none of its values. |
| Catalog.DefinitionForSpec | backend.py:43 | The lookup returns the fallback exactly when the lower-cased identifier is not in the catalog. Otherwise it returns that identifier's definition. |
| Catalog.DefinitionIgnoresCase | backend.py:43 | The definition found does not depend on the identifier's case. |
| Catalog.CatalogShape | backend.py:82 | `defect_types` has six distinct lower-case identifiers: the five ambiguity identifiers followed by incompleteness. |
| Catalog.CatalogLowerCase | backend.py:82 | Every catalog identifier is its own lower-case form. |
| Catalog.SubclassIgnoresCase | backend.py:60 | The subclass name does not depend on the identifier's case. |
| Catalog.SubclassOfWords | backend.py:60 | For one or two lower-case words joined by `_`, the subclass name is the words capitalised and joined by a space. |
| Catalog.AmbiguitySubclass | backend.py:59-60 | Each of the five ambiguity identifiers, in any case, gets its title-cased subclass name, such as "Lexical Ambiguity" or "Vagueness". |
| Catalog.LexicalSubclass | backend.py:60 | `lexical_ambiguity` gives "Lexical Ambiguity". |
| Catalog.SyntacticSubclass | backend.py:60 | `syntactic_ambiguity` gives "Syntactic Ambiguity". |
| Catalog.SemanticSubclass | backend.py:60 | `semantic_ambiguity` gives "Semantic Ambiguity". |
| Catalog.PragmaticSubclass | backend.py:60 | `pragmatic_ambiguity` gives "Pragmatic Ambiguity". |
| Catalog.VaguenessSubclass | backend.py:60 | `vagueness` gives "Vagueness". |
| Prompts.DetectionPrompt | backend.py:37-70 | A prompt is produced exactly when the lower-cased identifier is in the catalog. Otherwise the result is the invalid-defect-type error carrying the identifier as given. |
| Prompts.IncompletenessPromptShape | backend.py:43-56 | The incompleteness prompt starts with `Definition: <type>: <definition>` and a blank line. It names the sentinel "Missing Information: No Defect Found" and ends with `Statement: <request> `. |
| Prompts.AmbiguityInstructionsShape | backend.py:61-65 | The ambiguity template asks for "<subclass> ambiguity" and names the sentinel "No Defect Found". It ends with `Statement: <request>`. |
| Prompts.AmbiguityPromptShape | backend.py:43-65 | For the five ambiguity identifiers the prompt starts with the header and asks for "<Subclass> ambiguity" with the title-cased name. It names "No Defect Found" and ends with the request. |
| Prompts.DetectionPromptIgnoresTitle | backend.py:37-47 | The title never changes the detection prompt, since the statement line built from it is discarded. |
| Prompts.DetectionPromptIgnoresCase | backend.py:43-65 | After the header, which echoes the identifier as given, the prompt is the same for every casing of an accepted identifier. |
| Prompts.QuestionPrompt | backend.py:74-80 | `cqs_prompt`: the fixed question template with the defect type, the segment and the request filled in. |
| Prompts.QuestionPromptShape | backend.py:74-80 | The question prompt starts with its fixed opening and the defect type. It contains `Segment: "<segment>"` and `Original Request: "<request>"`. |
| Prompts.QuestionPromptInjective | backend.py:74-80 | For a fixed type and request, two question prompts are equal exactly when their segments are equal. |
| Pipeline.Clean | backend.py:97 | `piece.strip().strip('"')`: whitespace cut off both ends, then double quotes. |
| Pipeline.Cleaned | backend.py:96-97 | Every comma piece cleaned, in order. |
| Pipeline.Kept | backend.py:99 | The segments whose lower-case form is not "no defect found", in their order. |
| Pipeline.Segments | backend.py:96-99 | The segments of a detection reply: split at commas, each piece cleaned, the "no defect found" pieces dropped. |
| Pipeline.CleanSpec | backend.py:97 | Cleaning a piece only removes characters, and leaves no double quote at either end. |
| Pipeline.CleanUnchanged | backend.py:97 | A piece with nothing to strip at either end is unchanged by cleaning. |
| Pipeline.CleanQuoted | backend.py:97 | A quoted item, with or without one leading space, cleans to the bare item. |
| Pipeline.KeptMembers | backend.py:99 | A segment is kept exactly when it is present and is not "no defect found" in any case. |
| Pipeline.KeptAll | backend.py:99 | When no segment is the sentinel, all are kept, in order. |
| Pipeline.KeptAppend | backend.py:96-99 | Filtering two lists joined is filtering each and joining: every surviving piece is kept once, in its place, duplicates included, whatever sentinels stand between them. |
| Pipeline.KeptOne | backend.py:99 | A single piece is kept exactly when it is not "no defect found" in any case. |
| Pipeline.SegmentsAtComma | backend.py:96-99 | The segments of a reply are those of its first comma piece, then those of the rest, in order. |
| Pipeline.QuotedAlone | backend.py:96-99 | A quoted item alone is one segment, the bare item. |
| Pipeline.DroppedBetween | backend.py:96-99 | A piece that is dropped, between two quoted items, leaves both items in order, even when they are equal. |
| Pipeline.SentinelBetween | backend.py:96-99 | `"a",no defect found,"b"` yields `a` then `b`, so `"a",no defect found,"a"` yields two rows `a`. |
| Pipeline.SegmentsMembers | backend.py:96-99 | The segments of a reply are exactly its cleaned comma-separated pieces that are not "no defect found" in any case. |
| Pipeline.SegmentsShape | backend.py:96-99 | Every segment contains no comma, has no double quote at either end, and is not "no defect found" in any case. |
| Pipeline.SegmentsClean | backend.py:96-99 | Every segment that `Segments` yields is clean, in the sense `SegmentsShape` states. |
| Pipeline.SingleSegment | backend.py:96-99 | A comma-free reply with nothing to strip is one segment, or no segment when it reads "no defect found". |
| Pipeline.SentinelYieldsNothing | backend.py:96-99 | The reply "No Defect Found" yields no segment. |
| Pipeline.IncompletenessSentinelYieldsSegment | backend.py:96-99 | The reply "Missing Information: No Defect Found" yields one segment, itself. |
| Pipeline.QuotedPair | backend.py:96-99 | A reply `"a", "b"` yields the segments `a` and `b`. |
| Pipeline.TrailingComma | backend.py:96-99 | A reply `"a",` yields `a` and then an empty segment, which is kept. |
| Pipeline.CatalogPrompt | backend.py:91 | The detection prompt of a catalog identifier is always produced, never the error. |
| Pipeline.DetectPromptsSpec | backend.py:89-91 | A run uses one detection prompt per catalog identifier, in catalog order, each the one `detection_prompt` builds. |
| Pipeline.DetectPrompts | backend.py:89-91 | The detection prompt of each catalog identifier, in catalog order. |
| Pipeline.QuestionPrompts | backend.py:101 | The question prompt of each segment, in segment order. |
| Pipeline.QuestionRows | backend.py:96-115 | One row per segment, in order, the j-th holding the reply to call k + j as its question and no answer. |
| Pipeline.Stage | backend.py:91-115 | One defect type's part of a run: the detection prompt sent as call k, then the rows and question prompts of the segments of its reply. |
| Pipeline.RunUpTo | backend.py:89-115 | The rows and prompts after the first n defect types of a list, each stage numbering its calls after those of the stages before it. |
| Pipeline.Run | backend.py:86-115 | The rows and prompts of a whole run over the catalog, with replies cut by `Segments`. |
| Pipeline.StageCalls | backend.py:91-115 | One defect type makes its detection call first, then one question call per row, in row order. Each row's question is the reply to the call that sent its question prompt. |
| Pipeline.StageSegments | backend.py:96-115 | A defect type adds one row per segment of its detection reply, in segment order. |
| Pipeline.StageRows | backend.py:96-115 | Every row a defect type adds has that type, its detection prompt, the request and title, its question prompt, no answer, and a clean segment. |
| Pipeline.EmptyStage | backend.py:92-99 | A reply without segments adds only the detection call. |
| Pipeline.NoDefectStage | backend.py:92-99 | A reply of "No Defect Found" adds only the detection call. |
| Pipeline.RunUpToCount | backend.py:89-115 | After n defect types the calls made number n plus the rows. |
| Pipeline.RunUpToCalls | backend.py:89-115 | After n defect types, with distinct types, row i's type is listed. Its question is the reply to call i + 1 + (the position of its type in the list), and that call sent the row's question prompt. |
| Pipeline.RunUpToDetectCall | backend.py:89-92 | After n defect types, the call made right after the first r types (r < n) sent the r-th type's detection prompt. |
| Pipeline.RunUpToPlaced | backend.py:89-115 | After n defect types, with distinct types, the rows of the r-th type's stage sit unchanged at the position where that stage began, and no other row has that type. |
| Pipeline.RunUpToSegments | backend.py:89-115 | After n defect types, the r-th type's rows hold, in order, the segments of the reply to the call that sent its detection prompt, and no other row has that type. |
| Pipeline.RunUpToRows | backend.py:89-115 | After n defect types every row is made for a listed type and that type's detection prompt. |
| Pipeline.RunUpToAscending | backend.py:89-115 | After n defect types no row's type comes earlier in the list than the type of the row before it. |
| Pipeline.CatalogDistinct | backend.py:82 | The catalog lists no identifier twice. |
| Pipeline.RunCount | backend.py:86-115 | A whole run makes six detection calls plus one question call per row. |
| Pipeline.RunAnswered | backend.py:96-115 | In a whole run row i's question is the reply to call i + 1 + (the catalog position of its type), and that call sent the row's question prompt. |
| Pipeline.RunOwnCalls | backend.py:89-115 | In a whole run every row's type is in the catalog, and a later row is answered by a strictly later call: no two rows share a question call. |
| Pipeline.RunSegments | backend.py:89-115 | In a whole run the rows of the r-th catalog type are consecutive and hold, in order, the segments of the reply to the call that sent that type's detection prompt. No other row has that type. |
| Pipeline.RunWellFormed | backend.py:107-115 | In a whole run every row carries the request, the title, its catalog type's detection prompt, a clean segment, that segment's question prompt and no answer. |
| Pipeline.RunDetectPrompts | backend.py:89-115 | Every row carries exactly the prompt `detection_prompt` builds for its type. |
| Pipeline.AscendingGrouped | backend.py:89 | If no row's type comes earlier than the previous row's, the rows are grouped by type. |
| Pipeline.RunGrouped | backend.py:89-115 | The rows are grouped by defect type, in catalog order. |
| Pipeline.CollectQuestions | backend.py:96-115 | The inner loop produces the rows and question prompts of the reply's segments, in order, with the j-th question from call k + j. |
| Pipeline.CollectStage | backend.py:89-115 | One pass of the outer loop produces exactly one defect type's part of the run. |
| Pipeline.CollectFindings | backend.py:86-116 | Both loops together produce the rows and the prompt log of `Run`. |
| Pipeline.QuestionsForRequest | backend.py:86-119 | `questions_for_request` returns a fresh table holding the rows of `Run`. The prompts of `Run` are the ghost log of the calls made, not a result of the source. |
| QuestionTable.Questions | backend.py:122-133 | The question list: for each row, in order, its position, question, segment and defect type. |
| QuestionTable.WithAnswer | backend.py:137 | The rows after `save_answer`: the answer in every row whose question matches, and no answer in every other row. |
| QuestionTable.QuestionsResolve | backend.py:122-133 | The question list has one entry per row, in row order. Each entry's index leads back to a row with that question, segment and defect type. |
| QuestionTable.GetQuestionsList | backend.py:122-133 | `get_questions_list` walks the table and returns the question list of its contents. |
| QuestionTable.SaveAnswer | backend.py:135-138 | `save_answer` replaces the table's contents with the answered rows. |
| QuestionTable.AnsweredSpec | backend.py:137 | Only the answer column changes. It holds the answer exactly in rows whose question text matches, and is cleared in every other row. |
| QuestionTable.LatestAnswerWins | backend.py:137 | Saving one answer and then another is the same as saving only the second. |
| QuestionTable.SaveAnswerIdempotent | backend.py:137 | Saving the same answer twice equals saving it once. |
| QuestionTable.AnsweringKeepsQuestions | backend.py:122-138 | Saving an answer leaves the question list unchanged. |
| QuestionTable.AnswerReachesListedRow | backend.py:122-138 | Answering a listed question stores the answer in the row its entry points to, and in every row with the same question text. |
| QuestionTable.UnknownQuestionClearsAnswers | backend.py:137 | Answering a question text that no row has clears the whole answer column. |

Behaviour of the code that a reader of its prompts might not expect, modelled as written:

- Empty segments are not filtered. A reply with a trailing comma or an empty piece yields a row with an empty segment (`Pipeline.TrailingComma`).
- Only "no defect found", in any case, is dropped. The incompleteness template's own sentinel "Missing Information: No Defect Found" becomes a segment and gets a question (`Pipeline.IncompletenessSentinelYieldsSegment`).
- `save_answer` addresses rows by question text, not by index. It writes the answer into every row with that question and clears every other row's answer (`QuestionTable.AnsweredSpec`). A question text that matches no row is not an error; it clears the whole column.
- The title takes no part in the detection prompt. The statement line built from it is discarded (`Prompts.DetectionPromptIgnoresTitle`). A row keeps the title exactly as passed, with no title staying absent; the "N/A" default is local to `detection_prompt`.
- The subclass name is title-cased from the identifier as given, so its casing is not lower-cased first. It equals the lower-cased form's name in any case (`Catalog.SubclassIgnoresCase`).

## Left out

- `callOpenAI`, the OpenAI client and the key file (`backend.py:6-24`) are I/O with a remote service. They are the `gen` parameter, a total function from the call number and the prompt to a reply string: the model covers every such sequence of replies.
- Failures of the service are not modelled. A raised exception (network, authentication, rate limit) aborts `questions_for_request` with no table; the model always completes the run.
- The key file is read when the module is imported (`backend.py:7-8`). A missing or malformed file makes the import fail before any operation runs; the model starts after a successful import.
- A `None` reply is not modelled. `completion.choices[0].message.content` can be `None` (`backend.py:24`). For a detection reply, `generation.split` then raises (`backend.py:96`). For a question reply, `None` would be stored as the row's question (`backend.py:102`, `backend.py:114`). Replies in the model are always strings.
- The debugging `print` calls (`backend.py:94`, `backend.py:104`) write to standard output only.
- pandas: the DataFrame is an `array` of row records with a default index numbered from 0. The row index of `get_questions_list` is therefore the array position.
  - The `answer` column is a field of every row, absent (`None`) until `save_answer` fills it; in the source the column does not exist until then.
  - Column types and `apply` on an empty frame are not modelled.
- Text is modelled as ASCII: `lower`, `title`, `strip` and `isspace` follow Python only on ASCII characters. Unicode case mapping and Unicode whitespace are not modelled.
- The `request_statement` string of `detection_prompt` is built and never used, so the model does not construct it.
- The web front end (`app.py`) and the session state it keeps are not part of this model.
