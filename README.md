# TalentScout hiring assistant: string handling, modelled in Dafny

TalentScout is a single-page web assistant. A candidate fills in a form
(name, e-mail, phone, experience, position, location and a comma-separated
tech stack). The assistant asks a hosted language model for 3-5 technical
questions about that stack, shows the questions with answer boxes, and
saves the candidate record as a timestamped JSON file.

This project models the parts of that script that are plain string logic,
and proves what they do:

- **Reply handling** (`Questions`). The model's reply is searched for the
  first `[` (`str.find`) and the last `]` (`str.rfind`). If both exist, the
  inclusive slice between them goes to the JSON parser. Otherwise the
  result is `None` and nothing is parsed. Python slice semantics are kept:
  when the last `]` comes before the first `[`, the slice is the empty
  string, and that empty string is what gets parsed.
- **Tech-list normalisation** (`TechStack`). The stack is split on `,`,
  each piece is stripped of surrounding whitespace, and the pieces are
  re-joined with `", "`.
- **Exit test** (`ExitCheck`). The stack is lowercased. It counts as a
  request to leave when any of `exit`, `quit`, `end`, `stop`, `bye`
  appears in it as a substring. So `Backend` and `Frontend` count too.
- **Submit handler** (`Submission`). The handler first requires five
  non-empty fields, then applies the exit test, then normalises the stack
  for the question generator.
- **File name** (`Persistence`). Blanks in the candidate's name become
  `_`, and `_<timestamp>.json` is appended.

`PyStr` holds the Python `str` operations these use: `find`, `rfind`,
slicing, `strip`, `split`, `join`, `lower`, `in` and `replace`. Each is a
Dafny function over `string`, with lemmas such as the split/join round
trip.

The JSON parser is a parameter `loads: string -> Option<J>`. It stands for
`json.loads`, with `None` where that raises a decoding error. The clock
reading is a `timestamp` parameter.

The prompt asks the model for a JSON array of objects, each with a
`"question"` and an `"answer"` member, and for nothing outside the JSON
(file.py:29-33, 47). The reply handling does not hold the reply to that
shape. It checks no schema: whatever `json.loads` accepts is returned
unchanged (file.py:62-63), whether a list of objects, a list of numbers or
an empty list. The model follows the code, so `GenerateQuestions` returns
the parser's answer on the candidate text.

## Model

| member | source | states |
|---|---|---|
| `PyStr.Find` | file.py:56 | The result is -1 exactly when the character is absent. Otherwise it is an index holding the character, with no earlier occurrence. |
| `PyStr.RFind` | file.py:57 | The result is -1 exactly when the character is absent. Otherwise it is an index holding the character, with no later occurrence. |
| `PyStr.Slice` | file.py:60 | Python slicing: negative bounds count from the end, and both bounds are clamped. The length is `hi - lo`, or 0 when the bounds cross. Each character comes from position `lo + k`. |
| `PyStr.Strip` | file.py:131 | The result has no whitespace at either end. It is the contiguous part of the input between an all-whitespace prefix and an all-whitespace suffix. |
| `PyStr.Split` | file.py:131 | There is one more piece than there are separators, and no piece contains the separator. |
| `PyStr.JoinSplit` | file.py:131 | Joining the split pieces with the separator gives back the input. |
| `PyStr.JoinBorders` | file.py:131 | `sep.join` of no pieces is `""`. Otherwise the result starts with the first piece and ends with the last. This, with `JoinSplit` and `SplitJoin`, is the contract of `PyStr.Join`. |
| `PyStr.SplitJoin` | file.py:131 | Splitting a join of separator-free pieces gives back the pieces. |
| `PyStr.Contains` | file.py:126 | The empty needle is always found. A needle that is found is no longer than the text. |
| `PyStr.ContainsIff` | file.py:126 | Python's `needle in hay` holds exactly when the needle occurs in `hay` at some index. |
| `PyStr.Lower` | file.py:126 | Same length, and each character is lowered on its own: ASCII capitals become small letters and every other character is kept. Its partners `LowerConcat` and `LowerIdempotent` show that lowering distributes over concatenation and that lowering twice changes nothing. |
| `PyStr.ReplaceChar` | file.py:86 | Same length. Each occurrence of the old character becomes the new one, and every other character is kept. `Persistence.SanitizeCollidesIff` and `Persistence.SanitizeIdempotent` relate it to its inputs. |
| `PyStr.StripAfterSpace` | file.py:131 | A blank followed by an already-stripped name strips back to that name. |
| `Questions.ExtractJsonArray` | file.py:56-60 | The search fails exactly when a `[` or a `]` is missing. A non-empty candidate starts with `[`, ends with `]`, and is no longer than the reply. |
| `Questions.GenerateQuestions` | file.py:53-73 | A missing bracket gives `None`, and the parser is not consulted. When there is a candidate, the result is exactly the parser's answer on it. |
| `Questions.ExtractSpansBrackets` | file.py:56-60 | When the first `[` is at `i`, the last `]` is at `j`, and `i < j`, the candidate is exactly `s[i..j + 1]`. |
| `Questions.GenerateParsesSpan` | file.py:59-63 | In that case, the parser is handed exactly that inclusive slice. |
| `Questions.CandidateIsOutermost` | file.py:56-57 | No `[` comes before the start and no `]` comes after the end. When they are in order, the candidate is the slice between them. |
| `Questions.CrossedBracketsGiveEmptyCandidate` | file.py:59-60 | With both brackets present, the candidate is `""` exactly when every `[` comes after every `]`. |
| `Questions.CrossedBracketsFail` | file.py:60-68 | Crossed brackets give `None`, because the empty text is no JSON text. |
| `Questions.MissingBracketSkipsParse` | file.py:59-73 | A reply missing a bracket gives `None` whatever the parser would answer. |
| `Questions.WholeReplyIsCandidate` | file.py:56-60 | A reply that starts with `[` and ends with `]` is passed to the parser whole. |
| `Questions.ExtractIdempotent` | file.py:56-60 | Extracting again from a non-empty candidate gives the same candidate. |
| `TechStack.StripAll` | file.py:131 | The list comprehension keeps the number of pieces, and each piece is stripped. |
| `TechStack.NormalizeTechList` | file.py:131 | Normalising keeps the number of commas. Splitting the output and stripping the pieces gives the input's stripped pieces. |
| `TechStack.NormalizeResplits` | file.py:131 | The output is the stripped comma pieces joined by `", "`. Re-split, it gives those pieces with a blank before every piece except the first. |
| `TechStack.NormalizeKeepsNameCount` | file.py:131 | Input and output split into the same number of pieces. |
| `TechStack.NormalizeIdempotent` | file.py:131 | Normalising twice gives the same result as normalising once. |
| `TechStack.CleanNamesResplit` | file.py:131 | For stripped, comma-free names, the `", "`-join re-splits into the blank-prefixed names, which strip back to the names. |
| `TechStack.StrippedPiecesAreClean` | file.py:131 | The stripped comma pieces of any input have no outer whitespace and contain no comma. |
| `ExitCheck.AnyKeywordIn` | file.py:126 | `any(...)` holds exactly when some keyword occurs as a substring of the text. |
| `ExitCheck.IsExitRequest` | file.py:126 | The exit test holds exactly when one of the five keywords occurs at some index of the lowercased stack. |
| `ExitCheck.BackendMeansExit` | file.py:126 | `"Backend"`, `"Frontend"` and `"Python, Django, Backend"` all pass the exit test, because they contain `end`. |
| `ExitCheck.NoTOrEMeansStay` | file.py:109 | Every keyword contains a `t` or an `e`, so a stack with neither letter never asks to leave. |
| `ExitCheck.DjangoStackStays` | file.py:126 | `"Django, Kafka, Ruby"` does not pass the exit test. |
| `ExitCheck.ExitIgnoresCase` | file.py:126 | Lowercasing the stack first does not change the verdict. |
| `ExitCheck.ExitSurvivesContext` | file.py:126 | A stack that asks to leave still asks to leave with any text added before or after it. |
| `ExitCheck.AnyCasingOfKeywordExits` | file.py:109 | The five keywords are written in small letters, so each of them typed in any mix of cases passes the exit test. |
| `ExitCheck.KeywordsHaveNoSeparators` | file.py:109 | No keyword contains a comma or a blank. |
| `ExitCheck.OccursInJoinedName` | file.py:131 | A comma- and blank-free needle in a lowercased `", "`-join occurs in one of the joined names. |
| `ExitCheck.NormalizedStackStaysClear` | file.py:126-132 | If the stack passes the exit test as a non-exit, its normalised list does too. Normalising never creates a keyword. |
| `Submission.MissingRequired` | file.py:122 | The gate fails exactly when one of the five required fields (name, e-mail, phone, position, stack) is the empty string. |
| `Submission.OnSubmit` | file.py:121-132 | The handler warns exactly when a required field is empty, and says goodbye exactly when all are filled and the exit test holds. Otherwise the generator receives the normalised stack, which contains no keyword. |
| `Submission.OptionalFieldsIgnored` | file.py:122 | Location and experience never affect the outcome. |
| `Submission.BlankStackReachesGenerator` | file.py:122-131 | A blank-only stack passes the gate, because only `""` counts as missing. It reaches the generator as the empty tech list. |
| `Submission.BackendCandidateIsSentAway` | file.py:122-128 | A filled form with stack `"Python, Django, Backend"` ends in goodbye. |
| `Submission.EmptyStackIsMissing` | file.py:122-124 | An empty stack triggers the missing-field warning before the exit test is reached. |
| `Persistence.SanitizeName` | file.py:86 | Same length, no blank, each blank replaced by `_`, and every other character unchanged. |
| `Persistence.OutputFileName` | file.py:86-88 | The file name is the sanitised name, then `_`, then the timestamp, then `.json`. |
| `Persistence.SanitizeCollidesIff` | file.py:86 | Two names sanitise alike exactly when they have the same length and differ only at positions holding a blank or `_` in both. |
| `Persistence.SanitizeIdempotent` | file.py:86 | Sanitising twice gives the same result as sanitising once. |
| `Persistence.FileNameDetermines` | file.py:87-88 | With well-formed `%Y%m%d_%H%M%S` timestamps, equal file names mean equal sanitised names and equal timestamps. |
| `Persistence.BlankAndUnderscoreCollide` | file.py:86-88 | `"Ada Lovelace"` and `"Ada_Lovelace"` saving in the same second get the same file name. |

## Left out

- The web UI and its session state (file.py:95-174) are not modelled. This covers the widgets, the form, reruns, the answer boxes, storing the answers, the "Submit Answers" and "End Conversation" buttons, and clearing the session. This is reactive behaviour owned by the UI framework. `st.stop()` is modelled only as the end of a `SubmitStep`.
- The language-model call is not modelled: the API key check (file.py:10-16), the prompt template (file.py:21-51) and `question_chain.run`. It is a network call into a foreign library, so the reply is an arbitrary input string.
- `json.loads` is the `loads` parameter. Lemmas that need the empty text to be rejected say so in their `requires`, as section 2 of RFC 8259 does. `json.dump` (file.py:92) is not modelled.
- The `except Exception` branch (file.py:75-79) is not modelled. None of the modelled string operations can raise.
- `if questions:` (file.py:134) is not modelled. It treats an empty parsed list as a failure, which is Python truthiness on the parser's output.
- The file system is not modelled: the output directory check and creation, `os.path.join` and `open` (file.py:82-84, 89-93). A name containing a path separator is therefore not examined.
- The clock (`datetime.now().strftime`, file.py:87) is not modelled. The timestamp is a parameter, and `WellFormedTimestamp` states the shape it has for four-digit years.
- The widget bound on experience (0 to 50, file.py:115) is not modelled. The modelled part of the handler (file.py:121-132) never reads the field. Line 140 only copies it into the saved candidate record, and building that record is left out with the session state.
- `PyStr.Lower`: maps only the ASCII capitals A-Z. Python's `str.lower` also lowercases other Unicode letters, so a non-ASCII keyword spelling is outside the model.
- `PyStr.IsSpace`: covers only the ASCII whitespace that `str.isspace` accepts (codes 9-13, 28-31 and 32). `PyStr.Strip` therefore keeps Unicode blanks such as U+00A0 that Python would remove.
- `ExitCheck.IsExitRequest`: inherits the ASCII-only lowering above.
