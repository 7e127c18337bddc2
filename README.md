# TDS solver request handler, modelled in Dafny

The TDS solver is a small Django REST service. It takes a data-science
assignment question and an optional uploaded file, asks a language model
for the answer, and returns the answer as a single value. This project
models the logic of `TDSSolverView` in `tds_solver/api/views.py`:

- **File processing.** `_process_file` picks a handler by the file name's
  suffix. `_process_csv_file` turns a parsed CSV file into its rows, or a
  parse failure into the text "Error processing CSV: …".
  `_process_zip_file` walks the extracted archive. It builds a dictionary
  from each CSV file's base name to its processed content, with nested
  loops. The model keeps them as a method, `FileContent.ProcessZip`.
- **Prompt construction** (`_generate_answer`). The user prompt is a fixed
  instruction followed by the question. Only when the file content is
  truthy in Python's sense is it followed by "File content: " and the JSON
  text of the content.
- **Answer extraction** (`_extract_direct_answer`). The first line that
  mentions "answer" (any case) and holds a colon gives the answer: what
  follows its first colon, stripped. Otherwise the shortest non-blank
  stripped line gives it, the earliest on ties. Otherwise the text comes
  back unchanged.

Modules:

| module | file | contents |
|---|---|---|
| `Wrappers` | `wrappers.dfy` | `Option` |
| `Text` | `text.dfy` | the Python string operations used, restricted to ASCII: `strip` (with `IsSpace`, the whitespace set it removes), `lower`, `in`, `endswith`, `split('\n')` and its inverse |
| `FileContent` | `file_content.dfy` | the three file handlers |
| `Prompt` | `prompt.dfy` | Python truthiness of the file content, and the prompt |
| `DirectAnswer` | `direct_answer.dfy` | answer extraction and its post-processing |

The outside world enters as inputs. Parsing a file with pandas is a value
of type `Parse`: the list of records, or the exception text. The
directories `os.walk` visits are a sequence of directories, each a sequence
of (base name, parse outcome) entries, in walk order. `json.dumps` is a
function parameter of `Prompt.BuildPrompt`.

## Model

| member | source | states |
|---|---|---|
| `Text.IsSpace` | tds_solver/api/views.py:121 | whitespace is exactly tab, line feed, vertical tab, form feed, carriage return, the separators 0x1C–0x1F and space |
| `Text.Strip` | tds_solver/api/views.py:121 | the stripped text is no longer than the input; it is empty or starts and ends with a non-whitespace character; it is empty exactly when the input is all whitespace |
| `Text.StripRemovesSurrounding` | tds_solver/api/views.py:121 | the input is some whitespace, then the stripped text, then some whitespace; with `Text.Strip`'s non-whitespace ends this pins the result down as the input minus its surrounding whitespace |
| `Text.StripIdempotent` | tds_solver/api/views.py:121 | stripping twice gives the same as stripping once |
| `Text.LowerChar` | tds_solver/api/views.py:117 | `A`–`Z` map to `a`–`z`; every other character is kept |
| `Text.Lower` | tds_solver/api/views.py:117 | lower-casing keeps the length and lower-cases each character in place |
| `Text.Contains` | tds_solver/api/views.py:117 | defines Python's `sub in s`: `sub` occurs in `s` starting at some index (a definition; `DirectAnswer.HeadingQualifies` relies on it) |
| `Text.EndsWith` | tds_solver/api/views.py:49-51 | `s` ends with `suffix` exactly when `suffix` is the tail of `s` from some index |
| `Text.Split` | tds_solver/api/views.py:115 | splitting on line feeds gives at least one piece, and no piece holds a line feed |
| `Text.SplitChars` | tds_solver/api/views.py:115 | every character of every piece comes from the text split |
| `Text.JoinSplit` | tds_solver/api/views.py:115 | joining the pieces with line feeds gives the original text back |
| `Text.SplitJoin` | tds_solver/api/views.py:115 | splitting a join of line-feed-free pieces gives those pieces back |
| `Text.SplitSingleLine` | tds_solver/api/views.py:115 | text without a line feed is one piece |
| `Text.SplitAtNewline` | tds_solver/api/views.py:115 | the pieces of `a + "\n" + b` are the pieces of `a` followed by the pieces of `b` |
| `DirectAnswer.AfterFirstColon` | tds_solver/api/views.py:118 | the result is what follows the first colon: the line is a colon-free prefix, a colon, then the result |
| `DirectAnswer.AfterFirstColonOf` | tds_solver/api/views.py:118 | for a colon-free `before`, `before + ":" + after` gives exactly `after`, later colons included |
| `DirectAnswer.FirstQualifying` | tds_solver/api/views.py:116-117 | the index found is the first line that mentions "answer" and holds a colon; when there is none it is the line count |
| `DirectAnswer.Qualifies` | tds_solver/api/views.py:117 | defines the test: lower-cased the line contains "answer", and it holds a colon (a definition; `DirectAnswer.FirstQualifying` finds the first line passing it) |
| `DirectAnswer.HeadingQualifies` | tds_solver/api/views.py:117 | a line whose heading mentions "answer" in any case, followed by a colon, qualifies |
| `DirectAnswer.NonBlank` | tds_solver/api/views.py:121 | defines the candidate list: each line stripped, keeping the non-empty ones in order (a definition; its shape is stated by `DirectAnswer.NonBlankShape`, `DirectAnswer.NonBlankAt` and `DirectAnswer.RankReaches`) |
| `DirectAnswer.NonBlankShape` | tds_solver/api/views.py:121 | every kept line is non-empty without surrounding whitespace; none is kept exactly when every line strips to empty |
| `DirectAnswer.NonBlankOfTrimmed` | tds_solver/api/views.py:121 | lines that are already non-empty and stripped are all kept, in order |
| `DirectAnswer.ShortestIndex` | tds_solver/api/views.py:123 | the index picked holds a line no longer than any other, and strictly shorter than every earlier one (Python's `min` keeps the first minimum) |
| `DirectAnswer.ShortestIndexUnique` | tds_solver/api/views.py:123 | any index with those two properties is the one picked |
| `DirectAnswer.ExtractDirectAnswer` | tds_solver/api/views.py:113-125 | the result is the input unchanged, empty, or text with no surrounding whitespace |
| `DirectAnswer.AnswerLineWins` | tds_solver/api/views.py:115-118 | when line `i` is the first qualifying line, the answer is its text after the first colon, stripped |
| `DirectAnswer.LaterLinesIgnored` | tds_solver/api/views.py:116-118 | once a qualifying line occurs, appending more lines never changes the answer |
| `DirectAnswer.SingleAnswerLine` | tds_solver/api/views.py:115-118 | a one-line reply "heading: value" whose heading mentions "answer" gives the value stripped |
| `DirectAnswer.ShortestLineWins` | tds_solver/api/views.py:120-123 | with no qualifying line and some non-blank line, the answer is a stripped line no longer than any non-blank stripped line, and every earlier non-blank line is strictly longer |
| `DirectAnswer.PlainLinesPickShortest` | tds_solver/api/views.py:120-123 | for colon-free lines that are already stripped, the answer is the earliest shortest line |
| `DirectAnswer.MiddleLineShortest` | tds_solver/api/views.py:120-123 | of three plain lines, a second line shorter than the first and no longer than the third is the answer |
| `DirectAnswer.AllLinesBlankIff` | tds_solver/api/views.py:121-122 | every line strips to empty exactly when the whole text is whitespace |
| `DirectAnswer.BlankTextUnchanged` | tds_solver/api/views.py:121-125 | text that is all whitespace (or empty) comes back unchanged |
| `DirectAnswer.AnswerLineExample` | tds_solver/api/views.py:115-118 | "The answer: 42" gives "42" |
| `DirectAnswer.LaterColonsKeptExample` | tds_solver/api/views.py:118 | "ANSWER: 10:30" gives "10:30" |
| `DirectAnswer.ShortestLineExample` | tds_solver/api/views.py:120-123 | "Line one.", "OK", "Another longer line." gives "OK" |
| `DirectAnswer.BlankExample` | tds_solver/api/views.py:124-125 | " \t " and "" come back unchanged |
| `DirectAnswer.CleanAnswer` | tds_solver/api/views.py:104-108 | the returned answer (reply stripped, then extracted) is empty or has no surrounding whitespace; a blank reply gives the empty answer |
| `DirectAnswer.BlankReplyEmpty` | tds_solver/api/views.py:104-108 | a whitespace-only reply gives the empty answer |
| `FileContent.ProcessCsv` | tds_solver/api/views.py:74-80 | parsed rows are returned as they are; a parse failure becomes an error text that is "Error processing CSV: " followed by the exception's text |
| `FileContent.Dispatch` | tds_solver/api/views.py:47-54 | an archive exactly when the name ends in ".zip"; a CSV file exactly when it ends in ".csv" but not ".zip"; no handler otherwise |
| `FileContent.SuffixesExclusive` | tds_solver/api/views.py:49-51 | no name ends in both ".zip" and ".csv" |
| `FileContent.DispatchOrderIrrelevant` | tds_solver/api/views.py:49-51 | testing ".csv" before ".zip" would pick the same handler for every name |
| `FileContent.DispatchExamples` | tds_solver/api/views.py:47-54 | "a.csv.zip" is an archive, "a.zip.csv" a CSV file, "data.CSV" neither (the test is case-sensitive) |
| `FileContent.ZipResultsStep` | tds_solver/api/views.py:68-69 | visiting one more file stores its content under its name if the name ends in ".csv", and changes nothing otherwise |
| `FileContent.ZipResults` | tds_solver/api/views.py:64-69 | the dictionary the loops build, as a fold over the walked files in order; every key it holds ends in ".csv" |
| `FileContent.ZipKeys` | tds_solver/api/views.py:64-72 | the result's keys are exactly the walked base names ending in ".csv" |
| `FileContent.ZipLastWins` | tds_solver/api/views.py:65-69 | for the last walked file with a given CSV name, the result maps that name to that file's content |
| `FileContent.NonCsvEntryIgnored` | tds_solver/api/views.py:66-69 | a non-CSV file anywhere in the walk leaves the result as it would be without it |
| `FileContent.ProcessZip` | tds_solver/api/views.py:64-72 | the nested loops over directories and files compute the left-to-right fold `ZipResults` of the walked files |
| `FileContent.TwoCsvArchive` | tds_solver/api/views.py:64-72 | an archive holding "x.csv" and "y.csv" gives a map with exactly those keys, each holding its own file's content |
| `FileContent.ProcessFile` | tds_solver/api/views.py:47-54 | `None` exactly for unsupported names; for ".zip" exactly, the archive's whole map `ZipResults` of the walked files, keyed by exactly its CSV names (so `ZipLastWins` and `NonCsvEntryIgnored` apply to it); otherwise the CSV file's content |
| `Prompt.Truthy` | tds_solver/api/views.py:87 | `None`, an empty list of rows and an empty dictionary are false; a CSV error text is true |
| `Prompt.BuildPrompt` | tds_solver/api/views.py:85-88 | the prompt starts with the instruction, then the question verbatim; it is longer than that exactly when the content is truthy, and then the rest is the heading followed by the serialised content |
| `Prompt.QuestionRecoverable` | tds_solver/api/views.py:85 | with the same content, different questions give different prompts |
| `Prompt.CsvErrorSent` | tds_solver/api/views.py:80-88 | a CSV parse error is always truthy, so its text is always sent with the question |
| `Prompt.FileContentSentIff` | tds_solver/api/views.py:87-88 | an upload adds content to the prompt exactly when it is an archive holding a CSV file, or a CSV file that failed to parse or has a row; otherwise the prompt equals the one for no file |

## Left out

- `post`, `Response` and the Django routing are not modelled. Reading `question` and `file` from the request is framework I/O.
- `_save_temp_file` is not modelled. It writes the upload to a temporary directory, and only the resulting path's name matters to the model.
- The archive's extraction, the temporary directory and `os.walk` are abstracted. The model takes the walk's result as input: directories in walk order, each with its files' base names. Extraction errors (a corrupt archive), which propagate out of `_process_zip_file`, are not modelled.
- `pd.read_csv` and `to_dict(orient='records')` are abstracted as a `Parse` value. The model keeps each cell as text, so pandas' type inference, missing values and NaN are not modelled.
- `json.dumps` is a function parameter with no modelled properties. A serialisation error, which would propagate because line 88 is outside the `try`, is not modelled.
- The language-model call is not modelled: the API key, the model name, the system message, temperature and token limit. Its "Error generating answer: …" fallback is not modelled either. `DirectAnswer.CleanAnswer` models what happens to a successful reply.
- FileContent.Record, FileContent.Content and Prompt.BuildPrompt: a Dafny `map` has no order, but a Python dict keeps insertion order. The source's record columns follow the CSV header, and the archive's keys follow their first insertion in walk order. `json.dumps` writes that order into the prompt. Two walks that build the same map in a different order give different prompts in the source and the same prompt in the model.
- `Text.IsSpace`, `Text.Strip`, `Text.Lower`: ASCII only. Python's Unicode whitespace and Unicode case mapping are not modelled.
- `DirectAnswer.ExtractDirectAnswer`: the `question` argument is dropped, because the source never reads it.
- `FileContent.ProcessFile`: the "Add more file handlers" extension points hold no code and are not modelled.
