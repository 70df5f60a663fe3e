# Function-factor chart generation, modelled in Dafny

The repository drives a text-generation service to turn chart data into
plotting code. `run_pipeline` takes five inputs: a system prompt for the
design plan, a system prompt for the code, the chart data, a design
"factor" and an image name. It first asks the service for a design plan
built for the factor. It then makes up to `MAX_RETRIES` attempts to get
runnable code. Each attempt goes like this:

- it asks the service for code that follows the plan;
- it sanitises the reply with `clean_code_response`;
- it overwrites `generated_code/chart_code_<img>.py` with the result;
- it runs the script with the Python interpreter;
- it stops at the first exit status 0.

The sanitiser does three things:

- it deletes markdown fence markers (regular expression ``^```(?:python)?\n|```$``, multi-line mode);
- it strips surrounding whitespace;
- it puts a `savefig`/`write_image` line in front of every `plt.show()` or, failing that, every `fig.show()`.

`extract_gpt5_text` appears in the three driver scripts in identical
copies. It picks the assistant's text out of a decoded service reply and
turns every failure into a fixed string or an "Error parsing response: …"
string.

The project has one module per part of that core:

- `Wrappers` holds `Option`.
- `PyStr` holds the Python string operations the code relies on, written
  as functions, with the lemmas about them:
  - `isspace`/`strip`;
  - substring `in`;
  - non-overlapping `count`/`replace`, `split`/`join`;
  - `str(int)`.
- `Sanitiser` holds `clean_code_response`. The regular-expression
  substitution is a left-to-right scan, `Fences`, that tracks whether the
  current index starts a line of the original text.
- `Response` holds `extract_gpt5_text` over a JSON datatype with Python
  truthiness, `in`, subscripting, iteration and `.get`. Each exception the
  body can raise is a `PyError`, and the caught exception becomes the
  `ParseError` answer.
- `Prompts` holds the user prompts of `design_plan_factor` and
  `generate_chart`, with a parser that reads a design-plan prompt back.
- `Pipeline` holds `run_pipeline` as imperative code on the class
  `Driver`. Its fields model the world the script acts on:
  - `files`, the files the driver writes, as a map from path to contents;
  - `replies`, the service's answers, fixed in advance;
  - `exits`, the interpreter's exit statuses, fixed in advance;
  - ghost logs of every request sent and every script text run.

  `Attempts` is the specification of how many rounds the retry loop makes.

Three consequences of the code are worth stating outright:

- The sanitiser is not idempotent. A second pass adds a second save line
  (`Sanitiser.CleanNotIdempotent`).
- A retry sends exactly the same request as the first attempt. Nothing
  about the failed run, such as its error output, is passed back
  (`Pipeline.Driver.RunPipeline`).
- Every attempt overwrites the same script file, so only the last code
  run is left on disk.

## Model

| member | source | states |
|---|---|---|
| PyStr.IsSpace | code/generate-chart.py:138 | the characters a bare `strip()` removes (`str.isspace`): space and tab to carriage return among them, no visible ASCII character |
| PyStr.Strip | code/generate-chart.py:138 | `str.strip()`: the result neither starts nor ends with whitespace; `PyStr.StripFrame` and `PyStr.StripTrimmed` give the rest |
| PyStr.Contains | code/generate-chart.py:141 | Python's `p in s`: `p` occurs at some index of `s`; tied to the count by `PyStr.CountPositiveIffContains` |
| PyStr.Count | code/generate-chart.py:141-147 | non-overlapping occurrences, scanned from the left; never more than the text's length |
| PyStr.CountBound | code/generate-chart.py:141-147 | the counted occurrences fit side by side in the text |
| PyStr.Replace | code/generate-chart.py:142-151 | `str.replace`: every non-overlapping occurrence, leftmost first, becomes the replacement; its properties are in the `Replace…` and `Split…` rows |
| PyStr.Split | code/generate-chart.py:142-151 | `str.split(p)`, always at least one piece; the independent reference `Replace` is checked against (`PyStr.ReplaceIsJoinOfSplit`) |
| PyStr.Join | code/generate-chart.py:142-151 | `sep.join(pieces)`; the partner of `Split` in `PyStr.SplitJoinRoundTrip` |
| PyStr.IntToString | code/generate-chart.py:64 | `str(i)` as the f-string writes it: non-empty, a leading `-` exactly for negative numbers, digits only otherwise; read back by `Prompts.DesignPlanPromptRoundTrip` |
| PyStr.StripFrame | code/generate-chart.py:137-138 | `strip()` returns a contiguous middle part of its input; everything before and after that part is whitespace |
| PyStr.StripTrimmed | code/generate-chart.py:138 | stripping text that neither starts nor ends with whitespace returns it unchanged |
| PyStr.CountPositiveIffContains | code/generate-chart.py:141-147 | the pattern occurs at least once exactly when the substring test `in` holds |
| PyStr.ReplaceAbsent | code/generate-chart.py:142-151 | `replace` of a pattern that does not occur returns the text unchanged |
| PyStr.ReplaceLength | code/generate-chart.py:142-151 | after `replace`, the length changes by the number of non-overlapping occurrences times the length difference between replacement and pattern |
| PyStr.ReplaceIsJoinOfSplit | code/generate-chart.py:142-151 | `replace(p, n)` equals `n.join(split(p))` |
| PyStr.SplitCount | code/generate-chart.py:142-151 | `split(p)` gives one more piece than there are occurrences of `p` |
| PyStr.SplitJoinRoundTrip | code/generate-chart.py:142-151 | joining the pieces of `split(p)` with `p` gives back the text |
| PyStr.SplitPiecesAvoid | code/generate-chart.py:142-151 | no piece of `split(p)` contains `p` |
| PyStr.ReplaceSelf | code/generate-chart.py:142-151 | replacing a pattern by itself changes nothing |
| PyStr.ReplaceKeepsTrimmed | code/generate-chart.py:142-151 | replacing by text without surrounding whitespace keeps a trimmed text trimmed |
| PyStr.NatToStringRoundTrip | code/generate-chart.py:64 | the decimal digits `str(n)` writes evaluate back to `n` |
| Sanitiser.PltSave | code/generate-chart.py:144 | the matplotlib save call holds the image name verbatim between the fixed `plt.savefig("generated_images/design_` head and the `.png", dpi=300, bbox_inches="tight")` tail |
| Sanitiser.FigSave | code/generate-chart.py:150 | the plotly save call holds the image name verbatim between the fixed `fig.write_image("generated_images/design_` head and the `.png")` tail |
| Sanitiser.FenceMatch | code/generate-chart.py:137 | one match of the fence pattern has length 0, 3, 4 or 10 and consists of backticks, `python` letters and a newline. At a line start, the first alternative wins: ```` ```python ```` and a newline match as 10 characters, and ```` ``` ```` with a newline matches as 4, so the newline goes too. Elsewhere a match is 3 backticks before a newline or the end of the text |
| Sanitiser.FenceMatchAnchors | code/generate-chart.py:137 | three backticks are a marker exactly when they end the text or a line, or open a line followed by `python` and a newline |
| Sanitiser.MatchLenAnchors | code/generate-chart.py:137 | the same anchors at any index of the reply, with the line start judged on the original text: where a marker can start |
| Sanitiser.Fences | code/generate-chart.py:137 | the `re.sub` scan never lengthens the text. `Sanitiser.FencesKeepPrefix` and `Sanitiser.FencesDropMarker` give its output marker by marker |
| Sanitiser.RemoveFences | code/generate-chart.py:137 | the substitution on a whole reply, which starts at a line start; never longer than the reply |
| Sanitiser.FenceStripped | code/generate-chart.py:137-138 | substitution then `strip()`: trimmed and never longer than the reply |
| Sanitiser.FencesKeepPrefix | code/generate-chart.py:137 | text before the first fence marker comes through the substitution unchanged |
| Sanitiser.FencesDropMarker | code/generate-chart.py:137 | at the first marker the scan keeps the text before it, deletes exactly that match and goes on after it. It judges the next line start on the original text, not on the text left after deletion |
| Sanitiser.FencesShrinkOnMatch | code/generate-chart.py:137 | a reply holding any fence marker gets strictly shorter |
| Sanitiser.FencesNoOpIff | code/generate-chart.py:137 | the substitution leaves a reply unchanged exactly when no fence marker matches anywhere in it |
| Sanitiser.FencesKeepOtherChars | code/generate-chart.py:137 | every character other than a backtick, a newline or a letter of `python` occurs as often after the substitution as before |
| Sanitiser.NoBacktickNoFence | code/generate-chart.py:137 | a reply without backticks passes the substitution unchanged |
| Sanitiser.FencedBlockBody | code/generate-chart.py:137-138 | a reply that is one fenced python block around a trimmed body with no marker of its own comes out as exactly that body |
| Sanitiser.CleanCodeResponse | code/generate-chart.py:135-153 | the sanitised code never starts or ends with whitespace |
| Sanitiser.CleanNoIdiom | code/generate-chart.py:140-153 | the sanitiser returns the fence-stripped text unchanged exactly when it contains neither `plt.show()` nor `fig.show()` |
| Sanitiser.InsertionLengthens | code/generate-chart.py:142-151 | inserting a line before a pattern that occurs makes the text longer |
| Sanitiser.InsertionShape | code/generate-chart.py:142-151 | an insertion cuts the text at its occurrences into pattern-free pieces and joins them with the save line plus the pattern, lengthening it by one line per occurrence |
| Sanitiser.CleanMatplotlib | code/generate-chart.py:140-145 | with `plt.show()` present, the `savefig` line for the image is inserted before each of its occurrences and nothing else changes, even when `fig.show()` is present too |
| Sanitiser.CleanPlotly | code/generate-chart.py:146-151 | only when `plt.show()` is absent and `fig.show()` is present, the `write_image` line is inserted before each `fig.show()` |
| Sanitiser.CleanBarePltShow | code/generate-chart.py:141-145 | a bare `plt.show()` becomes the `savefig` line followed by `plt.show()` |
| Sanitiser.CleanNotIdempotent | code/generate-chart.py:135-153 | sanitising the sanitiser's own output of `plt.show()` adds a second `savefig` line, so it is not a fixed point |
| Sanitiser.CleanOutputNotFixed | code/generate-chart.py:135-153 | for every image name without backticks, sanitising the output for a bare `plt.show()` changes it again |
| Response.Lookup | code/design-chart.py:43 | a dict lookup finds a value exactly when the key is present |
| Response.LookupFirst | code/design-chart.py:43-56 | the value found is the one stored under the key |
| Response.Get | code/design-chart.py:46-52 | `.get(key)` on a dict: the value stored under the key when it is present, `None` when it is missing |
| Response.TypeName | code/design-chart.py:57-58 | the non-empty, letters-only type name that `str(e)` shows for each kind of value |
| Response.TypeNameDistinct | code/design-chart.py:57-58 | two values show the same type name exactly when they are of the same kind |
| Response.Truthy | code/design-chart.py:43-53 | Python's `bool(x)` for each kind of value; used by `Response.ExtractInvalidFormat` and `Response.ExtractNoMessageBlock` |
| Response.In | code/design-chart.py:43 | `"output" in x` for dicts, lists and strings; `TypeError` for other values |
| Response.Subscript | code/design-chart.py:46-56 | `x["key"]` succeeds exactly on a dict that holds the key |
| Response.Iterate | code/design-chart.py:46-52 | what `for … in x` visits: list items, dict keys or one-character strings; `TypeError` for other values |
| Response.Keeps | code/design-chart.py:46-52 | the two comprehension conditions, `type == "message"` with truthy content and `type == "output_text"` |
| Response.Select | code/design-chart.py:46-52 | a comprehension never yields more elements than it scans |
| Response.SelectKeeps | code/design-chart.py:46-52 | every element a comprehension yields meets its condition |
| Response.Message | code/design-chart.py:57-58 | `str(e)` for each exception the body can raise; used by `Response.ExtractMissingText` and `Response.ExtractNonDictItem` |
| Response.Render | code/design-chart.py:44-58 | the string returned for each kind of answer |
| Response.ExtractText | code/design-chart.py:38-58 | `extract_gpt5_text`: a text answer is always stripped; the extraction lemmas below give each answer exactly |
| Response.FirstOutputText | code/design-chart.py:51-56 | looking inside the first message block: a text answer is stripped, and the block never gives the invalid-format or no-message answer |
| Response.SelectEmpty | code/design-chart.py:46-47 | over a list of dicts, the comprehension does not raise, and it is empty exactly when no element meets its condition |
| Response.SelectFirst | code/design-chart.py:46-52 | over dicts, the first kept element is the first one that meets the condition |
| Response.SelectRaises | code/design-chart.py:46-47 | the first non-dict element makes the comprehension raise `AttributeError` on `get`, even after kept elements |
| Response.ExtractInvalidFormat | code/design-chart.py:43-44 | a falsy result gives "Invalid response format."; for a dict, that answer comes exactly when "output" is missing |
| Response.ExtractNoMessageBlock | code/design-chart.py:46-49 | for an output list of dicts, "No message block found in response." comes exactly when no item is a "message" with truthy content |
| Response.ExtractNoOutputText | code/design-chart.py:51-54 | only the first message block counts; "No output_text found in response." comes exactly when none of its content items has type "output_text" |
| Response.FirstBlockAnswer | code/generate-chart.py:48-58 | the answer is decided by the first message block alone |
| Response.ExtractFound | code/design-chart.py:56 | on success the answer is the stripped "text" of the first "output_text" item of the first message block |
| Response.ContentAnswer | code/extract-data.py:51-56 | inside a block whose content is a list of dicts, the answer comes from the first "output_text" item |
| Response.ExtractMissingText | code/extract-data.py:56-58 | a first "output_text" item without a "text" key gives "Error parsing response: 'text'" |
| Response.ExtractNonDictItem | code/extract-data.py:46-47 | an output item that is not a dict gives "Error parsing response: '<type>' object has no attribute 'get'" |
| Prompts.DesignPlanPrompt | code/generate-chart.py:64 | the design-plan user prompt; `Prompts.DesignPlanPromptRoundTrip` and `Prompts.DesignPlanPromptInjective` state what it determines |
| Prompts.ChartPrompt | code/generate-chart.py:124-130 | the chart user prompt, indentation included; `Prompts.ChartPromptEmbeds` and `Prompts.ChartPromptInjective` state what it determines |
| Prompts.DigitRun | code/generate-chart.py:64 | the digit run read at the start of a text is all digits and as long as possible |
| Prompts.DesignPlanPromptRoundTrip | code/generate-chart.py:63-64 | the design-plan prompt can be parsed back into the factor and the chart data it was built from |
| Prompts.DesignPlanPromptInjective | code/design-chart.py:61-62 | different factors or different chart data never give the same design-plan prompt |
| Prompts.ChartPromptEmbeds | code/generate-chart.py:124-130 | the chart prompt holds the plan verbatim right after the fixed instruction and the data right after the fixed "Here is the chart data." line |
| Prompts.ChartPromptInjective | code/generate-chart.py:124-130 | for a fixed plan the chart prompt determines the data, and for fixed data the plan |
| Pipeline.CodePath | code/generate-chart.py:177 | the script path is `generated_code/chart_code_`, then the image name verbatim, then `.py` |
| Pipeline.AttemptsFrom | code/generate-chart.py:169-190 | from attempt `k + 1` on, the loop ends after at least one more and at most `MAX_RETRIES` attempts in all, on a success or at the budget |
| Pipeline.Attempts | code/generate-chart.py:169-190 | the loop makes 1 to `MAX_RETRIES` attempts |
| Pipeline.AttemptsFacts | code/generate-chart.py:169-190 | with `MAX_RETRIES` set to 3 (line 8): the loop makes 1 to `MAX_RETRIES` attempts; every attempt before the last fails; the last succeeds unless the budget is spent |
| Pipeline.AttemptsUnique | code/generate-chart.py:169-190 | those facts pin the attempt count down uniquely |
| Pipeline.SuccessIsLastAttempt | code/generate-chart.py:188-190 | the run succeeded exactly when its last attempt exited with 0; a run that never succeeds makes all `MAX_RETRIES` attempts |
| Pipeline.Repeat | code/generate-chart.py:172-173 | the repeated request list has the asked length and every element is the request |
| Pipeline.CleanedSnoc | code/generate-chart.py:174 | after one more attempt, every code that was run is still the sanitised form of its reply |
| Pipeline.Driver.constructor | code/generate-chart.py:156 | a fresh driver starts from the given files and oracle answers, with nothing requested or run |
| Pipeline.Driver.CallService | code/generate-chart.py:11-37 | one service call consumes the next reply, logs the request and touches nothing else |
| Pipeline.Driver.DesignPlanFactor | code/generate-chart.py:63-66 | the design plan is the service's next reply to the design-plan prompt |
| Pipeline.Driver.GenerateChart | code/generate-chart.py:124-132 | the code reply is the service's next reply to the chart prompt |
| Pipeline.Driver.WriteFile | code/generate-chart.py:179-180 | writing a file replaces its contents and changes no other path |
| Pipeline.Driver.RunScript | code/generate-chart.py:181-185 | running the script runs its current text and returns the next exit status |
| Pipeline.Driver.Attempt | code/generate-chart.py:172-185 | one attempt asks with the chart prompt, writes the sanitised reply to the script path, and runs exactly that text |
| Pipeline.Driver.RetryChart | code/generate-chart.py:169-190 | the loop makes `Attempts(exits)` attempts; each sends the same request and runs the sanitised form of its reply; the script file ends with the last code run |
| Pipeline.Driver.RunPipeline | code/generate-chart.py:156-201 | the plan is requested once, then all attempts reuse it; the number of attempts, the requests sent, the codes run, which answers are used and the final script file are all determined |

## Left out

- The OpenAI client, the image upload in `call_gpt5mini` and `call_gpt5`, and the HTTP exchange are not modelled. The service is the `replies` oracle, and a failing call (an exception out of the client) is not modelled.
- The interpreter run (`subprocess.run`) is the `exits` oracle. Its stdout and stderr are only printed, so they are not modelled.
- `time.time`, every `print` and the elapsed-time report are not modelled; they affect no state.
- The `__main__` blocks and the prompt texts and data they pass in are not modelled. Neither are the scripts under `generated/` and `generated_code/`.
- `design-chart.py` is represented only by its copies of `extract_gpt5_text` and `design_plan_factor`, and `extract-data.py` only by its copy of `extract_gpt5_text`. These copies have the same text as the ones in `generate-chart.py`, except that `design-chart.py` calls `call_gpt5` instead of `call_gpt5mini`.
- JSON floats are not modelled: numbers are integers.
- A dict is a list of entries. A Python dict never holds a key twice, so the entry lists are meant to have distinct keys. For a list that repeats a key, `Response.Lookup` takes the first entry, whereas `json.loads` keeps the last value.
- Exception messages follow the wording of CPython 3.11 to 3.13. That wording is part of the returned "Error parsing response: " string. Other versions word some messages differently: CPython 3.14, for one, renders the `in` TypeError as "argument of type 'int' is not a container or iterable", not as the "… is not iterable" of `Response.Message`'s `NotContainer` case.
- PyStr.IntToString: is total. CPython 3.11+ refuses to convert an int of more than 4300 digits to text and raises `ValueError` there. So `design_plan_factor` raises for such a factor, while `Prompts.DesignPlanPrompt` and `Prompts.DesignPlanPromptRoundTrip` cover every int.
- Pipeline.Driver.WriteFile: always succeeds and stores the text exactly. In the source, opening and writing the file can raise: the directory `generated_code/` may be missing or not writable, or `f.write` may hit a `UnicodeEncodeError` under a non-UTF-8 locale. Any such I/O or encoding error aborts `run_pipeline`. Text mode also turns `\n` into the platform's line ending, for example on Windows. The model covers none of these errors or translations.
- Pipeline.Driver.RunScript: leaves `files` unchanged. `files` holds only what `run_pipeline` itself writes, so the generated script's own effects are not modelled. These include the image that the inserted `savefig`/`write_image` line saves under `generated_images/`, and any other file or package the script writes or installs.
- Pipeline.Driver.RunScript: always terminates with a status. `subprocess.run` has no timeout, so a generated script that never exits hangs the real loop forever.
- Pipeline.Driver.RunScript: always yields an exit status. `subprocess.run` raises when no `python` executable is found, and that aborts `run_pipeline`. The model has no such failure.
- Pipeline.Driver.RunPipeline: requires the oracles to hold at least `MAX_RETRIES + 1` replies and `MAX_RETRIES` exit statuses. The real script simply blocks on the service. Unused answers are returned in `replies` and `exits`.
- Pipeline.Driver.RetryChart: likewise requires `MAX_RETRIES` pending replies and exit statuses.
- Pipeline.Driver.RunScript: requires the script file to exist. The model has no "file not found" interpreter error, but the pipeline always writes the file first.
- Pipeline.Driver.RetryChart: the codes that were run come back as a ghost result, because the Python function returns nothing.
