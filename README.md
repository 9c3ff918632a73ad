# diagramGPT reply handling, in Dafny

diagramGPT is a Streamlit page. It sends a free-text infrastructure request to
a hosted language model. It takes the Python code out of the model's reply
and runs that code to draw an architecture diagram. This project models the
part of `app.py` with its own logic:

- **Prose extraction** (`extract_main_content`). This is the text before the
  first "```python" marker, stripped, or `None` when that text is blank. When
  the reply has no marker, the whole reply comes back unstripped. The
  function is modelled as written, but nothing in `app.py` calls it:
  `main_page` never shows the prose.
- **Code extraction** (`extract_diagram_code`). The code is the stripped text
  between the first "```python" and the first "```" found from one character
  past that marker's start. Two different cases return `None`: the marker is
  missing, or the block is never closed. The model keeps them apart as
  `NoDiagramPart` and `NoClosingFence`. `AsPython` maps both back to `None`.
- **The page step** (`main_page` and the session-state block). A session holds
  the last `response` and the `current_code` extracted from it. Both start as
  `None`, and a click overwrites both. Whenever code is held, every
  `st.image("diagram_temp.png")` and then every `st.image('diagram_temp.png')`
  is deleted from it. The code is then handed to `exec`.

Modules:

- `PyText` (pytext.dfy) holds the Python `str` operations the page uses.
  `Find` is `str.find(sub, start)`. `Strip` is `str.strip()`. `RemoveAll` is
  `str.replace(old, "")`.
- `Reply` (reply.dfy) holds the two extractors and their properties.
- `Page` (page.dfy) holds the sanitiser and the `Session` class. The class
  has the two session fields, with `Click` and `Run` methods.
- `Wrappers` (wrappers.dfy) holds `Option`.

`strip()` uses the characters Python's `str.isspace()` accepts:

- TAB to CR
- FS to US
- SPACE
- U+0085 and U+00A0
- U+1680
- U+2000 to U+200A
- U+2028, U+2029, U+202F, U+205F and U+3000

## Model

| member | source | states |
|---|---|---|
| PyText.IsSpace | app.py:158 | the definition of the whitespace `str.strip()` removes at lines 158 and 175: Python's `str.isspace()` set listed above; `Strip`, `StripCharacterised` and `StripIdempotent` are stated in terms of it |
| PyText.Find | app.py:169-172 | `str.find(pat, start)`: -1 exactly when no occurrence starts at or after `start`; otherwise an index at or after `start` where `pat` occurs, with no occurrence between `start` and it |
| PyText.Strip | app.py:158 | `str.strip()`: the result has no whitespace at either end and sits in the input with only whitespace before and after it |
| PyText.StripCharacterised | app.py:175 | any string that sits in `s` between whitespace and has no whitespace at its own ends is `strip(s)`, so Strip's contract determines it |
| PyText.StripIdempotent | app.py:175 | stripping an already stripped string changes nothing |
| PyText.RemoveAll | app.py:211 | `str.replace(pat, "")`: never longer than the input; the input itself when `pat` does not occur; at least one `pat` shorter when it does |
| Reply.ExtractMainContent | app.py:152-164 | the definition of `extract_main_content`; characterised by `MainContentWholeIffUnmarked`, `MainContentAtFirstMarker` and `MainContentIgnoresRest` |
| Reply.ExtractDiagramCode | app.py:166-181 | the definition of `extract_diagram_code`, with the two `None` cases kept apart; characterised by `NoDiagramPartIffUnmarked`, `NoClosingFenceIffUnterminated`, `CodeBetweenMarkers`, `CodeIsTrimmedInfix` and `CodeIgnoresRest` |
| Reply.Notice | app.py:176-180 | the message written for each failure: "There is no DIAGRAM part" when the marker is missing, "There is no Python code in DIAGRAM part." when the block is unclosed; a message is written exactly when no code is returned |
| Reply.AsPython | app.py:176-181 | both failure results become `None`; code `c` becomes `c` |
| Reply.MainContentWholeIffUnmarked | app.py:155-164 | the prose is the whole, unstripped reply exactly when "```python" does not occur in it |
| Reply.MainContentAtFirstMarker | app.py:155-162 | with the first "```python" at `i`, the prose is `None` exactly when `text[..i]` is all whitespace, and otherwise it is `strip(text[..i])` |
| Reply.MainContentIgnoresRest | app.py:155-162 | any two replies that agree up to the end of the first "```python" give the same prose, so later markers have no effect |
| Reply.NoDiagramPartIffUnmarked | app.py:169-181 | "no DIAGRAM part" exactly when "```python" does not occur |
| Reply.NoClosingFenceIffUnterminated | app.py:172-178 | with the first "```python" at `codeStart`, the result is "no Python code" exactly when no "```" starts after `codeStart` |
| Reply.CodeBetweenMarkers | app.py:169-176 | with the first "```python" at `codeStart` and the first "```" after it at `codeEnd`, the code is `strip(text[codeStart+9..codeEnd])`, and `codeStart+9 <= codeEnd` |
| Reply.FenceNotInsideMarker | app.py:172-175 | no "```" starts strictly inside a "```python" marker |
| Reply.ClosingFenceAfterMarker | app.py:172-175 | a successful closing search from `codeStart+1` stops at or after `codeStart+9`, so the slice at line 175 is never reversed |
| Reply.CodeIsTrimmedInfix | app.py:175-176 | returned code has no whitespace at either end, occurs as a contiguous piece of the reply, and contains no "```"; it may be empty |
| Reply.BlockBodyIsTrimmedInfix | app.py:175 | the same facts, stated on the two marker positions |
| Reply.CodeIgnoresRest | app.py:169-176 | any two replies that agree up to the end of the closing fence give the same code, so a second block is ignored |
| Reply.WholeProseIffNoDiagramPart | app.py:152-181 | the prose is the whole reply exactly when the code result is "no DIAGRAM part" |
| Reply.ReplyWithOneBlock | app.py:152-176 | for backtick-free prose, one block with a backtick-free body, then anything: the code is the stripped body, and the prose is the stripped prose or `None` when that is blank |
| Reply.OneBlockMarkers | app.py:169-172 | in such a reply the first marker stands right after the prose, and the first fence stands right after the body |
| Reply.UnterminatedBlock | app.py:172-178 | backtick-free prose, the marker, then backtick-free text gives "no Python code" |
| Reply.ReplyWithoutBlock | app.py:155-180 | a reply with no backtick gives "no DIAGRAM part" and is all prose |
| Reply.ExampleProseAndCode | app.py:152-176 | `"Here is your diagram:\n```python\nprint(1)\n```\nDone."` gives code `print(1)` and prose `Here is your diagram:` |
| Reply.ExamplesWithoutCode | app.py:166-181 | `"```python\nx=1\n"` gives "no Python code"; `"Just an explanation, no code."` gives "no DIAGRAM part" and is returned whole as prose |
| Page.Sanitised | app.py:210-211 | the sanitised code is never longer than the input, and it equals the input exactly when neither `st.image` call occurs in it |
| Page.SanitisedMayKeepCall | app.py:210-211 | deleting one call can splice a new `st.image("diagram_temp.png")` together, so a call may remain |
| Page.RemoveAllKeepsClearPrefix | app.py:211 | a prefix in which no occurrence starts passes through `replace` unchanged |
| Page.Session.constructor | app.py:139-142 | the first run of the script sets `response` and `current_code` to `None` |
| Page.FirstRun | app.py:139-142 | the first run is the constructor followed by `main_page` with the button unclicked (lines 222-223): no notice is written and nothing reaches `exec` |
| Page.Session.Click | app.py:201-205 | a click stores the reply as `response` and its extracted code as `current_code`; the notice is the message written when no code was found; the session invariant holds |
| Page.Session.CodeToRun | app.py:207-214 | `exec` is attempted exactly when `current_code` is not `None`, and then on the sanitised code |
| Page.Session.Run | app.py:200-214 | a run of `main_page` with a click behaves as Click; a run without one leaves both fields unchanged; then the code is handed to `exec` as CodeToRun states |
| Page.ExampleSession | app.py:201-214 | a fresh session clicked with the worked reply shows no notice and hands `print(1)` to `exec` |

## Left out

- Streamlit page chrome is not modelled. This covers `set_page_config`, the header, the text area, the button, the spinner, the `st.image` and `st.error` rendering, and the unused `btn_settings_editor_btns` list (app.py:9, 184-200, 217-219). The button's result is the `clicked` parameter of `Session.Run`.
- The messages written by `st.write` at lines 178 and 180 are returned as `Notice` values rather than rendered.
- Azure OpenAI configuration and `chain.invoke` are not modelled. This covers the secrets, the `AzureChatOpenAI` retry and timeout settings, and `invoke` (app.py:12-32, 136, 147-150). They are network calls into foreign libraries, so the model's reply is the `reply` parameter of `Click` and `Run`.
- A failing `invoke` is not modelled. When it raises at app.py:203 after its retries, the run aborts before lines 204-205 and 207-219, so both session fields keep their values and nothing reaches `exec`; `Run(true, reply)` always receives a reply and overwrites both fields.
- The prompt template (app.py:37-127) is not modelled. It is a constant whose placeholders are filled inside LangChain.
- Reading `aws.knowledge` and `azure.knowledge` (app.py:130-134) is not modelled, because it is file I/O.
- `exec(code)`, the image file it writes, and the `try`/`except` around it (app.py:209-219) are not modelled. The model stops at the sanitised string handed to `exec`.
- The debug `print` (app.py:168) is not modelled.
- `Session` starts at the first run of the script, where lines 139-142 set both keys; that run then calls `main_page` with the button unclicked, which is `Run(false, _)` on the new session (`FirstRun`). On later runs both keys exist, so those guards do nothing, and each run is one `Session.Run`.
- Concurrent clicks in one session are not modelled.
- `PyText.Find` takes `start >= 0` only. Python's negative `start` never occurs here.
- `PyText.RemoveAll` takes a non-empty pattern only. Both `st.image` literals are non-empty.
- PyText.RemoveAll: its contract does not state the exact left-to-right deletion of non-overlapping occurrences. That is its definition. The contract states only the identity, length and shrinking facts the page relies on.
- Whitespace is a fixed character set, with no Unicode database. It is listed above.
