# Analytics notebook web front end: request-handler logic

This project models the decision logic inside the request handlers of the
analytics notebook web application (`web/wsgi_app.py`). Users upload data
objects and notebooks, add and edit notebook lines, and download a notebook
as a runnable Python script. Four pieces of those handlers decide something
on their own. Each is written here as a pure Dafny function over strings and
sequences, with its properties proved:

- **Notebook download** (`Export`): the preamble text plus the notebook's
  lines become one script text. Every preamble piece is written with a
  trailing newline, so the script starts with the preamble and one newline.
  Each notebook line gets a newline and loses every tab character. One more
  newline (a blank line) follows unless the tab-free line starts with a
  space.
- **Adding a line** (`NotebookEdits.AddItem`): an empty command continues the
  previous line with a bare newline. A command typed while the notebook's
  `white_space` is non-empty continues the previous line with
  `'\n' + cmd`. Any other command starts a new line.
- **Editing a line** (`NotebookEdits.EditItem`): when the `save` query
  parameter holds anything but whitespace, `update_line` is called on the line
  with the stripped `cmd` parameter and the document's default `replace`. Otherwise the stored source of the line is
  returned and nothing changes.
- **Uploads** (`Uploads`): the extension test is Python's `in` on strings,
  which is a substring test. So `.json`, `.js`, `.` and the empty extension
  all pass the data filter, and `.py`, `.p`, `.` and the empty extension pass
  the notebook filter. An accepted notebook file is cut into lines with
  `split('\n')`. A refused upload returns the message
  `File extension not supported.` and reaches no store.

The notebook document (`analytics.notebooks`) is not part of this model. Its
operations are not interpreted. `update_line` and `add_line` appear only as
the `Action` value a handler returns. `white_space`, `src`, `get_lines()`
and `PRELOAD` come in as parameters. The Python 2 string operations the
handlers use (`split`, `replace(c, '')`, `strip`, `in`) are modelled in
`PyStrings`, each with lemmas that pin it down apart from its definition.
No handler calls `join`. `PyStrings.Join` is modelled only as the inverse of
`split`, for the round-trip lemmas.

Files:
- `pystrings.dfy`: module `PyStrings`, the Python string primitives.
- `export.dfy`: module `Export`, the download.
- `edits.dfy`: module `NotebookEdits`, the add and edit handlers.
- `uploads.dfy`: module `Uploads`, the two upload handlers.

In the export, a line is followed by a blank line unless its tab-free text
starts with a space (`web/wsgi_app.py` lines 266-267). Whether the line
continues an earlier one plays no part.

## Model

| member | source | states |
|---|---|---|
| `PyStrings.JoinSplit` | web/wsgi_app.py:176 | Joining the pieces of `content.split('\n')` with `'\n'` gives the uploaded content back |
| `PyStrings.SplitJoin` | web/wsgi_app.py:176 | Splitting a join of newline-free pieces gives back those pieces, so the split is the only newline-free cutting of the text |
| `PyStrings.Split` | web/wsgi_app.py:176 | `split('\n')` yields exactly one more piece than the text has newlines, so the empty text gives one empty line |
| `PyStrings.SplitPiecesSeparatorFree` | web/wsgi_app.py:176 | No piece of the split contains a newline |
| `PyStrings.Delete` | web/wsgi_app.py:265 | `replace('\t', '')` leaves no tab, and shortens the text by exactly its number of tabs |
| `PyStrings.DeleteAppend` | web/wsgi_app.py:264-265 | Deleting tabs from a concatenation deletes them from each part, so deleting after appending the newline equals appending after deleting |
| `PyStrings.DeleteKeepsOthers` | web/wsgi_app.py:265 | Every character other than the tab occurs in the result exactly as often as in the line |
| `PyStrings.DeleteAbsent` | web/wsgi_app.py:265 | A line without tabs is written unchanged |
| `PyStrings.Strip` | web/wsgi_app.py:232-233 | `strip()` returns a contiguous piece of its input with only whitespace cut off on both sides and no whitespace left at either end |
| `PyStrings.StripBlankIff` | web/wsgi_app.py:232 | The stripped `save` value is empty exactly when the value is all whitespace |
| `PyStrings.StripIdempotent` | web/wsgi_app.py:233 | Stripping the saved command again would change nothing |
| `PyStrings.IsSubstringIff` | web/wsgi_app.py:123 | `ext in allowed` holds exactly when `ext` occurs at some offset of `allowed` |
| `PyStrings.IsSubstring` | web/wsgi_app.py:123 | Python's `in`: the empty extension and the allowed extension itself always pass, and a passing extension is never longer than the allowed one |
| `Export.Chunk` | web/wsgi_app.py:263-268 | A notebook line is written tab-free and followed by a newline, and by a second newline exactly when its tab-free text does not start with a space; an empty line becomes two newlines |
| `Export.ChunkKeepsText` | web/wsgi_app.py:264-265 | A written line keeps every character of the notebook line other than tabs and newlines, each as often |
| `Export.TerminatedIsJoin` | web/wsgi_app.py:261-262 | Writing each preamble piece with a newline is joining the pieces and adding one newline |
| `Export.Preamble` | web/wsgi_app.py:261-262 | The written preamble is the preamble text followed by one newline |
| `Export.Terminated` | web/wsgi_app.py:261-262 | The preamble loop writes nothing for no pieces, and otherwise the pieces joined by newlines followed by one newline |
| `Export.Body` | web/wsgi_app.py:263-268 | The line loop writes nothing for no lines, and its output never holds a tab |
| `Export.Export` | web/wsgi_app.py:258-273 | The download is the preamble, one newline, then the written lines, with no tab after the preamble |
| `Export.BodyTabFree` | web/wsgi_app.py:265 | No tab survives anywhere in the written lines |
| `Export.ConcatMapAppend` | web/wsgi_app.py:263-268 | Writing lines one after another concatenates their outputs, so nothing is dropped, merged or reordered |
| `Export.BodyAppend` | web/wsgi_app.py:263-268 | The written text of two line lists in a row is the two written texts in a row |
| `Export.ChunkInPlace` | web/wsgi_app.py:263-268 | Line `i` is written as exactly its own chunk, after the chunks of every earlier line and before those of every later one |
| `Export.Download` | web/wsgi_app.py:252-273 | The two write loops of the handler produce the preamble, a newline and the written lines, equal to `Export` |
| `NotebookEdits.AddItem` | web/wsgi_app.py:204-219 | A new line is added exactly when the command is non-empty and the whitespace is empty, and then holds the command unchanged; every other request continues line `old_id` with a newline followed by the command, with `replace` false |
| `NotebookEdits.EmptyCommandContinues` | web/wsgi_app.py:214-215 | An empty command always continues the previous line with a bare newline, whatever the whitespace |
| `NotebookEdits.EditItem` | web/wsgi_app.py:230-238 | `update_line` is called on the line exactly when `save` holds a non-whitespace character, with the stripped `cmd` and the document's default `replace`; otherwise the stored source is returned unchanged, or the lookup fails for an unknown line |
| `Uploads.CreateDataSource` | web/wsgi_app.py:116-127 | A data file is stored exactly when its extension occurs in `.json`, with its content unchanged; otherwise the message is returned and nothing is stored; no file raises |
| `Uploads.CreateNotebookFrom` | web/wsgi_app.py:161-178 | No file gives an empty notebook; a file is accepted exactly when its extension occurs in `.py`, and its lines are newline-free, one more than its newlines, and join back to the file |
| `Uploads.DottedExtensionAccepted` | web/wsgi_app.py:122-123 | For an extension that is empty or starts with a dot, the substring test accepts exactly the leading parts of the allowed extension |
| `Uploads.DataExtensionsAccepted` | web/wsgi_app.py:122-124 | The data filter accepts exactly the empty extension, `.`, `.j`, `.js`, `.jso` and `.json` |
| `Uploads.NotebookExtensionsAccepted` | web/wsgi_app.py:172-174 | The notebook filter accepts exactly the empty extension, `.`, `.p` and `.py` |

## Left out

- HTTP routing, page templates, static files, redirects, response headers
  and the credential headers (`web/wsgi_app.py` lines 46-103, 269-272,
  287-295): these are request and response I/O with no decision in them.
- The list, retrieve, remove and delete handlers (`web/wsgi_app.py` lines
  107-114, 129-159, 181-202, 240-250): each passes its arguments straight to a store
  and decides nothing.
- The notebook document and its store (`analytics/notebooks.py`) and the
  execution node (`analytics/exec_node.py`) are not part of this model. What
  `update_line`, `add_line`, `remove_line`, `white_space`, `src`,
  `get_lines()` and `PRELOAD` do or hold is unknown here, so they are
  parameters or returned `Action` values. The stale and continuation
  bookkeeping and the execution pipeline live there too.
- The object store (`data/object_store.py`) passes each call straight to the
  database driver. The process launcher (`bin/run_exec.py`) and the
  packaging file (`setup.py`) hold no handler logic.
- `os.path.splitext` and `StringIO`: the extension is taken as given, and
  the output buffer is a string built by concatenation.
- The tenant credentials and the notebook identifier that the handlers pass
  to the stores unchanged are left out of the returned store calls and
  actions.
- NotebookEdits.AddItem: takes the `cmd` form field as given. The source's
  `forms['cmd']` raises when the field is missing, and that failure is not
  modelled.
- NotebookEdits.QueryGet: bottle's `GET.get(key, '')` (`web/wsgi_app.py`
  lines 232-233) is modelled as a lookup with a default in a map holding one
  value per key. A repeated query parameter is not modelled; bottle's
  MultiDict returns its last value.
- NotebookEdits.EditItem: models `src` as a map from line id to source text.
  The lookup fails for a missing id, as a Python dict lookup does. Any other
  container behaviour of the document's `src` is not modelled.
- Python 2 byte strings versus unicode strings: characters are Dafny `char`,
  and `strip()` removes the six ASCII whitespace characters that Python 2's
  `str.strip()` removes.
