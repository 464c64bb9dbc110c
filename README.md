# Troubleshooting-steps server: a verified model of its text engine

`server.py` serves a flat text store, `steps.txt`. Each section of the store
starts with a `# Name` line, and the sections list troubleshooting steps
for one application. This project models the part of the server that does
the real work on that text:

- **Parser and cache** (`load_sections`), in `parser.dfy` and `cache.dfy`.
  - The split `re.split(r'(?m)^# (.+)$', raw)` becomes an explicit line
    scanner (`Parser.ScanParts`), proved equal to a functional definition of
    the split (`Parser.SplitParts`).
  - The fold into `(name, body)` sections is a loop (`Parser.CollectSections`),
    proved equal to `Parser.SectionsOf`.
  - The module globals `SECTION_CACHE` and `CACHE_MTIME` become the fields of
    the class `Cache.SectionCache`. Its method `Load` re-parses only when the
    modification time changes.
- **Search** (`handle_search_api` without the JSON encoding), in `search.dfy`:
  - the case-insensitive section filter;
  - the `<mark>` highlighted snippet taken from the first matching line;
  - the 100-character summary;
  - the error count, which is also reused by the main page.
- **Renderer** (`format_content`), in `render.dfy`. It is a line-by-line
  state machine with a `list_open` flag, producing `<h4>`, `<h3>`,
  `<ul><li>` and `<p>` output. It applies `html.escape` and then the
  `**x**` to `<strong>` substitution.
- **Store edits** (the `/editor` POST), in `store.dfy`:
  - "save full" replaces the text;
  - "add" appends `"\n\n# name\n\nsteps\n"`;
  - a round-trip theorem says what the parser makes of an appended text.

Supporting modules:

- `text.dfy` (module `Text`) holds the Python string operations the code
  relies on:
  - `str.strip` over the full `str.isspace` set;
  - ASCII `lower`;
  - `split('\n')` and `'\n'.join`;
  - decimal printing for the `app{idx}` slugs.
- `option.dfy` holds `Option`.

File input/output, the modification time and request decoding are
parameters of the model:

- `Cache.SectionCache.Load` takes:
  - the result of `os.path.getmtime`, as `None` when it raises;
  - the file text, as `None` when reading raises.
- `Store.HandleEditorPost` takes the current text and the decoded form
  fields. It returns an edit result: `Saved(text)` with the new text, or
  `NameRequired` when "add" is sent with a blank name.

Points where the code's behaviour is easy to misread; the model follows the
code:

- When `os.path.getmtime` fails, `load_sections` returns `[]` and leaves
  both globals unchanged; it does not clear them.
- A marker whose name strips to empty is dropped together with its body.
  The body is not joined to the previous section.
- The summary skips lines whose *unstripped* text starts with `#`.
- A blank line does not close an open list (`elif stripped:` does nothing
  for it).
- `"General"` names the preamble section. A literal `# General` marker can
  also produce a section of that name. So "General only at index 0" holds
  only for the section built from the text before the first marker, which
  is what `Parser.GeneralFirst` states.
- When reading the file raises, the globals have already been set to `[]`
  and the new mtime. Later calls under that mtime return `[]` until the file
  changes again.

## Model

| member | source | states |
|---|---|---|
| Text.Strip | server.py:491 | the stripped text has no white space at either end and is no longer than the input |
| Text.StripSpec | server.py:491 | `strip()` is the slice between a blank prefix and a blank suffix; it is empty exactly when the text is blank |
| Text.StripIdempotent | server.py:81 | stripping twice is stripping once |
| Text.Lower | server.py:86 | the lowered text has the same length, holds no ASCII capital letter, and keeps every character that is not an ASCII capital |
| Text.LowerIdempotent | server.py:81 | the lowered query is unchanged by lowering again |
| Text.LowerSlice | server.py:93 | lowering commutes with taking a slice |
| Text.Lines | server.py:480 | `split('\n')` gives at least one piece, no piece holds a newline, and there is exactly one piece when the text has no newline |
| Text.JoinLines | server.py:480 | joining the pieces of `split('\n')` with `'\n'` gives back the text |
| Text.LinesJoin | server.py:514 | splitting a `'\n'.join` of newline-free lines gives back the lines |
| Text.NatToString | server.py:113 | the decimal form of an index is made of digits, without a leading zero |
| Text.NatToStringRoundTrip | server.py:113 | reading the decimal form back gives the index |
| Text.NatToStringInjective | server.py:113 | distinct indices have distinct decimal forms |
| Parser.SplitParts | server.py:69 | definition without a contract: the pieces of `re.split(r'(?m)^# (.+)$', raw)`; `Parser.SplitFromOdd`, `Parser.SplitRejoin`, `Parser.SplitAtMarker` and `Parser.ScanParts` state its properties |
| Parser.SectionsOf | server.py:70-76 | definition without a contract: the fold of the pieces into sections; `Parser.CollectSections` and `Parser.SectionsFromMarkers` state its properties |
| Parser.Parse | server.py:69-76 | definition without a contract: the split followed by the fold; `Parser.ParseMatchesReference`, `Parser.ParseNamesClean` and `Parser.GeneralFirst` state its properties |
| Parser.LineEnd | server.py:69 | the end of the line from a position: a newline or the end of the text, with no newline before it |
| Parser.NextMarker | server.py:69 | the first `^# (.+)$` match from a position, or the end of the text, with no match before it |
| Parser.SplitFrom | server.py:69 | the split has at least one piece and starts with the text before the first marker |
| Parser.SplitFromOdd | server.py:69 | the split has an odd number of pieces: the preamble, then a name and a body for each marker |
| Parser.SplitRejoin | server.py:69 | putting `"# "` back before each captured name and concatenating the pieces restores the text, so the split loses nothing |
| Parser.SplitAtMarker | server.py:69 | at a marker the split yields the text before it, the captured name up to the end of the line, and then the split of the rest |
| Parser.ScanParts | server.py:69 | the line scanner yields exactly the pieces of `re.split(r'(?m)^# (.+)$', raw)` |
| Parser.FindLineEnd | server.py:69 | the scanning loop stops at the end of the marker line |
| Parser.CollectSections | server.py:70-76 | the fold loop builds exactly the sections the split defines |
| Parser.MarkersFrom | server.py:69 | the marker positions from a point on lie in the text and each is a marker |
| Parser.MarkersFromExact | server.py:69 | those positions are strictly increasing and include every marker from that point on |
| Parser.ParseMatchesReference | server.py:69-76 | the parse equals an independent definition over marker positions: a non-blank preamble as `"General"`, then one section for each marker with a non-blank name, holding the stripped name and the text up to the next marker |
| Parser.ParseNamesClean | server.py:73-76 | every parsed section name is non-empty and already stripped |
| Parser.GeneralFirst | server.py:70-71 | the preamble section exists exactly when the text before the first marker is not blank; it is then first and is named `"General"` |
| Parser.BlankStrip | server.py:75 | `if name:` after `strip()` keeps the marker exactly when its name is not blank |
| Parser.NonBlankMarkersExact | server.py:72-76 | the markers kept are exactly those whose captured name is not blank |
| Parser.SectionsFromMarkers | server.py:72-76 | after the optional preamble section, section `k` is the `k`-th kept marker's stripped name and body; a dropped marker contributes no section and its body belongs to none |
| Cache.SectionCache.constructor | server.py:19-20 | the cache starts empty, with modification time 0 |
| Cache.SectionCache.Load | server.py:56-77 | a failed stat returns `[]` and leaves the cache alone; an unchanged mtime returns the cached sections without re-reading; otherwise the new mtime is recorded and the cache holds the fresh parse, or `[]` when reading raised |
| Cache.StaleUntilMtimeChanges | server.py:64-66 | a changed file under the same mtime is still served from the cache, and a new mtime makes it re-parse |
| Search.MarkPieces | server.py:96-98 | removing the marks gives back the line, and every marked stretch equals the term without case |
| Search.MarkPiecesExact | server.py:96-98 | every marked stretch is an occurrence of the term at its own offset, and no occurrence starts at an unmarked character, so the non-overlapping left-to-right occurrences are exactly those marked |
| Search.MarkPiecesHit | server.py:96-98 | a line that holds the term, ignoring case, gets at least one mark |
| Search.Term | server.py:81 | definition without a contract: the stripped lower-cased query; `Search.TermShape` states its properties |
| Search.Snippet | server.py:90-101 | definition without a contract: the marked first matching line; `Search.SnippetSpec` and `Search.FindSnippet` state its properties |
| Search.FirstLineFrom | server.py:92-93 | the first line whose lower-case form holds the term, or none when no line holds it |
| Search.FindSnippet | server.py:90-101 | the loop with its `break` computes the snippet of the first matching line |
| Search.ContainsStripped | server.py:93-94 | a term without edge white space that occurs in a line also occurs in the stripped line |
| Search.TermShape | server.py:81 | the normalised query is lower case and has no white space at either end |
| Search.SnippetSpec | server.py:90-101 | with no matching line the snippet is `""`; otherwise removing the marks gives the stripped first matching line, and it holds at least one mark |
| Search.Summary | server.py:104-106 | definition without a contract: the first 100 characters of the joined kept lines; `Search.SummarySpec` states its properties |
| Search.SummaryLines | server.py:105 | the summary lines are non-empty, stripped, and no more than the lines they come from |
| Search.KeptFromExact | server.py:105 | the kept line indices increase, and an index is kept exactly when its line is not blank and its unstripped text does not start with `#` |
| Search.SummaryLinesKeeps | server.py:105 | the summary lines are exactly the kept lines, stripped, in their order: a line is kept exactly when it is not blank and does not start with `#` before stripping |
| Search.SummaryHashExample | server.py:105 | a `#` after leading blanks is kept (`"  # x"` gives `"# x"`), while a line starting with `#` is dropped |
| Search.SummarySpec | server.py:104-106 | the summary has at most 100 characters, is a prefix of the single-space join of the kept lines among the first five, is that whole join when it is short enough, and otherwise is exactly 100 long |
| Search.FindAllFrom | server.py:109 | definition without a contract: the left-to-right `findall` scan from a position; `Search.FindAllCountsPositions` states its properties |
| Search.ErrorCount | server.py:109 | definition without a contract: the number of `findall` matches; `Search.ErrorCountIsMatchPositions` and `Search.ErrorCountExample` state its properties |
| Search.FindAllCountsPositions | server.py:109 | the left-to-right `findall` scan counts one match at each position where either alternative matches; the two alternatives cannot overlap, because each starts with `-` and neither holds another `-` |
| Search.ErrorCountIsMatchPositions | server.py:109 | the error count is the number of positions where `- **Error**:` occurs, or `- **` occurs at a line start |
| Search.ErrorCountExample | server.py:109 | two `- **Error**:` bullets followed by a plain bullet count 2: each error bullet is counted once, and a bullet that is not bold-led is not counted |
| Search.Slug | server.py:113 | definition without a contract: `app` followed by the decimal index; `Search.SlugInjective` states its properties |
| Search.SlugInjective | server.py:113 | distinct section indices get distinct slugs |
| Search.SearchResponseFor | server.py:79-120 | definition without a contract: the search response for a query; `Search.HandleSearch`, `Search.SearchFilter` and `Search.BlankQueryListsAll` state its properties |
| Search.HandleSearch | server.py:79-118 | the loop with its `continue` yields the response of the search definition |
| Search.SelectedFromExact | server.py:86-87 | the selected indices are increasing and are exactly those of the sections the term selects |
| Search.ResultsAreSelected | server.py:85-118 | the results are those of the selected sections, in section order |
| Search.SearchFilter | server.py:79-118 | the response has one result per selected section, in order; each result holds its name, `app{index}` for its original position, its snippet, summary and error count, and `matched` set when the term is not blank; a section is selected exactly when the term is blank or its lower-cased body holds the term |
| Search.BlankQueryListsAll | server.py:86-91 | a blank query lists every section in order, unmatched and with an empty snippet |
| Render.Escape | server.py:494 | definition without a contract: `html.escape`, character by character; `Render.UnescapeEscape` and `Render.EscapeMarkupFree` state its properties |
| Render.UnescapeEscape | server.py:505 | `html.escape` loses nothing: decoding its five entities gives back the text |
| Render.EscapeMarkupFree | server.py:494 | escaped text holds no `<`, `>`, `"` or `'`, so heading text cannot open a tag |
| Render.FindClose | server.py:506 | the closing `**` a span ends at: the first one on the same line after at least one character, or none |
| Render.BoldFrom | server.py:506 | definition without a contract: the `**x**` spans from a position; `Render.MarkupBold` and `Render.BoldSpans` state its properties |
| Render.Bold | server.py:506 | definition without a contract: the `<strong>` substitution; `Render.MarkupBold` and `Render.BoldSpans` state its properties |
| Render.MarkupBold | server.py:506 | writing the `**` markers back around each `<strong>` span gives back the text, so the substitution loses nothing |
| Render.BoldSpans | server.py:511 | each `<strong>` span is non-empty and holds no newline and no earlier closing `**`, as in the non-greedy `(.+?)` |
| Render.Htmls | server.py:514 | one HTML fragment per part |
| Render.LineBlock | server.py:491-512 | definition without a contract: the block one line yields; `Render.LineBlockNone`, `Render.LineBlockItem` and `Render.LineBlockText` state its properties |
| Render.Layout | server.py:484-513 | definition without a contract: the parts of a run of lines from a list state; `Render.LayoutWellNested`, `Render.LayoutTags` and `Render.RenderLine` state its properties |
| Render.RenderContent | server.py:478-514 | definition without a contract: the joined HTML of a body; `Render.FormatContent` and `Render.RenderWellNested` state its properties |
| Render.RenderLine | server.py:491-512 | one pass of the `if`/`elif` chain appends the fragments of that line's step and sets the list flag |
| Render.FormatContent | server.py:478-514 | the loop and the final `close_list()` produce the rendering that the layout definition gives |
| Render.LayoutWellNested | server.py:484-513 | from any list state, the parts are well nested: every `<ul>` is followed by an item and closed once, items stand only inside a list, and headings and paragraphs only outside one |
| Render.RenderWellNested | server.py:478-514 | the rendered body of any section is well nested |
| Render.LayoutTags | server.py:491-512 | the blocks emitted are exactly the blocks of the non-blank lines, in order |
| Render.LineBlockNone | server.py:508 | a line yields no block exactly when it is blank |
| Render.LineBlockItem | server.py:498 | a line yields a list item exactly when its stripped form starts with `"- "` |
| Render.BlockCounts | server.py:490-512 | there are as many blocks as non-blank lines, and as many `<li>` as lines whose stripped form starts with `"- "` |
| Render.LineBlockText | server.py:491-512 | each block carries its line: headings hold the escaped text after the marker and no markup; items and paragraphs hold the bold rendering of the escaped text, and decoding it gives back the stripped line without the marker |
| Render.BlankLineIgnored | server.py:508 | a blank line anywhere changes nothing: it neither closes a list nor adds a part |
| Store.AppendText | server.py:907 | definition without a contract: the text "add" appends; `Store.SplitAppended` and `Store.AppendRoundTrip` state what the parser makes of it |
| Store.AddSection | server.py:901-910 | "add" refuses exactly when the name is blank; otherwise the new text is the old text followed by `"\n\n# " + name + "\n\n" + steps + "\n"` with the stripped name and steps |
| Store.HandleEditorPost | server.py:896-910 | "save full" stores the submitted text verbatim; any other action is exactly "add": it refuses when the name is blank and otherwise appends the stripped name and steps in that layout |
| Store.SplitAppended | server.py:907 | for a name that does not start with white space and holds no newline, and steps with no marker line, splitting the appended text gives the old split with `"\n\n"` added to its last piece, then the new name and the new body |
| Store.SectionsOfWidened | server.py:70-76 | the fold over that split is the old sections, with `"\n\n"` added to the last body when that body belongs to a section, followed by the new section |
| Store.AppendRoundTrip | server.py:905-907 | for a non-blank one-line name and steps with no marker line, parsing the appended text gives the old parse followed by exactly one section, the stripped name with body `"\n\n" + steps + "\n"`; the old last body gains `"\n\n"` when it belongs to a section |
| Store.AppendAddsOneSection | server.py:905-907 | for a non-blank name with no newline and steps with no marker line (after stripping), after "add" there is exactly one more section and it is last; every earlier section keeps its name, and every one but the old last keeps its body |

## Left out

- HTTP routing and responses are not modelled: `do_GET`, the request parsing
  and redirects of `do_POST`, `send_json_response`, `send_error` and `run`.
  They are socket plumbing.
- Page and CSS assembly is not modelled: `send_editor_page`,
  `send_main_page` and `send_css`. They fill literal templates. The badge
  choice at server.py:246-247 reuses the error count, which is modelled.
- The browser JavaScript embedded in the pages is not modelled. It runs
  in the client.
- Real file I/O and `os.path.getmtime` are not modelled. They are the
  inputs of `Cache.SectionCache.Load`. The writes of `do_POST` are
  modelled as the text the store holds afterwards. The "Last updated" date
  formatting is not modelled.
- Form decoding (`parse_qs`, `Content-Length`) is not modelled. The
  handler receives the first value of each field, or `""` when the field
  is absent.
- The JSON encoding of the search response is not modelled. The response
  is the datatype `Search.SearchResponse`.
- Concurrent writers on the shared file are not modelled. The code has no
  locking.
- Unicode case folding is not modelled. `lower`, `re.IGNORECASE` and
  `in content.lower()` are modelled as ASCII lower-casing.
- `re.error` in the snippet is not modelled. It cannot occur, because the
  term is passed through `re.escape`.
- The three regular expressions are modelled as hand-written scanners with
  `re` semantics, not as a general `re` engine.
- Cache.SectionCache.Load models the modification time as an integer. The
  only thing that matters is whether two stamps are equal, so float
  stamps are not modelled.
- Cache.SectionCache.Load returns the cached list as a value. Python
  returns the global list itself, so callers share it. No caller mutates
  that list.
- Store.AppendRoundTrip, Store.AppendAddsOneSection and Store.SplitAppended
  are proved only for a name without a newline and steps without a `# x`
  line. `Store.AddSection` itself accepts any input. Other names or steps
  create or split further sections, and that case is not stated.
- Cache.SectionCache.Load takes as `read` the text after Python's newline
  translation, in which `\r\n` and `\r` read as `\n`. Store.AppendRoundTrip
  and Store.HandleEditorPost describe the text as written. The browser
  sends textarea line breaks as `\r\n`. On POSIX, where `os.linesep` is
  `"\n"`, the file is written without translation. So the written text
  reads back unchanged only when it holds no `\r`.
