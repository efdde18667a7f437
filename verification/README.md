# jmd_editor core in Dafny

jmd_editor is a two-pane Markdown editor with a Tk front end and a Qt front end. Each front
end has an editor pane that tells the viewer to re-render after the typing stops, and a
viewer pane that turns the Markdown into HTML. This project models the parts of the four
core files that hold logic rather than toolkit wiring, and proves what they promise.

- `qt_viewer.dfy` (module `QtViewer`) models `viewer_widget.py`:
  - `ViewerPage.acceptNavigationRequest`, which keeps link clicks from the web view and hands them to `open_link`;
  - `open_link`, which sorts each clicked URL into one of four branches;
  - the `src="/home/` rewrite and the fixed HTML page around the converted fragment;
  - the `current_markdown` / `original_markdown` fields that `update_content`, `open_link` and `go_back` keep.

  The widget is a class whose methods record the host calls they make (`setHtml`, `openUrl`, `load`).
- `tk_viewer.dfy` (module `TkViewer`) models `viewer_frame.py`:
  - the regular expression `!\[(.*?)\]\((.*?)\)` as a left-to-right, non-overlapping walk over the text;
  - `replace_with_base64`, with its four outcomes: remote kept, not-found placeholder, error placeholder, data URL;
  - the rewrite-then-convert order of `update_content`.
- `base64.dfy` (module `Base64`) is the base64 encoding of section 4 of RFC 4648. It also holds a strict decoder, which rejects non-zero pad bits (section 3.5 of RFC 4648), so that the round trip can be proved in both directions.
- `data_uri.dfy` (module `DataUri`) is the `data:<mime>;base64,<data>` URL of section 3 of RFC 2397. It also holds a parser, for the same reason.
- `tk_editor.dfy` (module `TkEditor`) models the `after`/`after_cancel` debounce of `editor_frame.py`:
  - a state machine over the events Edit, Change and Fire, with its invariant and trace lemmas;
  - an `EditorFrame` class whose methods are proved against that machine.
- `qt_editor.dfy` (module `QtEditor`) models the single-shot `QTimer` debounce of `editor_widget.py`:
  - the same kind of state machine, over Change and Fire;
  - a `DebounceTimer` class and an `EditorWidget` class proved against it.
- `traces.dfy` (module `Traces`) runs a sequence of events through a step function. Both editor machines use it.
- `strings.dfy` and `wrappers.dfy` are helpers: `startswith`, `endswith`, `in`, `find` and `replace`, plus `Option`.

Every outside service is a parameter of the model:

- the Markdown converter: a function `string -> string`;
- file existence and what PIL makes of an image file: the `Env` record;
- PIL's format-to-MIME table: a map;
- reading a `.md` file: a function returning the text or a failure.

`go_back` re-renders the text shown last. There is no navigation history: no back or forward stacks exist, and `update_content` overwrites `original_markdown` on every call.

## Model

| member | source | states |
|---|---|---|
| QtViewer.AcceptNavigationRequest | viewer_widget.py:16-21 | A navigation is refused exactly when it is a link click. The callback receives the URL exactly when it is a link click and a callback is set. The frame flag plays no part. |
| QtViewer.ViewerWidget.AcceptNavigation | viewer_widget.py:16-21 | The installed page refuses exactly the link clicks. For a link click the widget ends in exactly the state `open_link` gives for that URL, the same predicate OpenLink ensures. It leaves the widget untouched for every other navigation. |
| QtViewer.ClassifyLink | viewer_widget.py:108-124 | The four branches, each as an if-and-only-if over the ordered tests, so exactly one applies to every URL. The file path is the URL without its seven-character `file://` prefix. Web URLs and other URLs are passed on unchanged. |
| QtViewer.ClassifyFileUrl | viewer_widget.py:111-113 | A `file://` URL built from any path is sorted by the case-sensitive `.md` suffix of that path, and gives back exactly that path. |
| QtViewer.ViewerWidget.OpenLink | viewer_widget.py:106-124 | A web URL goes to the desktop opener and a non-file URL to the view; neither touches the fields. A readable `.md` file sets both fields to its text and shows it. An unreadable one, or any other file, changes nothing. |
| QtViewer.ViewerWidget.UpdateContent | viewer_widget.py:38-104 | Both fields become the text. The page handed to `setHtml` is the shell around the converted and rewritten text. |
| QtViewer.ViewerWidget.GoBack | viewer_widget.py:126-128 | With an empty `original_markdown` nothing happens. Otherwise the last text is rendered again and both fields keep their values. |
| QtViewer.ViewerWidget.constructor | viewer_widget.py:33-34 | Both fields start empty and agree. |
| QtViewer.RewriteSrcLeavesNone | viewer_widget.py:53-55 | After the rewrite no `src="/home/` is left anywhere, including across the edge of a replacement. |
| QtViewer.RewriteSrcIdempotent | viewer_widget.py:53-55 | Rewriting twice gives the same as rewriting once. |
| QtViewer.RewriteSrc | viewer_widget.py:53-55 | HTML without `src="/home/` passes through unchanged. |
| QtViewer.RewriteSrcUndone | viewer_widget.py:53-55 | For every HTML, undoing the replacement after the rewrite gives the same as undoing it on the input. So the rewrite changes nothing but `src="/home/` prefixes, even in HTML that already holds `src="file:///home/`. |
| QtViewer.RewriteSrcReversible | viewer_widget.py:53-55 | On HTML with no `src="file:///home/` of its own, undoing the replacement gives the input back exactly. |
| QtViewer.Page | viewer_widget.py:87-96 | The page carries the fragment verbatim between the fixed head and tail, and the fragment can be read back out. |
| QtViewer.RenderPage | viewer_widget.py:43-96 | The body of the rendered page is the converted Markdown with only the `src` prefixes rewritten, and it holds no `src="/home/`. |
| Base64.CharOf | viewer_frame.py:121 | Every sextet maps to a character of the alphabet of section 4 of RFC 4648. |
| Base64.IndexOf | viewer_frame.py:121 | Reading a character of the alphabet back gives the sextet that produced it. |
| Base64.Encode | viewer_frame.py:121 | The encoding uses only alphabet characters and `=`. |
| Base64.EncodeLength | viewer_frame.py:121 | Every started group of three bytes takes four characters. |
| Base64.DecodeEncode | viewer_frame.py:121 | Encoding loses nothing: the decoder returns exactly the encoded bytes. Because the decoder rejects non-zero pad bits, this also says the encoding writes zero pad bits. |
| Base64.EncodeDecode | viewer_frame.py:121 | Every string the decoder accepts is exactly the encoding of the bytes it yields, so each byte sequence has one encoding: zero pad bits, and padding only to complete the last group. |
| Base64.NonZeroPadBitsRejected | viewer_frame.py:121 | `QQ==` is the encoding of the byte 65. `QR==` carries the same byte with a non-zero pad bit, and the decoder rejects it. |
| DataUri.Build | viewer_frame.py:123 | The URL is `data:<mime>;base64,` followed by four base64 characters for every started group of three bytes. |
| DataUri.ParseBuild | viewer_frame.py:122-123 | The data URL built from a media type and bytes reads back as that media type and those bytes. The media type must hold no comma. |
| TkViewer.FormatName | viewer_frame.py:118 | The format PIL reports is used when it is non-empty, and `PNG` otherwise, so the name is never empty. |
| TkViewer.MimeType | viewer_frame.py:118-122 | The media type is the table entry for the format name. A missing or empty format counts as `PNG`. A name the table lacks gives `image/png`. |
| TkViewer.ImageTarget | viewer_frame.py:84-128 | A remote path is kept. A missing file becomes `Image not found: ` before the path as written. A PIL failure becomes `Error loading image: ` before the path. A loaded image becomes a `data:` URL that reads back as its media type and bytes. |
| TkViewer.FindAltEnd | viewer_frame.py:76 | The alt group ends at the first `](`, and no newline comes before it. |
| TkViewer.FindClose | viewer_frame.py:76 | The path group ends at the first `)`, and no newline comes before it. |
| TkViewer.MatchAt | viewer_frame.py:76 | A match at a position spans exactly `![alt](path)` in the text, with groups the pattern can capture. |
| TkViewer.Scan | viewer_frame.py:76 | Every match the walk takes has capturable groups. |
| TkViewer.ScanCovers | viewer_frame.py:131 | The walk's pieces, written out, give back the text exactly. Matches are taken left to right without overlap, and the text between them is kept character by character. |
| TkViewer.MatchAtFinds | viewer_frame.py:76 | Wherever the text reads `![alt](path)` with capturable groups, the pattern matches there with exactly those groups. |
| TkViewer.ScanTakesImage | viewer_frame.py:131 | The walk takes every such occurrence it reaches as one whole match. |
| TkViewer.ReplaceWithBase64 | viewer_frame.py:78-128 | Every outcome is `![alt](…)` with the matched alt text kept verbatim. A remote image is rebuilt exactly as it was matched. |
| TkViewer.ProcessImagePaths | viewer_frame.py:70-131 | A text whose images are all remote comes out of the pass unchanged, and so does a text with no `![`. |
| TkViewer.ReplacementKeepsAlt | viewer_frame.py:79-128 | The replacement reads back under the same pattern with the same alt text and the new target, whenever that target is capturable. |
| TkViewer.PlaceholdersAreGroups | viewer_frame.py:93-128 | The not-found and error placeholders of a matched path are themselves capturable targets. |
| TkViewer.ViewerFrame.constructor | viewer_frame.py:12-47 | The frame keeps the given converter and has loaded no HTML yet. |
| TkViewer.ViewerFrame.UpdateContent | viewer_frame.py:49-65 | The HTML loaded is the converter applied to the text after the image pass, so images are rewritten before conversion. |
| TkEditor.InitialInv | editor_frame.py:24-25 | The initial state has no job and nothing scheduled. |
| TkEditor.Edited | editor_frame.py:21 | A keystroke sets the modified flag, changes nothing else and keeps the invariant. |
| TkEditor.TextChanged | editor_frame.py:27-32 | Without the modified flag `on_text_change` does nothing. With it, the old job is cancelled and exactly one new job is pending, with the 300 ms delay. The flag is cleared and no callback runs. |
| TkEditor.Fired | editor_frame.py:34-36 | Running the pending job calls back exactly once and leaves no job pending. With no job remembered, nothing happens. The modified flag and the next job identifier are kept. |
| TkEditor.Step | editor_frame.py:27-36 | Every event keeps the invariant: the remembered job is the only one scheduled. |
| TkEditor.RunInv | editor_frame.py:27-36 | From a consistent state, every run of events keeps the invariant and at most one job is ever pending. |
| TkEditor.NoFireNoUpdate | editor_frame.py:27-32 | Edits and changes alone never call back. |
| TkEditor.Coalesce | editor_frame.py:27-36 | Any run of edits and changes, ended by an edit and its change, followed by one fire, calls back exactly once and leaves nothing pending. |
| TkEditor.EditorFrame.constructor | editor_frame.py:24-25 | The frame starts with no job, nothing scheduled and the flag clear. |
| TkEditor.EditorFrame.Edit | editor_frame.py:21 | A keystroke sets the modified flag and keeps the invariant. |
| TkEditor.EditorFrame.After | editor_frame.py:31 | `after` schedules a job under a fresh identifier with the given delay, and changes nothing else. |
| TkEditor.EditorFrame.AfterCancel | editor_frame.py:30 | `after_cancel` removes that one job, and changes nothing else. |
| TkEditor.EditorFrame.OnTextChange | editor_frame.py:27-32 | The frame's new state is the machine's change step, and the invariant is kept. |
| TkEditor.EditorFrame.TriggerUpdate | editor_frame.py:34-36 | The callback runs once and the job is forgotten. |
| TkEditor.EditorFrame.Fire | editor_frame.py:31-36 | The frame's new state is the machine's fire step, and the invariant is kept. |
| QtEditor.TextChanged | editor_widget.py:58-62 | After a change exactly one timer runs, with the 300 ms delay, whatever ran before, and no callback has run. |
| QtEditor.TimedOut | editor_widget.py:52-65 | A timeout of the running timer calls back exactly once and leaves no timer running. An inactive timer never times out. |
| Traces.RunAppend | editor_widget.py:58-65 | Running two runs of events one after the other is running their concatenation. |
| QtEditor.ChangesRestart | editor_widget.py:58-62 | Any non-empty run of changes leaves exactly the last change's timer running and calls nothing back. |
| QtEditor.Coalesce | editor_widget.py:52-65 | One or more changes followed by one timeout give exactly one callback, and no timer runs afterwards. |
| QtEditor.UpdatesBoundedByFires | editor_widget.py:52-65 | Over any run, callbacks never decrease and never outnumber the timeouts. |
| QtEditor.DebounceTimer.constructor | editor_widget.py:51 | A new `QTimer` is not running and not single-shot. |
| QtEditor.DebounceTimer.SetSingleShot | editor_widget.py:52 | `setSingleShot` sets only the single-shot flag. |
| QtEditor.DebounceTimer.IsActive | editor_widget.py:60 | `isActive()` reports whether the timer is running. |
| QtEditor.DebounceTimer.Start | editor_widget.py:62 | `start(ms)` makes the timer run with that interval. |
| QtEditor.DebounceTimer.Stop | editor_widget.py:61 | `stop()` makes the timer inactive. |
| QtEditor.DebounceTimer.Elapse | editor_widget.py:52 | When the interval elapses, a single-shot timer stops and a repeating one keeps running. |
| QtEditor.EditorWidget.constructor | editor_widget.py:50-53 | The widget starts with a single-shot timer that is not running and no callbacks. |
| QtEditor.EditorWidget.OnTextChange | editor_widget.py:58-62 | The widget's new state is the machine's change step, and the timer stays single-shot. |
| QtEditor.EditorWidget.TriggerUpdate | editor_widget.py:64-65 | The callback runs once. |
| QtEditor.EditorWidget.Timeout | editor_widget.py:52-65 | The widget's new state is the machine's timeout step, and the timer stays single-shot. |

## Left out

- The Markdown and math conversion and the KaTeX script are external libraries and a browser. The converter is an uninterpreted function parameter, and the script is kept only as text of the page.
- PIL opening, mode conversion, thumbnailing and saving are a foreign library. They are the oracle `Env.load`, which returns bytes and a format name, or a failure.
- `os.path.abspath` and `os.path.exists` are the oracle `Env.fileExists`, keyed by the path as written.
- Reading a `.md` file in `open_link` is the oracle `readFile`. Any exception it raises is `ReadFailed`.
- QtViewer.ViewerWidget.OpenLink: an exception raised inside `update_content` is not modelled. In the source, such an exception comes after both fields have already been set to the file text, and the same `except` swallows it. The model treats the conversion as total.
- `QDesktopServices.openUrl`, `webview.load` and `webview.setHtml` are recorded as host calls. The hard-coded base URL passed to `setHtml` is left out.
- Every `print` call is assumed to succeed: those in both `update_content` methods, and those in `replace_with_base64` (viewer_frame.py:107-108, 124 and 127). The `debug.html` write and `update_viewer_callback` are assumed to succeed too. Their output has no effect on the model's state.
- TkViewer.ImageTarget: gives the data URL for every image PIL loads. In the source, a `print` that raises at viewer_frame.py:107, 108 or 124 lands in the `except` at line 126, so that image gets the `Error loading image: ` placeholder. A raising `print` at line 127 propagates out of `update_content`.
- QtViewer.ViewerWidget.UpdateContent: always records the `setHtml` call. In the source, a failing `debug.html` write or `print` raises before `setHtml`, after both fields are set, so the old page stays shown.
- TkEditor.EditorFrame.TriggerUpdate: always forgets the job. In the source, a raising `update_viewer_callback` skips line 36 and leaves the id of the job that just ran in `_debounce_job`. The next `after_cancel` of that dead id does nothing, so the debounce behaves the same.
- The real-time behaviour of `after` and `QTimer` is replaced by Change and Fire events. Only the delay value, 300 ms, is kept.
- The `after` job identifiers are modelled as consecutive naturals. Tk's identifiers are opaque strings.
- Widget layout, canvas resizing, scroll regions, `image_refs`, fonts and stylesheets are toolkit plumbing with no stateable behaviour.
- `get_content`, `set_content`, `undo` and `redo` of both editors delegate to the text widget. `insert_file_link` is a file dialog around `os.path.relpath`.
- `main.py`, `file_viewer_widget.py`, `file_manager.py` and the `tests/` scripts are not part of this model. They are UI wiring and file I/O.
- Base64.DecodeEncode: the decoder is not in the source. It is a strict reference partner: with Base64.EncodeDecode it shows that the encoding is lossless and canonical.
- DataUri.ParseBuild: the same holds for the parser. The round trip assumes a media type without a comma, which every registered image type satisfies.
- TkViewer.ReplacementKeepsAlt: when a loaded image's data URL or a placeholder path holds a `)` or a newline, the rewritten Markdown no longer reads back under the pattern. The lemma therefore requires a capturable target.
