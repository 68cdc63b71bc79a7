# Note Graph App — a verified model of its graph bookkeeping

Note Graph App is a small PyQt5 desktop editor for a graph of notes. A note
is a yellow ellipse holding text; the add-node dialog accepts up
to 128 characters, but loading and in-place editing can give a note longer
text. An edge is a line drawn between two notes. The window has five buttons:

- Add Node;
- Add Edge;
- Delete Item;
- Save Graph, which writes `graph.json`;
- Load Graph, which reads it back.

This project models the bookkeeping behind those buttons in Dafny. It does
not model the drawing.

The model has three modules:

- `NoteText` (`text.dfy`) holds the text rules. These are Python's
  `str.strip()` with `str.isspace` written out as code-point ranges, the
  add-node dialog's validation verdict, the ellipse width
  `max(60, 7 * len(text))`, and `Plain`, the text a node's text item reports
  through Qt's `toPlainText()`: a no-break space (U+00A0) becomes a space,
  and a line or paragraph separator (U+2028, U+2029) becomes a line feed.
- `GraphCodec` (`codec.dfy`) holds the file format and its two
  directions:
  - `Encode` is what saving writes. Nodes become `{x, y, text}` records in
    list order, each text as `toPlainText()` reads it back. Each edge
    becomes the pair of its endpoints' first positions in the node list, as
    `list.index` returns them.
  - `Decode` is the state that loading rebuilds. It creates one fresh node
    per record. Each `[i, j]` pair is resolved with Python's subscript rules,
    where a negative index counts from the end. The rebuild stops at the
    first pair out of range.
  - This module also holds both round trips. `LoadThenSave` says that
    loading a well-formed file and saving again gives the file back with
    every text in its `Plain` form, and so exactly the file when no text
    holds U+00A0, U+2028 or U+2029. `SaveThenLoad` says that a successful
    save loads back to the same positions, `Plain` texts and edges, and
    saves again to the same file.
- `NoteGraphApp` (`graph.dfy`) holds the editor as the class `NoteGraph`:
  - the fields are `nodes` (the node list), `edges` (the edge list), `info`
    (each node's position, text and width) and `nextId`, a counter that
    stands in for the allocation of a new Qt item;
  - each button is a method that updates those fields, and each loop of the
    source is a loop proved against the matching specification function;
  - `Valid()` is the invariant every method keeps. The node list has no
    repeats, and every edge endpoint is a node that was created. The
    endpoint may have been deleted since.

Qt items are replaced by abstract node identities (`NodeId`). The drawn
line of an edge is dropped. The JSON text is replaced by the datatype
`Data(nodes, edges)`.

Behaviours of the code that the model pins down:

- Deleting never removes an edge. The test `isinstance(item, tuple)` cannot
  hold for a scene item. So an edge at a deleted node stays in the edge
  list, and the next save raises `ValueError` from `list.index`
  (`DeletedEndpointBlocksSave`). There is no cascade delete.
- Parallel edges are allowed, because `AddEdge` appends without looking for
  an existing edge. Loading also accepts self-loops (`LoadAcceptsSelfLoop`).
- Loading replaces the graph rather than merging into it. It is not atomic:
  an index out of range raises `IndexError` after the nodes and the earlier
  edges have been rebuilt, because only `FileNotFoundError` is caught.
  Loading does not re-check text length (`LoadKeepsLongText`). A negative
  index is accepted and counts from the end (`LoadResolvesNegativeIndex`).

## Model

| member | source | states |
|---|---|---|
| NoteText.IsSpace | main.py:58 | `str.isspace` for one character, as the code-point set `strip()` removes (a predicate: no contract of its own) |
| NoteText.HasContent | main.py:58 | the truth value of `text.strip()`: some character is not whitespace (a predicate; `Strip` and `CheckText` are stated against it) |
| NoteText.TrimLeft | main.py:58 | result is a suffix of the input; everything dropped is whitespace; result is empty or starts with a non-whitespace character |
| NoteText.TrimRight | main.py:58 | result is a prefix of the input; everything dropped is whitespace; result is empty or ends with a non-whitespace character |
| NoteText.Strip | main.py:58 | `text.strip()` is empty exactly when every character is whitespace; otherwise it starts and ends with non-whitespace; never longer than the input |
| NoteText.CheckText | main.py:57-61 | a node is accepted iff the dialog was confirmed, the text is not blank and has at most 128 characters; a warning iff confirmed, not blank and longer; ignored iff cancelled or blank |
| NoteText.NodeWidth | main.py:64 | width is at least 60 and at least 7 per character, and equals one of the two |
| NoteText.NodeWidthMonotone | main.py:146 | a longer text never gives a narrower node |
| NoteText.PlainChar | main.py:109 | `toPlainText()` on one character: the result is never U+00A0, U+2028 or U+2029, and equals the input exactly when the input is none of them |
| NoteText.Plain | main.py:109 | the text `toPlainText()` returns for a text item given `s` (definition; no contract of its own; stated by `PlainClean`, `PlainIdempotent`, `PlainFixed`, `PlainKeepsWidth`) |
| NoteText.PlainClean | main.py:109 | reading back keeps the length, leaves no U+00A0, U+2028 or U+2029, and keeps every other character in place |
| NoteText.PlainIdempotent | main.py:109 | reading back a text that was already read back changes nothing |
| NoteText.PlainFixed | main.py:109 | a text reads back unchanged iff it holds none of U+00A0, U+2028, U+2029 |
| NoteText.PlainKeepsWidth | main.py:146 | reading a text back keeps its length, so the width loading computes from it is the same |
| GraphCodec.IndexOf | main.py:114-115 | `list.index`: None exactly when absent; otherwise a position holding the element, with no earlier position holding it |
| GraphCodec.IndexOfDistinct | main.py:114 | in a list without repeats, `index` of the element at position i is i |
| GraphCodec.RecOf | main.py:104-110 | the record saved for a node carries its x and y and a text of the same length (its `Plain` form; see `EncodeShape` for what the file then holds) |
| GraphCodec.Created | main.py:145-146 | the node loading makes from a record: the record's position and text, the width computed from the text (no contract of its own; `InfoFor` and `DecodeShape` state it) |
| GraphCodec.PlainRecs | main.py:109 | the records a save writes for records loaded from a file: each text in `Plain` form (definition; no contract of its own; stated by `PlainDataFixed`, `EncodeLoadedNodes`) |
| GraphCodec.PlainDataFixed | main.py:109 | every file in `Plain` form has only texts that read back unchanged, and a file whose texts read back unchanged is its own `Plain` form |
| GraphCodec.SavedCreated | main.py:109 | saving a node that was loaded from a record writes that record with its text in `Plain` form |
| GraphCodec.EncodeNodes | main.py:103-110 | one record per node, same length and order, each with that node's x, y and read-back text |
| GraphCodec.EncodeEdges | main.py:113-116 | the edge loop of saving: pairs of `list.index` positions, failing at the first unlisted endpoint (no contract of its own; stated by `EncodeEdgesShape`, `EncodeEdgesFailure`, `EncodeEdgesStopsAt`) |
| GraphCodec.EncodeEdgesShape | main.py:113-116 | saving the edges succeeds iff every endpoint is listed; then one pair per edge, in order, pair k giving in-range positions of edge k's source and target |
| GraphCodec.EncodeEdgesFailure | main.py:113-115 | a failed edge save names an edge with an unlisted endpoint, and every edge before it has both endpoints listed |
| GraphCodec.EncodeEdgesStopsAt | main.py:113-115 | the first edge with an unlisted endpoint makes the whole save fail at that edge, whatever follows |
| GraphCodec.Encode | main.py:99-116 | what saving writes: node records, then edge pairs, or the error of the first dangling edge (no contract of its own; stated by `EncodeShape`) |
| GraphCodec.EncodeShape | main.py:99-116 | save fails iff some edge has an unlisted endpoint, naming the first; otherwise the file has every node's record in order, every edge as in-range index pairs pointing at its endpoints, and every text in `Plain` form |
| GraphCodec.Resolve | main.py:138-139 | subscript `xs[i]` succeeds iff `-len <= i < len`, giving `i` or `len + i`, always in range |
| GraphCodec.ResolvePair | main.py:138-140 | the edge a loaded pair makes between the new nodes when both subscripts succeed (no contract of its own; stated by `DecodeEdgesShape`) |
| GraphCodec.DecodeEdges | main.py:137-140 | the edge loop of loading, stopping at the first pair out of range (no contract of its own; stated by `DecodeEdgesShape`, `DecodeEdgesStopsAt`) |
| GraphCodec.DecodeEdgesShape | main.py:137-140 | loading edges raises iff some pair is out of range, at the first such pair, after one edge per earlier pair; edge k joins the nodes pair k names |
| GraphCodec.DecodeEdgesStopsAt | main.py:137-143 | once a pair raises, later pairs are not processed and the earlier edges remain |
| GraphCodec.FreshIds | main.py:133-134 | loading n records creates n nodes, numbered consecutively from the first fresh identity |
| GraphCodec.InfoFor | main.py:145-158 | the node table after loading holds exactly the new identities, node i with record i's position and text and a width computed from the text |
| GraphCodec.Decode | main.py:128-140 | the state loading leaves: fresh nodes for the records, then the edges (no contract of its own; stated by `DecodeShape`, `LoadedNodesAreNew`) |
| GraphCodec.DecodeShape | main.py:128-140 | the old graph is replaced by one fresh, distinct node per record in order, each carrying that record; edges resolve pairs in order up to the first that raises |
| GraphCodec.LoadedNodesAreNew | main.py:128-134 | every node after a load is a newly created item, so nothing is merged with the old graph |
| GraphCodec.EncodeLoadedNodes | main.py:103-134 | saving freshly loaded nodes writes back the records they were loaded from, each text in `Plain` form |
| GraphCodec.LoadedRecAt | main.py:103-134 | the same, for the record at one position |
| GraphCodec.EncodeLoadedEdges | main.py:113-140 | loading in-range pairs does not raise, and saving the resulting edges writes back the same pairs |
| GraphCodec.LoadThenSave | main.py:99-143 | a file whose indices are all in range loads without raising, and saving right after writes that file with every text in `Plain` form; exactly that file when its texts read back unchanged |
| GraphCodec.SaveThenLoad | main.py:99-164 | if save succeeds, loading its output does not raise, gives back each node's x and y in list order, its text in `Plain` form and the width of its original text, each edge between the reloaded nodes at its endpoints' old positions, and saves again to the same file |
| GraphCodec.LoadAcceptsSelfLoop | main.py:160-164 | a pair `[0, 0]` loads as an edge from a node to itself |
| GraphCodec.LoadKeepsLongText | main.py:145-158 | a text the dialog rejects as too long is still loaded into a node unchanged |
| GraphCodec.LoadResolvesNegativeIndex | main.py:138-139 | pair `[-1, -2]` over two nodes loads as an edge from the second node to the first |
| NoteGraphApp.SelectedNodes | main.py:79 | never more node items than selected items |
| NoteGraphApp.SelectedNodesShape | main.py:79 | the filtered selection holds exactly the selected ellipses, without repeats when the selection has none |
| NoteGraphApp.Without | main.py:92-95 | filtering never lengthens the node list |
| NoteGraphApp.WithoutMembers | main.py:94-95 | after filtering, a node remains iff it was listed and not removed |
| NoteGraphApp.WithoutKeepsNoDup | main.py:94-95 | filtering keeps the node list free of repeats |
| NoteGraphApp.RemoveFirst | main.py:95 | `list.remove` drops exactly the first occurrence |
| NoteGraphApp.RemoveFirstIsWithout | main.py:95 | in a list without repeats, `remove` is the same as filtering that one node out |
| NoteGraphApp.DeleteStep | main.py:92-95 | one turn of the delete loop filters one more selected node out and keeps the list free of repeats |
| NoteGraphApp.DeletedEndpointBlocksSave | main.py:91-116 | deleting a node that an edge starts or ends at leaves the edge behind, so the next save fails |
| NoteGraphApp.AppendFresh | main.py:76 | appending a node not yet listed keeps the node list free of repeats |
| NoteGraphApp.NoteGraph.Valid | main.py:50-51 | the invariant of the two lists: no node listed twice, every listed node has its data, every identity in use is below the counter, every edge endpoint is a created node (a predicate; every method keeps it) |
| NoteGraphApp.NoteGraph.constructor | main.py:50-51 | a new window has no nodes and no edges |
| NoteGraphApp.NoteGraph.AddNode | main.py:56-76 | on an accepted text, exactly one fresh node is appended at the origin with that text and its width, and the identity counter moves on by one; otherwise nodes and counter unchanged; edges never change; statuses match the validation verdict |
| NoteGraphApp.NoteGraph.AddNodeAtPosition | main.py:145-158 | appends exactly one fresh node with the given position and text, no length check; edges unchanged |
| NoteGraphApp.NoteGraph.AddEdge | main.py:78-89 | an edge is added iff exactly two selected items are nodes; it is appended from the first to the second, distinct and listed, even if an equal edge exists; otherwise nothing changes |
| NoteGraphApp.NoteGraph.AddEdgeBetween | main.py:160-164 | appends the edge between two listed nodes, self-loops included; nodes unchanged |
| NoteGraphApp.NoteGraph.DeleteItem | main.py:91-97 | the node list becomes the old one without the selected nodes, in order; a node stays iff it was listed and not selected; edges are never touched |
| NoteGraphApp.NoteGraph.MoveNode | main.py:67 | dragging changes only that node's position |
| NoteGraphApp.NoteGraph.EditText | main.py:71 | in-place editing replaces only that node's text, with no length check and no width change |
| NoteGraphApp.NoteGraph.Save | main.py:99-121 | the save loops produce exactly `Encode` of the current state, failing on the first dangling edge |
| NoteGraphApp.NoteGraph.SaveNodes | main.py:103-110 | the node loop writes one record per node, in order |
| NoteGraphApp.NoteGraph.SaveEdges | main.py:113-116 | the edge loop yields `list.index` pairs for every edge or stops at the first dangling one |
| NoteGraphApp.NoteGraph.Load | main.py:123-143 | missing file: warning, state unchanged; unreadable file: raises, state unchanged; otherwise the state becomes `Decode` of the file, with only new nodes, and raises at the first index out of range |
| NoteGraphApp.NoteGraph.LoadNodes | main.py:133-134 | the node loop creates fresh nodes, one per record in order |
| NoteGraphApp.NoteGraph.LoadEdges | main.py:137-140 | the edge loop appends one edge per pair until the first pair out of range |
| NoteGraphApp.SaveLoadSave | main.py:99-143 | save, load what was saved, save again: when the first save fails the graph is unchanged; when it succeeds the graph becomes the decoded file, the load does not raise, the identity counter advances by the number of saved nodes, the node count is kept and the second save writes the same file |

## Left out

- The Qt window, its layout and the button wiring (main.py:12-47), as well
  as the `__main__` block. They are UI set-up.
- Drawing details: the ellipse rectangle, brush, pen, text colour and the
  drawn line. Only the ellipse width is kept. Add-node and loading draw
  ellipses of different height and offset, and that is not modelled.
- Dialogs and message boxes. The input dialog becomes the `ok` and `text`
  parameters. Warnings and information boxes become returned statuses.
- File I/O and JSON. The file becomes the `LoadInput` cases `NoFile`,
  `Unreadable` and `Contents(data)`. Writing the file is not modelled; a
  successful `Save` returns the data that would be written.
- Malformed JSON shapes: a top-level value that is not an object (indexing
  it with `"nodes"` raises `TypeError`), a missing `"nodes"` or `"edges"`
  key, a record without `"x"`, `"y"` or `"text"`, a `"text"` that is not a
  string (`len(text)` at main.py:146 raises `TypeError`), an `"x"` or `"y"`
  that is not a number (`setPos` at main.py:156 raises), a pair that is not
  two items, or a non-integer index. `Data` is well typed, so it cannot
  express them. The
  program raises `KeyError`, `ValueError` or `TypeError` for these only after
  `scene.clear()` and the list resets (main.py:128-138), leaving an emptied
  or partly rebuilt graph. The model has no such case: its `Unreadable`
  stands only for a file that cannot be read or parsed as JSON, which
  raises before anything changes.
- Qt's `toPlainText()` is modelled only for the replacements Qt documents
  (U+00A0 to a space, U+2028 and U+2029 to a line feed). Qt also turns
  '\r', the pair "\r\n", U+FDD0 and U+FDD1 in a text it is given into block
  breaks, which `toPlainText()` reads back as '\n'; the model does not
  capture this and takes such characters to come back unchanged. For "\r\n"
  the real text comes back one character shorter, so the same-length
  statements (`NoteText.PlainClean`, `NoteText.PlainKeepsWidth`,
  `GraphCodec.RecOf`) hold for the real program only for texts without that
  pair.
- Coordinates are modelled as `real`. They are only copied, never computed
  with, so floating-point behaviour does not arise.
- What a raised exception does to the running application after it
  propagates out of a button handler.
- The order of `scene.selectedItems()` is unspecified in Qt. It is taken to
  be the order of the `selection` parameter.
- NoteGraphApp.NoteGraph.AddEdge requires a selection without repeats whose
  selected nodes are all listed. These are facts the Qt scene guarantees,
  since deleting a node also removes it from the scene.
- NoteGraphApp.NoteGraph.DeleteItem filters a local copy of the node list
  and assigns it once at the end, rather than calling `remove` on the field
  each turn. Nothing reads the list in between, so the final state is the
  same.
- The lines drawn for edges. Only node ellipses are made selectable
  (main.py:68, main.py:150); the line from `scene.addLine` and the text
  item never are, so `scene.selectedItems()` holds only ellipses and
  deleting never removes a line: it stays drawn until a load clears the
  scene. The model keeps no lines, and `OtherItem` stands for no item the
  program can select.
