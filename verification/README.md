# text-to-graph, modelled in Dafny

The system turns long documents into knowledge graphs. The document is cut into chunks,
a language model answers each chunk with a CSV listing of nodes and edges, the answers are
parsed and merged into one graph per document, and the results are stored in SQLite.
A browser viewer loads the stored graph, cleans it, and shows a filtered part of it.

This project models the deterministic core of that pipeline as pure Dafny functions and
proves properties about them:

- `GraphMerge` (graph_utils.py) covers `sanitize`, `merge_graphs_unique` and the id coercion
  of `merge_graphs`.
- `DocumentMerge` covers `merge_all_document_graphs`, which tags each label with the
  documents it came from.
- `ResponseParser` (response_parser.py) turns a model answer into node and edge tables,
  drops orphans and reindexes.
- `PyCsv` holds the part of Python's `csv` reader that the parser relies on.
- `Segmenter` (chunk_utils.py) splits a document into units and packs them into chunks.
- `ContentStore` (sqlite_support.py) keeps the tables as sequences of rows with row ids.
- `Orchestrator` (graph_generator.py) covers batching, progress reporting, the context
  windows and the choice of extraction strategy.
- `Config` (config.py) covers `validate_config`, `set_resolution`,
  `build_extended_config` and `_sanitize_config`.
- `EdgeUtils` (edge_utils.py) covers `extract_edge_labels` and `apply_edge_mappings`.
- `ViewerUtils` (utils.js) covers the viewer's CSV parsing, graph building and
  document-id decoding.
- `DataManager` (data_renderer.js) covers the viewer's graph cleaning, filters, root
  distances and the two view modes.
- `Reach` is the breadth-first search behind the root distances.

`Wrappers`, `Text`, `Seqs` and `Sorting` are shared helpers. `Text` holds Python's `strip`,
`split`, `join` and `splitlines`, and a lower-casing that covers Basic Latin, Latin-1 and basic
Cyrillic only (see "Left out"). `Sorting` holds `sorted(set(...))`. All source
paths below are relative to the repository root.

## Model

| member | source | states |
|---|---|---|
| GraphMerge.Sanitize | graph_extractor/src/graph_utils.py:9-10 | a sanitized label contains no `\|` and has no whitespace at either end |
| GraphMerge.SanitizeIdempotent | graph_extractor/src/graph_utils.py:9-10 | sanitizing a second time changes nothing |
| Seqs.FindKey | graph_extractor/src/graph_utils.py:34-35 | the dictionary lookup by key, used for `unique_entities` here and for `entity_map` at line 171: it returns the first entity holding the key, and the key is new exactly when no entity holds it |
| GraphMerge.AddOnce | graph_extractor/src/graph_utils.py:36 | `set.add`: the members afterwards are the old members plus the new one |
| GraphMerge.AddNode | graph_extractor/src/graph_utils.py:28-48 | the id a node row receives names the entity keyed by the node's lower-cased sanitized label, and that entity's types include the row's sanitized type |
| GraphMerge.AddNodeGood | graph_extractor/src/graph_utils.py:34-45 | one node keeps the entity keys unique and equal to the lower-cased first-seen labels, and earlier entities keep their ids |
| GraphMerge.AddNodesGood | graph_extractor/src/graph_utils.py:28-48 | the node loop keeps the keys unique and maps every original id to an existing entity |
| GraphMerge.AddEdgesGood | graph_extractor/src/graph_utils.py:50-64 | the edge loop keeps edges inside the entity range, lower-cased and pairwise distinct |
| GraphMerge.AddEdgesSound | graph_extractor/src/graph_utils.py:56-64 | every edge the loop adds is the key of an input edge whose two endpoints were seen in the same graph |
| GraphMerge.AddGraphGood | graph_extractor/src/graph_utils.py:22-64 | merging one more graph keeps the merged state well formed and only extends it |
| GraphMerge.FoldGood | graph_extractor/src/graph_utils.py:22-64 | the loop over all graphs keeps the merged state well formed |
| GraphMerge.Tables | graph_extractor/src/graph_utils.py:66-88 | one output row per entity, in id order, carrying its first-seen label; the edges are the merged edge keys |
| GraphMerge.MergeUnique | graph_extractor/src/graph_utils.py:13-88 | no graphs give two empty tables; otherwise node ids are dense, no label contains `\|`, no two labels agree once lower-cased, edges are distinct, lower-cased and inside the node range |
| GraphMerge.AbsorbedFixed | graph_extractor/src/graph_utils.py:34-64 | a graph whose nodes and edges are all known already leaves the merged state unchanged |
| GraphMerge.AddGraphAbsorbs | graph_extractor/src/graph_utils.py:22-64 | after merging a graph, everything it contributes is known |
| GraphMerge.FoldAppend | graph_extractor/src/graph_utils.py:22 | merging a concatenation is merging the second list into the result of the first |
| GraphMerge.FoldAbsorbs | graph_extractor/src/graph_utils.py:22-64 | any graph of the list is known after the loop, whatever followed it |
| GraphMerge.MergeRepeatedGraph | graph_extractor/src/graph_utils.py:13-88 | repeating a graph that already occurred earlier in the list does not change the merged tables |
| GraphMerge.AddNodeFrom | graph_extractor/src/graph_utils.py:34-45 | a node row adds no entity label other than its own sanitized label |
| GraphMerge.AddGraphLabels | graph_extractor/src/graph_utils.py:28-48 | merging a graph adds only labels of that graph's node rows |
| GraphMerge.AddGraphKnown | graph_extractor/src/graph_utils.py:28-48 | after merging a graph, every node row of every graph merged so far has its entity |
| GraphMerge.AddGraphEdges | graph_extractor/src/graph_utils.py:50-64 | merging a graph adds only edge keys of that graph's own edge rows read through its id table, and earlier edges stay traceable |
| GraphMerge.FoldKeeps | graph_extractor/src/graph_utils.py:22 | a property each merge step keeps holds after the loop over all graphs |
| GraphMerge.FoldSound | graph_extractor/src/graph_utils.py:22-64 | after the loop, every label and every edge is traceable to the input rows, and all node rows are known |
| GraphMerge.IdTableFrom | graph_extractor/src/graph_utils.py:42 | an id in a graph's table maps to the entity of a row of that graph carrying that id |
| GraphMerge.MergeUniqueSound | graph_extractor/src/graph_utils.py:13-88 | every output label is the sanitized label of an input row; every output edge joins the entities of the two node rows an edge row of the same graph names, with that row's lower-cased sanitized label |
| GraphMerge.RowKinds | graph_extractor/src/graph_utils.py:30-45 | the reference list of types of a key: its members are exactly the sanitized types of the node rows, in any graph, whose lower-cased sanitized label is the key |
| GraphMerge.AddNodesKinds | graph_extractor/src/graph_utils.py:28-45 | the node loop of one graph gives each entity its old types plus exactly the sanitized types of the graph's rows with its key |
| GraphMerge.AddGraphKinds | graph_extractor/src/graph_utils.py:28-45 | after merging one more graph each entity's types are exactly those of the rows with its key in the graphs merged so far |
| GraphMerge.MergeUniqueKinds | graph_extractor/src/graph_utils.py:28-74 | a merged node's type is the `\|`-joined, sorted, distinct non-empty sanitized types of every row, in any graph, whose lower-cased sanitized label is the node's key |
| GraphMerge.IdTableLast | graph_extractor/src/graph_utils.py:47-48 | a graph's id table maps an id to the entity of the last row of that graph with that id |
| GraphMerge.MergeUniqueCover | graph_extractor/src/graph_utils.py:28-64 | nothing is lost: every node row's lower-cased sanitized label has a merged node, and every edge row whose ends are ids of rows of its own graph is an output edge between the nodes of the last rows with those ids, under its lower-cased sanitized label |
| GraphMerge.CoerceNodes | graph_extractor/src/graph_utils.py:105-108 | node rows survive exactly when their id is numeric and not negative, with their fields unchanged |
| GraphMerge.CoerceEdges | graph_extractor/src/graph_utils.py:110-116 | edge rows survive exactly when both endpoints are numeric and not negative |
| GraphMerge.CoerceNodesSingle | graph_extractor/src/graph_utils.py:105-108 | one node row is kept with its fields exactly when its id is numeric and not negative |
| GraphMerge.CoerceNodesAppend | graph_extractor/src/graph_utils.py:105-108 | node coercion works row by row, keeping the order and multiplicity of the kept rows |
| GraphMerge.CoerceEdgesSingle | graph_extractor/src/graph_utils.py:110-116 | one edge row is kept with its fields exactly when both endpoints are numeric and not negative |
| GraphMerge.CoerceEdgesAppend | graph_extractor/src/graph_utils.py:110-116 | edge coercion works row by row, keeping the order and multiplicity of the kept rows |
| DocumentMerge.FindEdge | graph_extractor/src/graph_utils.py:203-205 | the lookup in `edge_map` finds the edge with the same source, target and lower-cased label, or reports it as new |
| DocumentMerge.LabelTable | graph_extractor/src/graph_utils.py:155-165 | `node_id_to_label` holds exactly the ids of the document's rows, each with the sanitized label of a row carrying that id |
| DocumentMerge.KeysMentions | graph_extractor/src/graph_utils.py:160-169 | the keys a document contributes are exactly the lower-cased non-empty sanitized labels of its rows |
| DocumentMerge.AddDocNodesStep | graph_extractor/src/graph_utils.py:155-181 | the node loop creates or updates exactly the entities of the document's keys, records the document on them, and leaves the others alone |
| DocumentMerge.AddDocEdgesOk | graph_extractor/src/graph_utils.py:183-213 | the edge loop keeps edges inside the entity range, with lower-cased keys and distinct identities |
| DocumentMerge.AddDocEdgesFails | graph_extractor/src/graph_utils.py:193-201 | the edge loop raises exactly when some edge reaches a node whose label sanitized to nothing, because that label has no entity |
| DocumentMerge.AddDocFails | graph_extractor/src/graph_utils.py:150-213 | one document fails exactly when it has such an edge |
| DocumentMerge.MergeDocsFails | graph_extractor/src/graph_utils.py:150-213 | merging fails exactly when some document has such an edge |
| DocumentMerge.MergeDocsEntsOk | graph_extractor/src/graph_utils.py:171-181 | the merged entities have unique keys that are their lower-cased first-seen labels |
| DocumentMerge.MergeDocsExact | graph_extractor/src/graph_utils.py:150-213 | every entity's document set is exactly the set of documents with a row contributing its key, and every such key has an entity |
| DocumentMerge.AddDocExact | graph_extractor/src/graph_utils.py:150-213 | adding the next document to the merge of the earlier ones gives the merge of all of them |
| DocumentMerge.DocNumbers | graph_extractor/src/graph_utils.py:220 | `sorted(doc_set)`: strictly ascending, with the same members |
| DocumentMerge.Decimals | graph_extractor/src/graph_utils.py:220 | one non-empty string of decimal digits per document index, in order, each reading back as its index |
| DocumentMerge.TagSplit | graph_extractor/src/graph_utils.py:220-221 | splitting a final label at `\|` gives back the base label and then the printed document indices |
| DocumentMerge.SameDocNumbers | graph_extractor/src/graph_utils.py:220 | two document sets with the same members print the same |
| DocumentMerge.PositionsMembers | graph_extractor/src/graph_utils.py:150 | the positions listed are exactly those whose element satisfies the test |
| DocumentMerge.DocsOfMembers | graph_extractor/src/graph_utils.py:171-181 | the reference document list holds exactly the documents with a row contributing the key |
| DocumentMerge.MergeAll | graph_extractor/src/graph_utils.py:144-251 | fails exactly when some document has an edge to a node whose label sanitized to nothing; otherwise node ids are dense and every edge lies inside the node range |
| DocumentMerge.EntityLabel | graph_extractor/src/graph_utils.py:215-229 | an entity's output label is its first-seen label followed by exactly the documents naming it, ascending |
| DocumentMerge.MergeAllNodes | graph_extractor/src/graph_utils.py:144-229 | every output label names its documents exactly, no two nodes agree on the lower-cased label, and every labelled row of every document has a node |
| GraphMerge.TypeStringSame | graph_extractor/src/graph_utils.py:223 | two type lists with the same members give the same `\|`-joined, sorted, non-empty type string, whatever their order or repetition |
| DocumentMerge.AddDocNodesKinds | graph_extractor/src/graph_utils.py:155-181 | the node loop adds to each entity exactly the types of the document's rows contributing its key, and every entity it creates takes its label from one of those rows |
| DocumentMerge.MergeDocsKinds | graph_extractor/src/graph_utils.py:150-181 | every merged entity's types are exactly the types of the rows, in any document, contributing its key, and its label is the sanitized label of one such row |
| DocumentMerge.MergeAllKinds | graph_extractor/src/graph_utils.py:171-228 | a merged node's type is the type string of exactly the types of the rows, in any document, whose lower-cased sanitized label is the node's key |
| DocumentMerge.MergeAllLabelsFrom | graph_extractor/src/graph_utils.py:155-221 | every merged node's first-seen label is the sanitized label of some row of some document |
| DocumentMerge.AddEdgeStep | graph_extractor/src/graph_utils.py:185-213 | one edge row with known endpoints records its document on the edge with the same endpoints and lower-cased label, or appends that edge with the row's sanitized label |
| DocumentMerge.EdgesCompose | graph_extractor/src/graph_utils.py:183-213 | two consecutive runs of edge rows act as one run over both |
| DocumentMerge.AddDocEdgesStep | graph_extractor/src/graph_utils.py:183-213 | the edge loop keeps existing edges and their labels, records the document on exactly the edges some row reads as, labels each new edge from such a row, and gives every row with endpoints in `node_id_to_label` an edge |
| DocumentMerge.AddDocEdgesExact | graph_extractor/src/graph_utils.py:150-213 | adding the next document to the merge of the earlier ones keeps the edges exact |
| DocumentMerge.MergeDocsEdges | graph_extractor/src/graph_utils.py:150-213 | every merged edge records exactly the documents with a row reading as its endpoints' keys and label, takes its label from such a row, and every row with known endpoints has an edge |
| DocumentMerge.EdgeTag | graph_extractor/src/graph_utils.py:236-239 | an edge's output label is its first-seen label followed by exactly the documents with a row reading as it, ascending |
| DocumentMerge.MergeAllEdgeLabels | graph_extractor/src/graph_utils.py:183-244 | every merged edge's label names exactly the documents with a row joining the same node keys under that lower-cased label, and its first part is the sanitized label of such a row |
| DocumentMerge.MergeAllEdgesCover | graph_extractor/src/graph_utils.py:187-244 | every edge row whose endpoints its document knows has a merged edge joining the same node keys under the same lower-cased label |
| DocumentMerge.MergeAllEdgesDistinct | graph_extractor/src/graph_utils.py:203-213 | no two merged edges share source, target and lower-cased label |
| ResponseParser.RouteLineSound | graph_extractor/src/response_parser.py:22-39 | one line of the routing loop only appends, appends only stripped non-blank non-decoration lines, and a section's first line is always its header |
| ResponseParser.RouteFromSound | graph_extractor/src/response_parser.py:22-39 | the whole routing loop only appends such lines, and each non-empty section starts with its header |
| ResponseParser.RouteFromHeaders | graph_extractor/src/response_parser.py:26-33 | every header line of the response is kept, stripped, in its own section |
| ResponseParser.Route | graph_extractor/src/response_parser.py:17-39 | each section starts with its header and holds only stripped, non-blank lines that are not `#` or code-fence decorations |
| ResponseParser.RouteExact | graph_extractor/src/response_parser.py:17-39 | each section receives exactly the stripped lines that belong to it, in order: its own header lines, and every other non-blank line that is not a `#` or code-fence decoration and whose last preceding header is one of its own |
| ResponseParser.ValidRows | graph_extractor/src/response_parser.py:131-140 | the kept data rows are stripped, have exactly the expected number of CSV fields, and are no more than the input lines |
| ResponseParser.ValidRowsSingle | graph_extractor/src/response_parser.py:132-140 | a single line is kept, stripped, exactly when it is non-blank and has the expected field count |
| ResponseParser.ValidRowsAppend | graph_extractor/src/response_parser.py:131-140 | validation keeps input order: validating a concatenation concatenates the results |
| ResponseParser.ValidateRows | graph_extractor/src/response_parser.py:119-144 | `None` exactly when there are no lines or the header, split on plain commas, has the wrong number of parts; otherwise the header line followed by exactly the valid rows among the remaining lines, in order |
| ResponseParser.ValidateJoined | graph_extractor/src/response_parser.py:45-77 | validating section lines joined with line breaks is the same as validating the lines themselves |
| ResponseParser.SectionRecords | graph_extractor/src/response_parser.py:44-55 | a section yields records only when at least one data row survives validation and `read_csv` accepts the rows, each record with exactly three columns |
| ResponseParser.RowColumns | graph_extractor/src/response_parser.py:52 | `read_csv` pads a short row with missing values and, in a frame wider than the header, leaves the leading fields to the index: column c is field w-3+c when the row has it, missing otherwise |
| ResponseParser.SectionRecordsExact | graph_extractor/src/response_parser.py:44-86 | a section's records are the columns `read_csv` reads from its valid data rows, in order, split without skipping initial spaces; there are none when the header has the wrong width, no data row is valid, or a row has more fields than the frame (the width of the header, or of the first data row when that is wider) |
| ResponseParser.SectionRecordsNoSpace | graph_extractor/src/response_parser.py:44-86 | when no valid row holds a space, the records are exactly the field lists the validation read |
| ResponseParser.NodeTable | graph_extractor/src/response_parser.py:44-71 | the node rows are the section's records (as `read_csv` reads them) taken column by column as id, entity and category, in order; the table is refused exactly when there are no records, an id repeats or an id is missing |
| ResponseParser.EdgeTable | graph_extractor/src/response_parser.py:75-86 | the edge rows are the section's records (as `read_csv` reads them) taken column by column as source, target and relationship, in order; the table is refused exactly when there are no records |
| ResponseParser.DropDuplicates | graph_extractor/src/response_parser.py:102 | `drop_duplicates`: the first occurrence of each row, in input order, so no row repeats and every input row is present |
| ResponseParser.DropDuplicatesDistinct | graph_extractor/src/response_parser.py:102 | a table without repeated rows is left unchanged, so deduplicating twice is deduplicating once |
| ResponseParser.KeepReferenced | graph_extractor/src/response_parser.py:184-189 | the kept nodes are exactly those whose id some edge mentions, and their ids stay distinct |
| ResponseParser.KeepReferencedAppend | graph_extractor/src/response_parser.py:189-191 | orphan removal keeps the node order |
| ResponseParser.IndexOf | graph_extractor/src/response_parser.py:191-193 | the new id of an old id is the position of its node among the kept nodes, and an id without a node has none |
| ResponseParser.RemoveOrphans | graph_extractor/src/response_parser.py:178-207 | fails exactly when an edge names an id without a node; otherwise nodes are renumbered 0..N-1 in order with their fields kept, and every edge keeps its label and points at the renumbered nodes of its old endpoints |
| ResponseParser.RemoveOrphansWellFormed | graph_extractor/src/response_parser.py:178-207 | with distinct ids and distinct edges the result has dense ids, endpoints in range, no node off every edge, and no repeated edge |
| ResponseParser.ParseText | graph_extractor/src/response_parser.py:10-116 | text without lines gives two empty tables; a result with both tables is well formed; a node table returned alone has distinct, non-empty ids |
| ResponseParser.ParseTextRows | graph_extractor/src/response_parser.py:87-116 | a successful parse of non-empty text is the orphan removal of the section's node rows and the deduplicated edge rows, under the renamed node columns |
| ResponseParser.EdgeHeaderMismatchFails | graph_extractor/src/response_parser.py:95-116 | an edge header other than exactly `source,target,relationship` leaves no `label` column, so a parse whose sections are otherwise readable fails |
| ResponseParser.EdgeHeaderPrefix | graph_extractor/src/response_parser.py:30 | a header `source,target,` + name passes the edge-header test exactly when the name starts with `relationship`, so `relationship_type` passes without being the edge header |
| ResponseParser.LabelColumnIffHeader | graph_extractor/src/response_parser.py:95-97 | under the edge-header prefix, renaming produces a `label` column exactly when the header is the edge header itself |
| ResponseParser.BadNodeSectionFails | graph_extractor/src/response_parser.py:44-49 | a node section that yields no table fails the parse, whatever the edges |
| ResponseParser.BadEdgeSectionKeepsNodes | graph_extractor/src/response_parser.py:75-80 | an edge section without valid rows returns the node table as read, without an edge table |
| ResponseParser.NoEdgeSectionEmpties | graph_extractor/src/response_parser.py:87-189 | without an edge section every node is an orphan, so a successful parse gives two empty tables |
| ResponseParser.NonEmptyStripped | graph_extractor/src/response_parser.py:165 | the kept entities are trimmed and non-empty |
| ResponseParser.ParseNodes | graph_extractor/src/response_parser.py:147-175 | a non-string or blank response gives nothing; a result is a non-empty list of trimmed, non-empty entities |
| ResponseParser.NonEmptyStrippedKeeps | graph_extractor/src/response_parser.py:165 | entities that are already trimmed and non-empty are all kept |
| ResponseParser.ParseNodesRoundTrip | graph_extractor/src/graph_generator.py:85-96 | the quoted, comma-joined entity list stored after phase one parses back to the same entities when none contains a quote |
| PyCsv.FieldsNoSpace | graph_extractor/src/response_parser.py:52 | on a line without spaces, splitting with and without `skipinitialspace` gives the same fields, so the validation (line 136) and `read_csv` agree there |
| PyCsv.FieldsSpaced | graph_extractor/src/response_parser.py:52 | `a, b` is `a`, `b` for the validation (line 136) but `a`, ` b` for `read_csv` |
| PyCsv.FieldsQuoteAfterSpace | graph_extractor/src/response_parser.py:52 | `a, "b,c"` is two fields for the validation (line 136) but three for `read_csv`, which reads a quote after a space as an ordinary character |
| PyCsv.QuotedListRoundTrip | graph_extractor/src/graph_generator.py:90 | the first record of a quoted, comma-joined list of quote-free items is that list |
| Segmenter.FirstBreak | graph_extractor/src/chunk_utils.py:73-74 | the first place at or after a position where `(?<=[.!?])\s+` can match, and no earlier one |
| Segmenter.SpaceRunEnd | graph_extractor/src/chunk_utils.py:74 | the greedy `\s+` ends at the first non-whitespace character |
| Segmenter.SplitSentences | graph_extractor/src/chunk_utils.py:73-74 | `re.split` always returns at least one piece |
| Segmenter.SplitSentencesSpec | graph_extractor/src/chunk_utils.py:73-74 | the pieces with the cut whitespace runs put back in between give the input again; every cut is a non-empty whitespace run; every piece but the last ends in `.`, `!` or `?`; no piece contains a break; a piece after a cut does not start with whitespace |
| Segmenter.NonBlank | graph_extractor/src/chunk_utils.py:71-86 | the kept pieces are non-empty and trimmed, and there are no more of them than pieces |
| Segmenter.NonBlankSingle | graph_extractor/src/chunk_utils.py:71 | one piece gives its strip when that is non-empty and nothing otherwise |
| Segmenter.NonBlankAppend | graph_extractor/src/chunk_utils.py:71 | the filter works piece by piece, so it keeps the order and multiplicity of the kept pieces |
| Segmenter.CollectUnits | graph_extractor/src/chunk_utils.py:79-86 | with the flag never seen, all units of all paragraphs in order; a flag seen at the first poll gives none; a shortfall happens only after a poll that saw the flag |
| Segmenter.AllUnitsClean | graph_extractor/src/chunk_utils.py:71-86 | every unit is non-empty, trimmed and a single line |
| Segmenter.CollectUnitsClean | graph_extractor/src/chunk_utils.py:79-86 | the units gathered before an abort are non-empty and trimmed too |
| Segmenter.UnitsRoundTrip | graph_extractor/src/chunk_utils.py:71-86 | units that are trimmed, single lines without a sentence break, written one per paragraph, come back as they were |
| Segmenter.AddTextOk | graph_extractor/src/chunk_utils.py:26-31 | `add_text` appends the unit to the open chunk with one space and keeps the rows unchanged |
| Segmenter.FinalizeRows | graph_extractor/src/chunk_utils.py:33-53 | `finalize_chunk` appends one row with the open text and keeps the rows numbered and chained |
| Segmenter.Fold | graph_extractor/src/chunk_utils.py:117-125 | with two rows or more, a last row under the minimum is merged into the one before; otherwise the rows stay as they are |
| Segmenter.PackOk | graph_extractor/src/chunk_utils.py:92-112 | the packing loop keeps the rows numbered and chained, closes only rows of at least the minimum, and the rows and open text spell all the units |
| Segmenter.PackOutcome | graph_extractor/src/chunk_utils.py:92-112 | packing aborts only under a raised flag, loops forever only with a minimum of 0 and no flag, and a finished run is the run without a flag |
| Segmenter.PackAborts | graph_extractor/src/chunk_utils.py:94-95 | only a raised flag aborts the packing loop |
| Segmenter.PackSpins | graph_extractor/src/chunk_utils.py:103-112 | the loop can fail to progress only when the minimum is 0 and no flag can stop it |
| Segmenter.PackIgnoresClock | graph_extractor/src/chunk_utils.py:92-112 | a run that finishes is the same as a run without any flag |
| Segmenter.FinishRows | graph_extractor/src/chunk_utils.py:114-115 | after closing the open chunk, every row but the last holds at least the minimum |
| Segmenter.PackCapped | graph_extractor/src/chunk_utils.py:102-112 | the open chunk never holds more than `max_token_size` tokens, and a closed row holds more only when it was closed by force: a unit that did not fit was taken while fewer than the minimum were open, so the row is under the minimum plus that unit |
| Segmenter.FinishCapped | graph_extractor/src/chunk_utils.py:114-115 | the row closed at the end holds at most `max_token_size` tokens |
| Segmenter.FoldCapped | graph_extractor/src/chunk_utils.py:117-125 | after folding, every row keeps the upper bound except a merged last row, whose size is recounted from its text; with no merge, every row keeps it |
| Segmenter.FinishText | graph_extractor/src/chunk_utils.py:114-115 | after closing the open chunk, the rows alone spell all the units |
| Segmenter.FoldRows | graph_extractor/src/chunk_utils.py:117-125 | folding keeps the rows numbered and chained, every row but the last measured and filled |
| Segmenter.FoldText | graph_extractor/src/chunk_utils.py:117-125 | folding leaves the space-joined text of the rows unchanged |
| Segmenter.PackUnitsRows | graph_extractor/src/chunk_utils.py:88-125 | the packed rows are numbered, chained, measured and filled, and every row holds at most `max_token_size` tokens unless closed by force, save a merged last row |
| Segmenter.PackUnitsText | graph_extractor/src/chunk_utils.py:88-125 | the packed rows, joined with spaces, spell the units joined with spaces |
| Segmenter.PackUnitsSeen | graph_extractor/src/chunk_utils.py:92-95 | no units give an empty table; with units, a flag already raised abandons the run |
| Segmenter.CollectText | graph_extractor/src/chunk_utils.py:79-125 | the rows packed from the gathered units spell all the document's units, unless an abort left no rows |
| Segmenter.CreateChunksRows | graph_extractor/src/chunk_utils.py:56-135 | the table's rows are numbered from 0 and belong to the document; token positions run on from 0, each row starting one past the previous end; every row but the last holds at least `target / 2` tokens; every row holds at most `int(target * 1.1)` tokens unless it was closed by force (fewer than the minimum open before its last unit), save a last row that folding merged and recounted |
| Segmenter.CreateChunksText | graph_extractor/src/chunk_utils.py:56-135 | the row texts joined with spaces are the document's units joined with spaces, whenever no abort intervened or any row exists |
| Segmenter.CreateChunksAbort | graph_extractor/src/chunk_utils.py:56-135 | without a flag and with a target of at least 2 a table is always produced; a flag raised before the first poll gives an empty table; a run is abandoned only under a flag; a non-empty table is the one a run without the flag produces |
| Tables.NextId | graph_extractor/src/sqlite_support.py:145 | the next rowid is positive and larger than every rowid in the table, and one past some rowid when the table is not empty |
| Tables.Insert | graph_extractor/src/sqlite_support.py:140-145 | `INSERT` appends one row whose rowid is larger than all before it |
| Tables.Find | graph_extractor/src/sqlite_support.py:128-137 | `fetchone()`: the first row with the key, or none |
| Tables.InsertOrdered | graph_extractor/src/sqlite_support.py:140-145 | inserting keeps rows in rowid order |
| Tables.InsertUnique | graph_extractor/src/sqlite_support.py:140-145 | inserting a row whose key is absent keeps keys unique |
| Tables.FindOnly | graph_extractor/src/sqlite_support.py:128-137 | with unique keys, the row found is the only one with the key |
| Tables.GetOrInsertFinds | graph_extractor/src/sqlite_support.py:115-151 | find-or-insert returns the rowid of a row with the key and keeps rows ordered |
| Tables.GetOrInsertKeeps | graph_extractor/src/sqlite_support.py:115-151 | find-or-insert changes nothing when the key is present, and keeps keys unique |
| Tables.GetOrInsertTwice | graph_extractor/src/sqlite_support.py:115-151 | find-or-insert a second time returns the same rowid and changes nothing |
| Tables.UpdateWhereValid | graph_extractor/src/sqlite_support.py:355-364 | an in-place `UPDATE` keeps rowid order, and keeps keys unique when the update keeps keys |
| Tables.UpsertKeeps | graph_extractor/src/sqlite_support.py:333-378 | the upsert keeps rows ordered and keys unique |
| Tables.UpsertResult | graph_extractor/src/sqlite_support.py:333-378 | after the upsert the row under the key is the existing row updated in place, or the inserted row under the returned rowid |
| Tables.UpsertOthers | graph_extractor/src/sqlite_support.py:333-378 | the upsert leaves every row with another key as it was |
| Tables.DeleteKeeps | graph_extractor/src/sqlite_support.py:517 | deleting rows keeps the rest ordered with unique keys |
| Tables.DeleteOnly | graph_extractor/src/sqlite_support.py:509-517 | with unique keys, deleting the row found for a key leaves no row with that key |
| Tables.ReplaceKeeps | graph_extractor/src/sqlite_support.py:509-525 | delete-then-insert keeps rows ordered and keys unique |
| Tables.ReplaceResult | graph_extractor/src/sqlite_support.py:509-525 | after delete-then-insert the new last row is the only one with the key |
| ContentStore.GetOrCreateConfig | graph_extractor/src/sqlite_support.py:115-151 | without a connection, `None` and no change; with one, an id |
| ContentStore.GetDocumentId | graph_extractor/src/sqlite_support.py:154-177 | without a connection there is no id |
| ContentStore.FindId | graph_extractor/src/sqlite_support.py:180-201 | the row with the rowid, or none |
| ContentStore.GetDocumentText | graph_extractor/src/sqlite_support.py:180-204 | without a connection there is no text |
| ContentStore.InsertDocument | graph_extractor/src/sqlite_support.py:207-238 | without a connection, `None` and no change; with one, an id |
| ContentStore.EntityResponseExists | graph_extractor/src/sqlite_support.py:275-301 | without a connection, `False` |
| ContentStore.ResponseExists | graph_extractor/src/sqlite_support.py:304-330 | without a connection, `False` |
| ContentStore.InsertEntityResponse | graph_extractor/src/sqlite_support.py:333-378 | without a connection, `None` and no change; with one, an id |
| ContentStore.InsertResponse | graph_extractor/src/sqlite_support.py:381-423 | without a connection, `None` and no change; with one, an id |
| ContentStore.AllEntityResponsesFor | graph_extractor/src/sqlite_support.py:426-456 | without a connection, `[]` |
| ContentStore.AllResponsesFor | graph_extractor/src/sqlite_support.py:459-489 | without a connection, `[]` |
| ContentStore.InsertGraph | graph_extractor/src/sqlite_support.py:492-531 | without a connection, `None` and no change |
| ContentStore.EmptyValid | graph_extractor/src/sqlite_support.py:46-111 | the empty database is consistent |
| ContentStore.ConfigTwice | graph_extractor/src/sqlite_support.py:115-151 | asking twice for the same six-field configuration returns the same id and adds no row |
| ContentStore.ConfigFound | graph_extractor/src/sqlite_support.py:128-147 | the returned id names a row holding exactly that configuration, and the store stays consistent |
| ContentStore.DocumentKnown | graph_extractor/src/sqlite_support.py:215-225 | a hash already stored returns its id and leaves the store, text and name included, unchanged |
| ContentStore.DocumentFound | graph_extractor/src/sqlite_support.py:154-238 | a stored document is found again by its hash under the id the insertion returned |
| ContentStore.ResponseStored | graph_extractor/src/sqlite_support.py:381-423 | after storing a response it exists for its key exactly when there is a connection |
| ContentStore.ResponseUpsert | graph_extractor/src/sqlite_support.py:381-423 | the row under (document, chunk, configuration) holds the new payload under the returned id, which is the old id on an update; every other row is unchanged; the store stays consistent |
| ContentStore.EntityResponseUpsert | graph_extractor/src/sqlite_support.py:333-378 | the same upsert guarantees for phase-one responses, and the response then exists |
| ContentStore.ResponsesForExact | graph_extractor/src/sqlite_support.py:459-489 | the rows returned are exactly those of the document under the configuration, and `[]` exactly when there are none |
| ContentStore.EntityResponsesForExact | graph_extractor/src/sqlite_support.py:426-456 | the phase-one rows returned are exactly those of the document under the configuration, and `[]` exactly when there are none |
| ContentStore.DocumentTextExact | graph_extractor/src/sqlite_support.py:180-204 | the text returned is that of the document row with the rowid, and `None` exactly when no row has it |
| ContentStore.DocumentTextStored | graph_extractor/src/sqlite_support.py:180-238 | a document inserted under a new hash reads back its text under the returned id; under a known hash the returned id reads back the text stored first |
| ContentStore.GraphReplaced | graph_extractor/src/sqlite_support.py:492-527 | for a known document, exactly one stored graph belongs to the pair afterwards, under the returned id, holding the new tables |
| ContentStore.GraphRefused | graph_extractor/src/sqlite_support.py:497-505 | an unknown document id or a missing connection stores nothing and returns `None` |
| ContentStore.InsertGraphBound | graph_extractor/src/sqlite_support.py:520-531 | binding a `dict` as the metadata parameter always ends in `None`: the `sqlite3.Error` raised by the INSERT is caught |
| ContentStore.MergedGraphLost | graph_extractor/src/graph_utils.py:127-134 | as written, `merge_graphs` stores nothing for a known document: the call returns `None`, and once the open transaction is committed no graph of the pair remains, the earlier one deleted |
| ContentStore.StoreMergedGraph | graph_extractor/src/graph_utils.py:127-134 | the corrected call serializes the metadata to text before binding it, and then behaves as `insert_graph` with that text |
| ContentStore.MergedGraphStored | graph_extractor/src/graph_utils.py:127-134 | with the metadata serialized, a merged graph for a known document is stored under the returned id as the pair's only graph, holding the new tables |
| Orchestrator.Batches | graph_extractor/src/graph_generator.py:136-141 | every batch holds between one and `max_concurrent_requests` jobs |
| Orchestrator.BatchesConcat | graph_extractor/src/graph_generator.py:136-141 | the batches, joined in order, are exactly the job list |
| Orchestrator.BatchesFull | graph_extractor/src/graph_generator.py:136-141 | every batch except the last holds exactly `max_concurrent_requests` jobs |
| Orchestrator.RunInBatches | graph_extractor/src/graph_generator.py:108-134 | an empty job list starts nothing and reports 100% once when a callback is given; without a callback nothing is ever reported |
| Orchestrator.SilentBatches | graph_extractor/src/graph_generator.py:128-130 | the batch loop reports nothing when no callback is given |
| Orchestrator.RunBatchesTracks | graph_extractor/src/graph_generator.py:136-157 | the batch loop keeps the reports well-formed; the jobs started are a prefix of whole batches, all of them finish, and the loop ends early only once the abort flag is raised |
| Orchestrator.RunInBatchesTracks | graph_extractor/src/graph_generator.py:101-157 | reported percentages never decrease, never pass 100% and stop after an error; the jobs started are whole batches from the front and all finish; fewer than all start only with the abort flag raised |
| Orchestrator.CleanRun | graph_extractor/src/graph_generator.py:101-157 | with a callback, no failing job and no outside abort, every job runs, the flag stays down and the reports are exactly `Steps(n, n)`: 0%, 1/n, ..., 100% |
| Orchestrator.OutsideAbortMutes | graph_extractor/src/graph_generator.py:116-130 | once the outside abort is seen after a job, the rest of the batch still finishes but only error reports follow and the flag stays raised |
| Orchestrator.OutsideAbortStops | graph_extractor/src/graph_generator.py:136-139 | an outside abort seen at a batch check starts nothing more and reports nothing more |
| Orchestrator.RaiseInBatch | graph_extractor/src/graph_generator.py:119-126 | a job that raises with a callback present, or times out, leaves the abort flag raised after its batch |
| Orchestrator.RaisedStops | graph_extractor/src/graph_generator.py:136-139 | once a batch raises the flag, no job of a later batch starts |
| Orchestrator.RaiseStops | graph_extractor/src/graph_generator.py:117-157 | from the whole run: a raising job caps the jobs started at the batches up to and including its own |
| Orchestrator.Tail | graph_extractor/src/graph_generator.py:266-268 | Python's `s[-n:]`: a suffix of the text, of length n, or the whole text when n is 0 or too large |
| Orchestrator.Head | graph_extractor/src/graph_generator.py:273-275 | Python's `s[:n]`: a prefix of the text, of length n or the whole text |
| Orchestrator.SinglePhaseWindowParts | graph_extractor/src/graph_generator.py:264-275 | the single-phase window is the chunk between a suffix of the previous chunk (none for the first) and a prefix of the next (none for the last) |
| Orchestrator.ZeroOverlapQuirk | graph_extractor/src/graph_generator.py:264-275 | when both slice lengths round down to 0, the window is the whole previous chunk followed by the chunk, with nothing of the next |
| Orchestrator.TwoPhaseWindowSpan | graph_extractor/src/graph_generator.py:194-199 | the two-phase window is the concatenation of the chunks at distance at most one |
| Orchestrator.Indices | graph_extractor/src/graph_generator.py:258-262 | the indices kept are increasing, within range, satisfy the filter, and include every index that does |
| Orchestrator.IndexedExact | graph_extractor/src/graph_generator.py:258-280 | a job for chunk i exactly when the filter keeps i, in chunk order, each job built for its own chunk |
| Orchestrator.IndexedAll | graph_extractor/src/graph_generator.py:258-280 | with nothing filtered out, every chunk gets a job |
| Orchestrator.AddRowAt | graph_extractor/src/graph_generator.py:31-44 | adding one stored row extends only its own chunk's entry, appending the row's entities; a row with an empty entity string is skipped |
| Orchestrator.NodeMapExact | graph_extractor/src/graph_generator.py:29-47 | when every stored entity string parses, the map's chunks are exactly those with a non-empty row, each mapped to all its rows' entities in row order |
| Orchestrator.SinglePhaseJobsExact | graph_extractor/src/graph_generator.py:247-280 | a single-phase job for chunk i exactly when its response is not cached or caching is off, in chunk order, each sending the chunk's window |
| Orchestrator.SinglePhaseEveryChunk | graph_extractor/src/graph_generator.py:258-262 | with caching off or no store, every chunk gets a single-phase job |
| Orchestrator.EntityPhaseJobsExact | graph_extractor/src/graph_generator.py:215-233 | a phase-one job for chunk i exactly when no entity list is cached for it or caching is off; each sends the bare chunk with padding 0 |
| Orchestrator.RelationPhaseJobsExact | graph_extractor/src/graph_generator.py:160-204 | a phase-two job for chunk i exactly when it is uncached and has phase-one entities; each sends the three-chunk window and that chunk's entities |
| Orchestrator.ProcessChunkOutcome | graph_extractor/src/graph_generator.py:50-75 | a chunk job raises exactly when the model call timed out or raised another error, and is flagged as a timeout exactly for the timeout; without an answer that parses (no reply, or tables that do not parse) the store is unchanged; an answer that parses is stored and the response then exists whenever the store is online |
| Orchestrator.ProcessEntities | graph_extractor/src/graph_generator.py:78-98 | a phase-one job raises exactly when the model call timed out or raised another error, flagged as a timeout exactly for the timeout; with no reply or an answer without an entity list the store is unchanged |
| Orchestrator.EntitiesRoundTrip | graph_extractor/src/graph_generator.py:78-96 | the entity list stored by phase one is read back by phase two as the same list, for entities without a double quote |
| Orchestrator.DocumentPhasesPadding | graph_extractor/src/graph_generator.py:222-243 | a positive padding runs two phases and otherwise one; phase-one jobs see padding 0, phase-two jobs see the configured padding again |
| ViewerUtils.TrimStart | webpages/standalone_graph_viewer/template/dev/utils.js:22 | the result is a suffix of the text that does not start with white space, and only white space was dropped |
| ViewerUtils.TrimEnd | webpages/standalone_graph_viewer/template/dev/utils.js:22 | the result is a prefix of the text that does not end with white space, and only white space was dropped |
| ViewerUtils.JsTrim | webpages/standalone_graph_viewer/template/dev/utils.js:22 | JavaScript's `trim`: the result has no white space at either end |
| ViewerUtils.JsTrimInfix | webpages/standalone_graph_viewer/template/dev/utils.js:22 | trimming keeps an infix of the text and removes only white space before and after it |
| ViewerUtils.JsTrimKeeps | webpages/standalone_graph_viewer/template/dev/utils.js:22 | trimming a trimmed text changes nothing |
| ViewerUtils.ReplaceCr | webpages/standalone_graph_viewer/template/dev/utils.js:3 | every carriage return becomes a line feed and every other character stays |
| ViewerUtils.NormalizeSpec | webpages/standalone_graph_viewer/template/dev/utils.js:3 | after normalising no carriage return is left, and a text without one is left unchanged |
| ViewerUtils.NormalizeCrLf | webpages/standalone_graph_viewer/template/dev/utils.js:3 | a Windows line break becomes a single line feed, not two |
| ViewerUtils.StepNoEmpty | webpages/standalone_graph_viewer/template/dev/utils.js:10-34 | the scanning loop never saves an empty record |
| ViewerUtils.RecordsShaped | webpages/standalone_graph_viewer/template/dev/utils.js:1-46 | reading always yields at least one record (the header), every record non-empty and every field trimmed |
| ViewerUtils.StepAppend | webpages/standalone_graph_viewer/template/dev/utils.js:10-34 | reading two texts in a row is reading their concatenation when no doubled quote straddles the seam |
| ViewerUtils.EscapedScan | webpages/standalone_graph_viewer/template/dev/utils.js:14-20 | inside quotes, a value with doubled quotes followed by the closing quote reads back as the value, out of quoted mode |
| ViewerUtils.FieldScan | webpages/standalone_graph_viewer/template/dev/utils.js:10-34 | one written field, read at the start of a field, becomes the pending value exactly |
| ViewerUtils.RowsScan | webpages/standalone_graph_viewer/template/dev/utils.js:10-42 | the records of a written table, read from the start, come back in order |
| ViewerUtils.RecordsRoundTrip | webpages/standalone_graph_viewer/template/dev/utils.js:1-46 | writing a table and reading it back gives its records with every field trimmed, and the records themselves when they were already trimmed |
| ViewerUtils.TrailingNewline | webpages/standalone_graph_viewer/template/dev/utils.js:36-42 | a line break at the end of the text adds one more record holding a single empty field |
| ViewerUtils.RowObject | webpages/standalone_graph_viewer/template/dev/utils.js:49-55 | a row object has exactly the header names as keys |
| ViewerUtils.RowObjectAt | webpages/standalone_graph_viewer/template/dev/utils.js:50-53 | each header maps to the field under its last occurrence, or `""` past the end of the row |
| ViewerUtils.ParseRecords | webpages/standalone_graph_viewer/template/dev/utils.js:44-57 | the headers are the first record and there is one row object per later record, in order |
| ViewerUtils.ParseCsvAt | webpages/standalone_graph_viewer/template/dev/utils.js:1-58 | with distinct headers, every data object holds each row's field under the header of its column |
| ViewerUtils.ParseCsvRoundTrip | webpages/standalone_graph_viewer/template/dev/utils.js:1-58 | a written table with distinct headers reads back to objects holding each row's fields by header |
| ViewerUtils.Parts | webpages/standalone_graph_viewer/template/dev/utils.js:76 | the parts kept are non-empty and contain no separator |
| ViewerUtils.PartsOfJoin | webpages/standalone_graph_viewer/template/dev/utils.js:76 | for any bar-free pieces a string is joined from, its parts are exactly the non-empty pieces, in their order |
| ViewerUtils.PartsJoin | webpages/standalone_graph_viewer/template/dev/utils.js:76 | joining non-empty bar-free parts with `\|` and splitting them again gives them back |
| ViewerUtils.PartsAppend | webpages/standalone_graph_viewer/template/dev/utils.js:76 | the parts of `a\|b` are the parts of `a` followed by those of `b` |
| ViewerUtils.ExtractDocumentIds | webpages/standalone_graph_viewer/template/dev/utils.js:62-79 | document ids are attached exactly when the label is truthy, are never empty and hold no empty id; an object without a label is left untouched |
| ViewerUtils.ExtractTag | webpages/standalone_graph_viewer/template/dev/utils.js:65-73 | a label written by the document merger reads back as its base label and the list of its documents' numbers |
| ViewerUtils.ExtractUntagged | webpages/standalone_graph_viewer/template/dev/utils.js:69-71 | a label without a separator keeps its text and is attributed to document "0" |
| ViewerUtils.ExtractTypes | webpages/standalone_graph_viewer/template/dev/utils.js:75-78 | a type column written by the graph merger reads back as its sorted, distinct, non-empty types |
| ViewerUtils.BuildGraph | webpages/standalone_graph_viewer/template/dev/utils.js:80-110 | one view node per node row and one view edge per edge row, in order, carrying the id, source and target columns |
| Reach.Layer | webpages/standalone_graph_viewer/template/dev/data_renderer.js:534-552 | the next level holds exactly the nodes without a distance that lie one arc after the current level |
| Reach.Label | webpages/standalone_graph_viewer/template/dev/data_renderer.js:545-548 | the new level gets distance d + 1 and every earlier distance stays |
| Reach.InvStep | webpages/standalone_graph_viewer/template/dev/data_renderer.js:534-552 | labelling a level keeps the roots at 0 and only labels nodes, with no distance beyond d + 1 |
| Reach.ExpandSpec | webpages/standalone_graph_viewer/template/dev/data_renderer.js:531-552 | from a consistent intermediate state the search ends with the roots at 0, only nodes labelled, every label one arc after a smaller one, and every arc out of a labelled node settled |
| Reach.DistancesSpec | webpages/standalone_graph_viewer/template/dev/data_renderer.js:487-553 | the finished distances have exactly the roots at 0, label only nodes, are supported by an arc from one level lower and are closed along every arc |
| Reach.WalkBound | webpages/standalone_graph_viewer/template/dev/data_renderer.js:534-552 | closed distances never exceed the length of any walk from a root |
| Reach.WalkTo | webpages/standalone_graph_viewer/template/dev/data_renderer.js:534-552 | a supported distance comes with a walk from a root of exactly that length |
| Reach.DistancesShortest | webpages/standalone_graph_viewer/template/dev/data_renderer.js:487-553 | a node gets a distance exactly when some walk from a root reaches it, and the distance is the length of the shortest such walk |
| DataManager.Ids | webpages/standalone_graph_viewer/template/dev/data_renderer.js:222 | the id set holds exactly the ids of the nodes |
| DataManager.CountLabels | webpages/standalone_graph_viewer/template/dev/data_renderer.js:224-227 | the tally object holds an own entry for exactly the labels of the list other than `__proto__`; its value is text exactly for a name inherited from `Object.prototype`, and otherwise a count of at least 1 |
| DataManager.CountsRepeat | webpages/standalone_graph_viewer/template/dev/data_renderer.js:224-233 | the tally shows a count above 1 exactly when two positions of the list hold the same label that is not a name inherited from `Object.prototype` (for those, `+ 1` yields text, and `count > 1` is false) |
| DataManager.Sanitize | webpages/standalone_graph_viewer/template/dev/data_renderer.js:205-257 | fails exactly when two kept nodes share a label that is not an inherited name such as `constructor` or `__proto__`; otherwise keeps exactly the nodes with truthy label and type, and exactly the edges between kept nodes with a truthy label |
| DataManager.SanitizeClean | webpages/standalone_graph_viewer/template/dev/data_renderer.js:205-257 | a graph that is already clean passes through unchanged |
| DataManager.SanitizeNodesSingle | webpages/standalone_graph_viewer/template/dev/data_renderer.js:205-219 | a lone node is kept exactly when its label and type are truthy |
| DataManager.SanitizeNodesAppend | webpages/standalone_graph_viewer/template/dev/data_renderer.js:205-233 | the kept nodes of a concatenation are those of each part, in order and with multiplicity; a graph that passes has parts that pass |
| DataManager.SanitizeEdgesSingle | webpages/standalone_graph_viewer/template/dev/data_renderer.js:221-253 | a lone edge is kept exactly when both ends are kept node ids and its label is truthy |
| DataManager.SanitizeEdgesAppend | webpages/standalone_graph_viewer/template/dev/data_renderer.js:236-257 | the kept edges of a concatenation are those of each part, in order and with multiplicity |
| DataManager.SanitizeIdempotent | webpages/standalone_graph_viewer/template/dev/data_renderer.js:205-257 | sanitizing twice is sanitizing once |
| DataManager.SanitizeCaseSensitive | webpages/standalone_graph_viewer/template/dev/data_renderer.js:224-233 | two kept nodes pass together exactly when their labels differ as written or name an inherited property, so labels differing only in case are both kept, although the error message says case-insensitive, and two nodes both labelled `constructor` pass |
| DataManager.KeptTypesSplit | webpages/standalone_graph_viewer/template/dev/data_renderer.js:215-218 | a node built from a table row and kept by the sanitizer has its type split into a list |
| DataManager.Reset | webpages/standalone_graph_viewer/template/dev/data_renderer.js:290-296 | every listed key gets `resetTo` when given, and otherwise keeps its value or starts unchecked; unlisted entries stay |
| DataManager.ResetIdempotent | webpages/standalone_graph_viewer/template/dev/data_renderer.js:323-329 | listing the same keys again changes nothing |
| DataManager.ResetKeeps | webpages/standalone_graph_viewer/template/dev/data_renderer.js:366-372 | without `resetTo` no existing entry changes value, and which boxes are checked stays the same |
| DataManager.Narrow | webpages/standalone_graph_viewer/template/dev/data_renderer.js:281-284 | with a non-empty search text, exactly the entries whose lower-cased text contains the lower-cased search text are kept |
| DataManager.NarrowUnique | webpages/standalone_graph_viewer/template/dev/data_renderer.js:317-320 | narrowing keeps a list free of repeats |
| DataManager.Flip | webpages/standalone_graph_viewer/template/dev/data_renderer.js:410-425 | exactly one check box flips, and every other entry stays |
| DataManager.FlipTwice | webpages/standalone_graph_viewer/template/dev/data_renderer.js:422-425 | flipping an existing check box twice restores the filter |
| DataManager.SelectedNodes | webpages/standalone_graph_viewer/template/dev/data_renderer.js:433-437 | the selected nodes are exactly the nodes whose label is checked |
| DataManager.Touching | webpages/standalone_graph_viewer/template/dev/data_renderer.js:347-351 | exactly the edges with the source or target among the chosen nodes |
| DataManager.DistinctEdgeLabels | webpages/standalone_graph_viewer/template/dev/data_renderer.js:353-358 | each label of the edges exactly once |
| DataManager.EdgeLabelsListed | webpages/standalone_graph_viewer/template/dev/data_renderer.js:337-363 | the listed edge labels, without repeats, are exactly the labels of edges touching the chosen nodes (all nodes in mode 2 or with the link off) that match the search text |
| DataManager.UpdateEdgeLabels | webpages/standalone_graph_viewer/template/dev/data_renderer.js:334-377 | only the edge list and the edge filter change: the list is the listed labels, and the filter is reset on them |
| DataManager.TypedNodes | webpages/standalone_graph_viewer/template/dev/data_renderer.js:305-313 | the nodes listed are those with a checked type, or every node with the type filter off |
| DataManager.NodeLabelsListed | webpages/standalone_graph_viewer/template/dev/data_renderer.js:305-320 | the listed node labels are exactly the labels of the typed nodes that match the search text |
| DataManager.UpdateNodeLabels | webpages/standalone_graph_viewer/template/dev/data_renderer.js:302-332 | the node filter is reset on the listed node labels; then the edge list becomes the edge labels of the new selection, the edge filter gains them unticked with every existing box kept, and mode 1 recomputes the distances from the new filters |
| DataManager.UpdateNodeTypes | webpages/standalone_graph_viewer/template/dev/data_renderer.js:275-332 | with the type filter on, the types matching the search text are reset in the type filter, otherwise it is untouched; then the node filter gains the labels listed under the new type filter, the edge list and edge filter follow the new selection, existing boxes keep their values, and mode 1 recomputes the distances |
| DataManager.UpdateNodeTypesSynced | webpages/standalone_graph_viewer/template/dev/data_renderer.js:275-377 | after the cascade every filter has a box for everything it lists, the edge list matches the selection, and mode 1 distances match the filters |
| DataManager.UpdateNodeTypesSettles | webpages/standalone_graph_viewer/template/dev/data_renderer.js:275-377 | in a synced state, running the cascade again without a reset changes nothing |
| DataManager.UpdateNodeTypesTwice | webpages/standalone_graph_viewer/template/dev/data_renderer.js:275-377 | running the cascade twice is running it once |
| DataManager.UpdateKeepsChecks | webpages/standalone_graph_viewer/template/dev/data_renderer.js:275-377 | a cascade of updates without `resetTo` leaves every existing check box of all three filters as it was |
| DataManager.SelectAllEdgeLabels | webpages/standalone_graph_viewer/template/dev/data_renderer.js:387-389 | every listed edge label takes the chosen value and every other entry stays |
| DataManager.SelectAllNodeLabels | webpages/standalone_graph_viewer/template/dev/data_renderer.js:383-385 | every listed node label takes the chosen value and every other entry stays |
| DataManager.ToggleNodeTypeSpec | webpages/standalone_graph_viewer/template/dev/data_renderer.js:410-414 | toggling a type flips exactly that box; the node and edge filters keep every existing value and gain only unchecked boxes |
| DataManager.ToggleNodeLabelSpec | webpages/standalone_graph_viewer/template/dev/data_renderer.js:416-420 | toggling a node label flips exactly that box and leaves the types alone; the edge filter checks the same labels as before |
| DataManager.ToggleEdgeLabelSpec | webpages/standalone_graph_viewer/template/dev/data_renderer.js:422-425 | toggling an edge label flips exactly that box and changes nothing else of the viewer |
| DataManager.Insert | webpages/standalone_graph_viewer/template/dev/data_renderer.js:766-767 | adding to an insertion-ordered set adds the member once and keeps the rest |
| DataManager.MergeKeys | webpages/standalone_graph_viewer/template/dev/data_renderer.js:750-764 | the groups are keyed once each, one group per distinct source-target key of the edges |
| DataManager.MergeGrouped | webpages/standalone_graph_viewer/template/dev/data_renderer.js:821-834 | every group holds the labels and document ids of the edges with its key, in edge order |
| DataManager.MergeAnchored | webpages/standalone_graph_viewer/template/dev/data_renderer.js:821-834 | every group is drawn between the source and target of one of the edges with its key |
| DataManager.MergeIds | webpages/standalone_graph_viewer/template/dev/data_renderer.js:836-837 | the drawn node ids are exactly the ends of the edges, each once |
| DataManager.KeysCollide | webpages/standalone_graph_viewer/template/dev/data_renderer.js:821 | for all ids x, y, z the pairs (x-y, z) and (x, y-z) share a text key and so are drawn as one edge |
| DataManager.Taken | webpages/standalone_graph_viewer/template/dev/data_renderer.js:811-838 | the edges drawn by an unstopped loop are exactly those the loop takes |
| DataManager.TakenIsFilter | webpages/standalone_graph_viewer/template/dev/data_renderer.js:811-838 | the edges taken are a filter of the edge list, in order |
| DataManager.GatherSpec | webpages/standalone_graph_viewer/template/dev/data_renderer.js:811-838 | the loop draws the edges it takes from a prefix of the list; it goes through all of them unless it stops, and it stops only with exactly 1501 groups |
| DataManager.GatherStops | webpages/standalone_graph_viewer/template/dev/data_renderer.js:816-819 | the loop stops early exactly when some edge it reaches finds more than 1500 groups already drawn |
| DataManager.GatherSmall | webpages/standalone_graph_viewer/template/dev/data_renderer.js:816-819 | with at most 1501 edges the loop never stops early and draws all the edges it takes |
| DataManager.GatherDraws | webpages/standalone_graph_viewer/template/dev/data_renderer.js:713-769 | every drawn node is an end of a taken edge, and every group runs between the ends of a taken edge with its key |
| DataManager.CheckedEdges | webpages/standalone_graph_viewer/template/dev/data_renderer.js:702-704 | exactly the edges whose label is checked |
| DataManager.FinishCount | webpages/standalone_graph_viewer/template/dev/data_renderer.js:745-748 | at most 1501 edges are drawn, and exactly 1501 when the loop stopped |
| DataManager.ShowByLabelMessages | webpages/standalone_graph_viewer/template/dev/data_renderer.js:791-855 | mode 2 asks for edges exactly when no edge label is checked, never shows its "should never happen" message, and draws at most 1501 edges |
| DataManager.ShowByLabelDraws | webpages/standalone_graph_viewer/template/dev/data_renderer.js:791-855 | mode 2 draws every checked edge, grouped by key, when there are at most 1501; whatever it draws runs between the ends of a checked edge |
| DataManager.ShowByDistanceMessages | webpages/standalone_graph_viewer/template/dev/data_renderer.js:695-786 | mode 1 asks for nodes exactly when no node is at distance 0 and for edges exactly when one is but no edge label is checked; it draws at most 1501 edges, exactly 1501 when incomplete, and explains an empty drawing by whether any edge label is listed |
| DataManager.ShowByDistanceNear | webpages/standalone_graph_viewer/template/dev/data_renderer.js:713-769 | mode 1 draws only nodes within the threshold, and only edges between two of them that go the way the direction mode allows |
| DataManager.ShowByDistanceDirection | webpages/standalone_graph_viewer/template/dev/data_renderer.js:737-743 | forward only, every drawn edge leads further from the selected nodes; backward only, closer; with neither direction nothing is drawn |
| DataManager.ShowByDistanceReachable | webpages/standalone_graph_viewer/template/dev/data_renderer.js:669-790 | with the distances the search computes, every node mode 1 draws is reached from a selected node along checked edges in at most the threshold's number of steps |
| DataManager.RootDistancesShortest | webpages/standalone_graph_viewer/template/dev/data_renderer.js:487-553 | exactly the selected nodes are at distance 0; a node has a distance exactly when a walk along checked edges reaches it from a selected node, and the distance is the fewest steps |
| DataManager.AllTypes | webpages/standalone_graph_viewer/template/dev/data_renderer.js:104-110 | every type of every node is listed |
| DataManager.Load | webpages/standalone_graph_viewer/template/dev/data_renderer.js:53-136 | the load fails exactly when sanitizing does; otherwise it holds the sanitized graph, threshold 1, both directions, both filter links on, empty search texts, and distinct node types |
| DataManager.LoadUnchecked | webpages/standalone_graph_viewer/template/dev/data_renderer.js:74-146 | after a load the type filter lists exactly the node types and no check box of any filter is ticked, since the initial selection returns before ticking anything |
| Config.Lookup | graph_extractor/src/config.py:87 | a key is found exactly when the configuration has it, and the value found is one written under it |
| Config.FieldProblem | graph_extractor/src/config.py:86-108 | a field reports at most one problem, and it names that field |
| Config.FieldProblemAcceptable | graph_extractor/src/config.py:86-108 | a field reports a problem exactly when its value has the wrong type, is blank where that is not allowed, is not an allowed value, or is out of range |
| Config.MissingFields | graph_extractor/src/config.py:69-72 | exactly the required template fields absent from the configuration |
| Config.Extras | graph_extractor/src/config.py:77-83 | the unknown keys, sorted and each once; `config_file` is unknown only when it is not ignored |
| Config.FieldProblems | graph_extractor/src/config.py:86-108 | at most one problem per field, each naming a template field |
| Config.FieldProblemsNone | graph_extractor/src/config.py:86-113 | the field checks report nothing exactly when every value is acceptable |
| Config.FieldProblemsReported | graph_extractor/src/config.py:86-108 | every field with a problem has that problem reported |
| Config.FieldProblemsOnce | graph_extractor/src/config.py:86-108 | with distinct field names, no field is reported twice |
| Config.ValidateWith | graph_extractor/src/config.py:66-113 | the result, when there is one, is a non-empty list of problems |
| Config.ValidateMissing | graph_extractor/src/config.py:69-75 | a missing field yields exactly one problem naming every missing field; otherwise no problem is about missing fields |
| Config.ValidateUnknown | graph_extractor/src/config.py:77-84 | with nothing missing, unknown keys yield exactly one problem listing each of them once, sorted |
| Config.ValidateNone | graph_extractor/src/config.py:66-113 | the checks return nothing exactly for the valid configurations |
| Config.ValidateFields | graph_extractor/src/config.py:86-113 | with every key known and present, every field with a problem is reported, each at most once, and nothing else |
| Config.CheckOrder | graph_extractor/src/config.py:86-108 | the checks run in order: a blank integer is a type error, a blank model name is blank rather than unknown, a boolean passes as an integer and is 1, a float is not an integer |
| Config.ValidateAccepts | graph_extractor/src/config.py:66-113 | `validate_config` against the real template returns nothing exactly for the valid configurations |
| Config.Trunc | graph_extractor/src/config.py:202 | Python's `int()` on a number truncates toward zero |
| Config.Read | graph_extractor/src/config.py:201 | a size is read exactly when it is present and a number |
| Config.Derive | graph_extractor/src/config.py:201-205 | succeeds exactly when the padding and chunk sizes are numbers; adds the token budget, and the overlap only when padding is not positive; every other key is kept |
| Config.SetResolution | graph_extractor/src/config.py:191-205 | "normal" sets chunk 1000, padding 0, overlap 100 and a budget of 3600; "high" sets chunk 300, padding 1 and a budget of 1800 |
| Config.DeriveAgain | graph_extractor/src/config.py:201-205 | deriving the budget again from the same sizes changes nothing |
| Config.PresetAgain | graph_extractor/src/config.py:191-199 | a preset applied to settings that already have it changes nothing |
| Config.SetResolutionIdempotent | graph_extractor/src/config.py:191-205 | setting the same resolution twice is setting it once |
| Config.SetResolutionOther | graph_extractor/src/config.py:191-205 | any other resolution keeps the sizes, fails exactly when one of them is missing or not a number, and changes only the overlap and the budget |
| Config.BuildExtended | graph_extractor/src/config.py:208-211 | an absent configuration stays absent |
| Config.OverlaySpec | graph_extractor/src/config.py:223-224 | overlaying settings that avoid the size keys and then setting the normal resolution keeps the overlay and the other user keys |
| Config.BuildExtendedSpec | graph_extractor/src/config.py:208-226 | an extended configuration keeps every user key that is neither internal nor a size, holds the internal values, and has the normal sizes |
| Config.SanitizeConfig | graph_extractor/src/config.py:229-249 | a reported violation names a path below `root` |
| Config.OversizeNoneIffFits | graph_extractor/src/config.py:229-249 | no violation is reported exactly when every key and every string fits its limit |
| Config.SanitizeConfigAccepts | graph_extractor/src/config.py:229-249 | `_sanitize_config` accepts exactly the configurations whose keys fit in 128 characters and strings in 1024 |
| Config.OversizePath | graph_extractor/src/config.py:229-249 | a violation found inside a container names a path strictly below it |
| Config.FitsMonotone | graph_extractor/src/config.py:229 | raising the limits never turns an accepted configuration into a refused one |
| Config.SanitizeConfigOrder | graph_extractor/src/config.py:231-241 | within an entry the key is checked before its value, paths name the nesting as `root.key[index]`, and a bare string is never checked |
| EdgeUtils.Lookup | graph_extractor/src/edge_utils.py:31-34 | a label has an entry exactly when some mapping names it as its old type |
| EdgeUtils.FirstUnlabelled | graph_extractor/src/edge_utils.py:36-39 | the position found is the first edge without a label |
| EdgeUtils.ApplyEdgeMappings | graph_extractor/src/edge_utils.py:29-41 | fails exactly when some edge lacks a label, naming the first such edge; otherwise keeps the nodes and every edge's ends and other fields, with every edge labelled |
| EdgeUtils.ApplyEdgeMappingsLabels | graph_extractor/src/edge_utils.py:31-39 | every new label is either the old one, when no entry names it, or the new type of the last entry naming it |
| EdgeUtils.LookupLast | graph_extractor/src/edge_utils.py:31-34 | the value found is that of the last entry with the key |
| EdgeUtils.LastWins | graph_extractor/src/edge_utils.py:31-34 | an entry appended later overrides every earlier entry for the same old type |
| EdgeUtils.NotChained | graph_extractor/src/edge_utils.py:36-39 | for all distinct a, b and any c, the table [a→b, b→c] maps a to b and b to c: the mapping is applied once, so a new type that is itself an old type is not mapped again |
| EdgeUtils.ApplyTwice | graph_extractor/src/edge_utils.py:29-41 | when no new type is also an old type, applying the mapping a second time changes nothing |
| EdgeUtils.Labels | graph_extractor/src/edge_utils.py:16 | the labels of the edges, in order |
| EdgeUtils.ExtractEdgeLabels | graph_extractor/src/edge_utils.py:6-26 | a result exactly when the file holds an object whose edges all have labels; the labels are sorted, distinct, and exactly the labels some edge carries |
| EdgeUtils.ExtractAfterMapping | graph_extractor/src/edge_utils.py:6-41 | after relabelling, the extracted labels are exactly the images of the labels before |

## Left out

- Reading and writing files, logging, `print`, the HTML viewer build and the browser DOM are not modelled; what a read returns is a parameter (`EdgeUtils.Stored`, the text handed to the parsers).
- The language-model call, its prompt text and its timeout are a parameter: each job's outcome (`Orchestrator.Reply`, `Orchestrator.JobEnd`) is an input.
- Concurrency: the jobs of one batch finish one after another in job order, and the global abort flag is an explicit value (`Cancellation.Abort`) polled before each batch and after each job, which are the reads of the batch loop; the `gather` exception branch that cancels a batch (graph_extractor/src/graph_generator.py lines 148-157) is not modelled, since `track_progress` catches every exception of a job and that branch is reached only by cancellation from outside.
- Token counting is a parameter `tokens`; hashing a file (SHA-256) and extracting text from a PDF are not modelled, so the per-document loop of `generate_graph_async` is modelled only through the choice of strategy and the phases it runs.
- Floating point: sizes, the padding, the overlap coefficient and the token budget are exact rationals, and `int(...)` is truncation of an exact value; progress is the exact fraction done/total rather than the rounded percentage text.
- Segmenter.CreateChunks: the bounds `int(target * 1.1)` and `int(target * 0.5)` are taken as `11 * target / 10` and `target / 2`, which agree except where the floating-point product rounds across an integer.
- Pandas: `read_csv` type inference is not modelled; ids and edge ends are compared as the text the CSV holds, and DataFrames are sequences of records.
- ResponseParser.SectionRecordsExact: each valid row is read as a record of its own. When pandas' tokenizer ends a row inside a quoted field (a quote right after a comma that the row does not close), `read_csv` carries the field on into the next row, or raises at the end of the text; the model closes the field at the end of the row.
- ResponseParser.ParseTextRows: rows are compared as the text the CSV holds. `read_csv` turns a numeric column into numbers, so ids `1` and `01` collide there and not in the model, and it reads `NA`, `null`, `NaN`, `None` and similar strings as missing values.
- ResponseParser.NodeTable: only an empty field is a missing id; an id spelled `NA` or `null` is accepted, where the source refuses it as neither an int nor a str.
- ResponseParser.EdgeTable: only an empty field is a missing endpoint; an endpoint spelled `NA` is kept as text, where the source's `astype(int)` fails on it.
- Python's `csv.reader` is modelled only for the first record, the only one `validate_csv_rows` takes from it (`next(...)`); `read_csv` is modelled line by line with the same machine without `skipinitialspace` (`PyCsv.PlainFields`).
- Python set iteration order: where the source keeps edges or labels in a set, the model keeps first-seen order and states only set properties about it.
- The SQL engine: tables are sequences of rows in rowid order, calls are sequential, and a lost connection is the `Offline` store; SQL errors other than a missing connection are not modelled, except the unbindable metadata under "## Findings".
- ContentStore.InsertGraphBound: the DELETE that runs before the failing INSERT is taken as committed, as the connection's next commit makes it; if the connection is closed without one, SQLite rolls it back and the earlier graph survives.
- Config.Read: a text-valued size is a failure result, and the keys written before it are not kept. Python raises a `TypeError` for a text `padding_size` (the `> 0` comparison) and for a text `chunk_size` with padding 0 (`"5" + 200`), but with an integer `padding_size` above 0 and `chunk_size = "5"` string repetition succeeds: `"5" + 2 * 1 * "5"` is `"555"` and `max_tokens` becomes 1110. The model treats that case as a failure too (and so does `Config.SetResolutionOther`). The "normal" and "high" presets write integer sizes first, so `set_resolution` with those never meets it.
- Config.BuildExtended: the user's dictionary is modelled as a map, so JSON objects with repeated keys and non-string keys are out of scope.
- Config.SanitizeConfig: an object with a repeated key is checked entry by entry, including entries a later duplicate shadows, while `json.load` keeps only the last value of each key (as `Config.Lookup` does). A shadowed oversized entry is reported by the model and not by the source.
- Config.SanitizeConfig: keys are always strings, as in a configuration loaded from JSON; the `isinstance(key, str)` guard for other keys is not modelled.
- EdgeUtils.ApplyEdgeMappings: the in-place relabelling of the edges before the failing one, and a missing `edges` or `old_to_new_edge_mapping` entry, are not modelled; a missing label is the error result.
- EdgeUtils.ExtractEdgeLabels: labels are strings, so the `TypeError` that `sorted` raises on mixed label types, and a top level that is not an object, are not modelled.
- DocumentMerge.LabelTable: says the label comes from some row with that id, not that the last such row wins.
- DataManager.ShowByDistance: visible nodes are given as ids, not as the node objects `nodeMap` returns for them.
- DataManager.Load: the operation mode is an input kept from before the load; colour generation, the sort orders, `computeNodeLabelEdgeCounts` and the rest of `setInitialFilter` (which returns before ticking anything) are not modelled.
- DataManager.Reset: a filter is modelled as a map of own entries, not as a plain object with a prototype. In the source, a new key naming an `Object.prototype` member (`constructor`, `toString`, ...) reads as that member, which is truthy, so its box starts ticked; the model starts it unticked. A `__proto__` key ignores every boolean assignment and always reads as ticked.
- DataManager.LoadUnchecked: for the same reason, a node type, node label or edge label that names an `Object.prototype` member starts ticked in the source after a load, while the model states that no box is ticked.
- DataManager.Flip: flipping a `__proto__` box changes nothing in the source (the assignment is ignored); the model flips it. `getCheckedTypes` lists own keys only, so a `__proto__` type is never among them.
- DataManager.DistinctEdgeLabels: the label tally is a plain object too, and `Object.keys` never lists an edge label `__proto__`; the model lists it like any other.
- DataManager.RootDistances: distances are kept per id, which agrees with the source only when the kept nodes have distinct ids. The source stores `root_distance` on node objects and looks ids up in `nodeMap`, which holds the last node with each id (data_renderer.js:60-61, 487-553, 684-693). Take a ticked node A (id "1", label "a") followed by a node B (id "1", label "b"). The source finds no node at distance 0 and says "Select a few Nodes!". The model counts id "1" as a root (`HasRoot`) and goes on to the edges. The sanitizer does not reject repeated ids, so graphs with repeated ids are outside what the model promises. The tables the extractor writes number their nodes 0..N-1 (`ResponseParser.RemoveOrphans`).
- DataManager.EdgeLabelsListed: lists the labels in the order they first occur. `Object.keys` puts integer-like labels first, in numeric order. Only which labels are listed, each once, is stated.
- DataManager.ShowByDistance: shares the divergence on repeated ids described for `DataManager.RootDistances`.
- Text.Lower: folds the capitals of Basic Latin, of Latin-1 (except the multiplication sign) and of basic Cyrillic (U+0400 to U+042F). Python's `str.lower` and JavaScript's `toLowerCase` fold every cased letter of Unicode, including Greek and Latin Extended, and some letters become two characters (U+0130). A label whose letters fall outside these ranges keeps their case in the model.
- GraphMerge.MergeUnique: node keys are lower-cased with `Text.Lower`. Two labels that differ only in the case of a letter outside its ranges (Greek "Ω" and "ω") stay two nodes, where the source makes them one.
- DocumentMerge.MergeAll: entity and edge keys are lower-cased with `Text.Lower`. Labels that differ only in the case of a letter outside its ranges stay apart, where the source merges them.
- DataManager.Narrow: the search text and the entries are lower-cased with `Text.Lower`. A search that differs from an entry only in the case of a letter outside its ranges does not match, where the source's does.
- Mode 0 of `getVisibleGraph` (paths between selected nodes, data_renderer.js lines 560-667) is not modelled; modes 1 and 2 are.
- Segmenter: a target below 2 makes the minimum 0, and the source's packing loop then spins forever on an empty chunk; the model returns the outcome `Spins` instead of running.

## Findings

| source | as written | input that shows it | evidently intended | confidence | as-written member | corrected member |
|---|---|---|---|---|---|---|
| graph_extractor/src/graph_utils.py:127-134 | `merge_graphs` passes the metadata `dict` built at graph_generator.py:391-395 straight to `insert_graph`, which binds it as an SQL parameter (sqlite_support.py:520-523); `sqlite3` has no adapter for `dict`, the INSERT raises, the error is caught at :529 and `None` is returned, with the DELETE of the pair's earlier graph (:515-517) left in the open transaction, which a later commit on the connection keeps | any extraction run of a stored document, with metadata `{"index": 0, "filename": ..., "sha256": ...}` | the metadata is stored as text (for example `json.dumps(metadata)`), and the merged graph is saved | high, not executed | ContentStore.MergedGraphLost | ContentStore.MergedGraphStored |
