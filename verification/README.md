# G2O converter of gs-rs, modelled in Dafny

gs-rs reads and writes factor graphs (2-D poses connected by odometry
measurements) in the text format of the g2o optimiser. `G2oParser` in
`src/parser/g2o/mod.rs` converts in both directions.

- **Composing** (`compose_model_to_string`, `vertex_to_string`,
  `edge_to_string`, the three `append_*` helpers) writes one line per
  vertex and then one line per edge, joined by line breaks:
  - a vertex line is `VERTEX_SE2 id x y theta`;
  - an edge line is `EDGE_SE2 from to dx dy dtheta` followed by six
    information-matrix entries, taken at the row-major indices
    `[0, 3, 4, 6, 7, 8]`.
- **Parsing** (`g2o_to_json`) wraps the g2o text in the opening and closing
  of a JSON object, then rewrites it with a fixed sequence of pattern
  replacements:
  1. the first `FIX` line is dropped;
  2. every `VERTEX_SE2` line becomes a vertex record;
  3. the vertex list is closed and the edge list opened before the first
     edge line;
  4. every `EDGE_SE2` line becomes an edge record, whose six values are laid
     out as a symmetric row-major 3x3 matrix;
  5. the comma after the last record is removed.

The resulting JSON is handed to the JSON parser of the same crate.

The project has six modules:

| file | module | contents |
|---|---|---|
| `text.dfy` | `Text` | `Join` (Rust's `join`), `Split`, prefix and suffix tests, and the lemmas relating them |
| `parser_model.dfy` | `ParserModel` | the format-neutral `FactorGraphModel` |
| `g2o_format.dfy` | `G2oFormat` | the three kinds of g2o lines and the text of a document |
| `g2o_compose.dfy` | `G2oCompose` | the composing direction, imperatively (see below) |
| `g2o_to_json.dfy` | `G2oParse` | the parsing direction, with the JSON string held line by line |
| `g2o_round_trip.dfy` | `G2oRoundTrip` | compose-then-parse and parse-then-compose |

How the source's form is kept:

- `G2oCompose` is imperative. The `&mut Vec<String>` that the helpers extend
  is the class `StringVec`. Every method is proved against the functions
  `VertexTokens`, `EdgeTokens` and `ComposedLines`.
- `G2oParse.G2oToJson` is the same six rebindings of `json_string` that
  `g2o_to_json` performs.
- Numbers are carried as the text they are written as or read from. The
  converter never computes with them.

## Model

| member | source | states |
|---|---|---|
| G2oCompose.StringVec.constructor | src/parser/g2o/mod.rs:54 | a new token vector is empty |
| G2oCompose.StringVec.Push | src/parser/g2o/mod.rs:56-59 | pushing appends exactly one token and keeps the earlier ones |
| G2oCompose.StringVec.Extend | src/parser/g2o/mod.rs:24 | extending appends the given strings, in order, after the earlier ones |
| G2oCompose.AppendF64Slice | src/parser/g2o/mod.rs:78-80 | the text of every value of the slice is appended, in slice order |
| G2oCompose.AppendUsizeSlice | src/parser/g2o/mod.rs:82-84 | the text of every id of the slice is appended, in slice order |
| G2oCompose.AppendF64SliceElements | src/parser/g2o/mod.rs:86-88 | succeeds exactly when every index is inside the slice; then the entries at the indices are appended in index order, otherwise nothing is appended |
| G2oCompose.LowerTriangleNeedsNine | src/parser/g2o/mod.rs:73-74 | the entries at `[0, 3, 4, 6, 7, 8]` can be read exactly when the matrix has at least 9 entries |
| G2oCompose.VertexToString | src/parser/g2o/mod.rs:53-63 | fails exactly when the vertex type is not `POSE2D_ANGLE`; otherwise gives `VERTEX_SE2`, the id, the position values and the rotation values, joined by spaces |
| G2oCompose.EdgeToString | src/parser/g2o/mod.rs:65-76 | fails exactly when the edge type is not `ODOMETRY2D_ANGLE` or the matrix has fewer than 9 entries; otherwise gives `EDGE_SE2`, the vertex ids, the restriction values and the six lower-triangle entries, joined by spaces |
| G2oCompose.ComposeModelToString | src/parser/g2o/mod.rs:22-26 | fails exactly when some vertex or edge cannot be written; otherwise gives all vertex lines in model order, then all edge lines in model order, joined by line breaks |
| G2oCompose.VertexLineTokens | src/parser/g2o/mod.rs:53-62 | a vertex line is one line of 2 + \|position\| + \|rotation\| tokens: the tag, the id, the position values, the rotation values |
| G2oCompose.EdgeLineTokens | src/parser/g2o/mod.rs:65-75 | an edge line is one line of 1 + \|vertices\| + \|restriction\| + 6 tokens, the last six being the entries (0,0), (1,0), (1,1), (2,0), (2,1), (2,2) |
| G2oCompose.ComposedTextLines | src/parser/g2o/mod.rs:22-26 | the composed text splits into exactly one line per vertex and per edge, vertex lines first, each line splitting into its tokens |
| G2oFormat.SplitLineText | src/parser/g2o/mod.rs:36-43 | a well-formed g2o line is one line of text that splits at its spaces into exactly its fields |
| G2oParse.WrapText | src/parser/g2o/mod.rs:31 | the first JSON string is the g2o text between `{`, `"vertices":`, `[` and `]`, `}` |
| G2oParse.FirstMatchFound | src/parser/g2o/mod.rs:34 | the match `Regex::replace` rewrites is a match and no earlier position matches |
| G2oParse.FixMatchesAt | src/parser/g2o/mod.rs:33 | `FIX (.*)\n` matches at a line exactly when it is a FIX line followed by a line break |
| G2oParse.DivisionMatchesAt | src/parser/g2o/mod.rs:39 | `},\nEDGE_SE2` matches exactly at a record with a comma followed by an edge line |
| G2oParse.ListEndMatchesAt | src/parser/g2o/mod.rs:47 | `},\n  ]\n}` matches exactly at a record with a comma followed by the closing of a list and of the object |
| G2oParse.LineFacts | src/parser/g2o/mod.rs:33-48 | how each kind of line looks to the fixed-text patterns, in both directions |
| G2oParse.DropCommaText | src/parser/g2o/mod.rs:40 | the rewritten line is the matched line without its final comma |
| G2oParse.G2oToJson | src/parser/g2o/mod.rs:30-51 | for an arranged document with at most one FIX line, the output is the JSON form of the vertices and edges it lists; for any well-formed document, every FIX line but the first is left in the output |
| G2oParse.FixStepRemovesFirst | src/parser/g2o/mod.rs:33-34 | the FIX replacement removes the first FIX line and no other |
| G2oParse.CommaStepKeepsFixes | src/parser/g2o/mod.rs:39-48 | the division and end replacements remove no FIX line |
| G2oParse.CaptureStepKeepsFixes | src/parser/g2o/mod.rs:36-43 | the vertex and edge rewrites remove no FIX line |
| G2oParse.LaterFixLinesKept | src/parser/g2o/mod.rs:33-34 | after all six steps, exactly the FIX lines after the first are still in the output |
| G2oParse.FixMatchInWrap | src/parser/g2o/mod.rs:33 | in the wrapped input, the FIX pattern matches exactly at the input's FIX lines |
| G2oParse.WrapWithout | src/parser/g2o/mod.rs:34 | removing the matched FIX line leaves the wrapped input without that line |
| G2oParse.FixStep | src/parser/g2o/mod.rs:33-34 | with at most one FIX line, the FIX step leaves exactly the other lines |
| G2oParse.VertexStep | src/parser/g2o/mod.rs:36-37 | every vertex line becomes a record with type `POSE2D_ANGLE`, position `[x, y]`, rotation `[theta]` and a comma |
| G2oParse.DivisionInVertexList | src/parser/g2o/mod.rs:39 | the division pattern first matches at the last vertex record |
| G2oParse.DivisionSplice | src/parser/g2o/mod.rs:40 | the division replacement removes that record's comma and inserts the list separator after it |
| G2oParse.DivisionStep | src/parser/g2o/mod.rs:39-40 | after the division step, the vertex list is closed before the first edge line and the edge list is opened |
| G2oParse.EdgeStep | src/parser/g2o/mod.rs:42-43 | every edge line becomes a record with vertices `[from, to]`, restriction `[dx, dy, dtheta]` and the symmetric matrix of its six values |
| G2oParse.ListEndInEdgeList | src/parser/g2o/mod.rs:47 | the end pattern first matches at the last edge record |
| G2oParse.ListEndSplice | src/parser/g2o/mod.rs:48 | the end replacement removes the last record's comma and nothing else |
| G2oParse.EndStep | src/parser/g2o/mod.rs:47-48 | after the end step, no list ends in a comma |
| G2oParse.VertexHalf | src/parser/g2o/mod.rs:33-37 | the first two steps give the vertex records followed by the edge lines |
| G2oParse.EdgeHalf | src/parser/g2o/mod.rs:39-48 | the last three steps give the JSON form of the model |
| G2oParse.ExpectedDocumentJson | src/parser/g2o/mod.rs:11-51 | for a document with at least one vertex line and one edge line, every vertex line before the first edge line (the stated expectations) and at most one FIX line (a bound of this model, not of the source), the six steps give the JSON form of the model |
| G2oParse.NoFixInModelJson | src/parser/g2o/mod.rs:30-51 | the JSON form of a model holds no FIX line |
| G2oParse.SecondFixLineKept | src/parser/g2o/mod.rs:33-34 | for a well-formed document with two or more FIX lines, the six steps give the JSON form of no model at all |
| G2oParse.TwoFixExampleKept | src/parser/g2o/mod.rs:11-34 | a document with two FIX lines meets the stated expectations, and its second FIX line is still in the output |
| G2oParse.GluedClosingSplit | src/parser/g2o/mod.rs:31 | when the g2o text does not end in a line break, its last line and the closing `  ]` of the wrap form one line, followed by `}` |
| G2oParse.FixStepRemovesEvery | src/parser/g2o/mod.rs:33-34 | replacing every match of the FIX pattern leaves the wrapped input without any FIX line |
| G2oParse.EveryFixRemovedJson | src/parser/g2o/mod.rs:30-51 | with every FIX line removed, the six steps give the JSON form of the model for every arranged document, whatever its number of FIX lines |
| G2oParse.NoFixLineLeft | src/parser/g2o/mod.rs:33-48 | with every FIX line removed, no FIX line is left in the output of a well-formed document |
| G2oParse.G2oToJsonRemovingEveryFix | src/parser/g2o/mod.rs:30-51 | the converter with `replace_all` at the FIX step: for every arranged document the output is the JSON form of its model, and no FIX line is left |
| G2oRoundTrip.ComposedInformationOrder | src/parser/g2o/mod.rs:43-73 | composing a matrix parsed from `u0..u5` writes `u0, u1, u3, u2, u4, u5`; that is `u` exactly when `u2 == u3` |
| G2oRoundTrip.ComposedInformationPermutes | src/parser/g2o/mod.rs:43-73 | those six written values are a permutation of the six read |
| G2oRoundTrip.ParsedInformationMatrix | src/parser/g2o/mod.rs:42-43 | the parsed matrix is symmetric, and reading it column by column gives the six values back |
| G2oRoundTrip.SymmetricMatrixReread | src/parser/g2o/mod.rs:73-74 | a symmetric matrix written at `[0, 3, 4, 6, 7, 8]` reads back as itself exactly when entries (0,2) and (1,1) are equal |
| G2oRoundTrip.ComposedLinesAreDocument | src/parser/g2o/mod.rs:22-26 | the composed lines of a 2-D model are the texts of its g2o lines; with a final line break they are the document's text |
| G2oRoundTrip.ComposedDocumentShape | src/parser/g2o/mod.rs:22-24 | a composed document has the vertex lines first and the edge lines after them, each in model order |
| G2oRoundTrip.ComposedDocumentExpected | src/parser/g2o/mod.rs:11-13 | a composed document meets the stated expectations, holds no FIX line, and has exactly the model's vertex lines before its edge lines |
| G2oRoundTrip.VertexLineParsed | src/parser/g2o/mod.rs:36-37 | a composed vertex line parses back to the vertex |
| G2oRoundTrip.EdgeLineParsed | src/parser/g2o/mod.rs:42-43 | a composed edge line parses back to the edge, with the matrix its six written values lay out |
| G2oRoundTrip.ComposedDocumentParsed | src/parser/g2o/mod.rs:30-51 | parsing a composed document gives the model with every matrix written and read back |
| G2oRoundTrip.RereadLowerTriangle | src/parser/g2o/mod.rs:73-74 | every matrix of a model reads back as itself exactly when each has equal entries (0,2) and (1,1) |
| G2oRoundTrip.RereadByColumn | src/parser/g2o/mod.rs:73-74 | written column by column, every matrix reads back as itself |
| G2oRoundTrip.G2oModelComposable | src/parser/g2o/mod.rs:53-76 | every vertex and edge of a 2-D model can be written: no type check fails and every matrix has the six entries read |
| G2oRoundTrip.ComposeThenParse | src/parser/g2o/mod.rs:17-26 | composing a 2-D model and parsing the text, with a final line break added, gives the model back exactly when every matrix has equal entries (0,2) and (1,1) |
| G2oRoundTrip.CorrectedComposeThenParse | src/parser/g2o/mod.rs:17-26 | with the corrected index order, composing then parsing the text, with a final line break added, gives every 2-D model back |
| G2oRoundTrip.ComposedTextUnterminated | src/parser/g2o/mod.rs:25 | the composed text of a 2-D model does not end in a line break, so it is the text of no g2o document as the parser reads them |
| G2oRoundTrip.ComposedTextWrapped | src/parser/g2o/mod.rs:25-31 | wrapped as it is composed, the last edge line and the closing `  ]` form one line, and no line of the wrapped text is the `  ]` the end pattern looks for |
| G2oRoundTrip.ParsedIsG2oModel | src/parser/g2o/mod.rs:36-43 | parsing an expected document gives a 2-D model with symmetric matrices and numeric values |
| G2oRoundTrip.VertexLineRecomposed | src/parser/g2o/mod.rs:53-62 | a parsed vertex line composes back to the same line |
| G2oRoundTrip.EdgeLineRecomposed | src/parser/g2o/mod.rs:65-75 | a parsed edge line composes back with I02 and I11 exchanged, or unchanged with the corrected order |
| G2oRoundTrip.ParsedFromRecomposed | src/parser/g2o/mod.rs:22-26 | the document composed from parsed lines is those lines, with the exchange in every edge line |
| G2oRoundTrip.ParsedFromComposed | src/parser/g2o/mod.rs:17-26 | the model parsed from a document can be composed; written column by column it gives the document back, written in the source's order it gives the document with I02 and I11 exchanged |
| G2oRoundTrip.ParseThenCompose | src/parser/g2o/mod.rs:17-26 | parsing an expected document and composing the model gives its non-FIX lines in order, each edge line with I02 and I11 exchanged |
| G2oRoundTrip.DiagonalMatrixExchanged | src/parser/g2o/mod.rs:73-74 | with diag(1, 2, 3), the written values are `1.0 0.0 2.0 0.0 0.0 3.0`; they read back as a different matrix, so the model does not round-trip |

## Left out

- `parse_string_to_model`: the JSON reading step belongs to `JsonParser`, which is not part of this model.
  - `G2oParse.ParsedModel` states which model the JSON built by `g2o_to_json` describes.
  - `G2oParse.ModelJson` is that JSON, line by line.
- `G2oParse.G2oToJson`: the contract gives the JSON only for documents that are arranged and hold at most one FIX line. For any other well-formed document it states only which FIX lines are left in the output.
  - Arranged (`G2oParse.Arranged`) is the two expectations stated at `mod.rs:11-13`: at least one vertex and one edge, and vertices before edges.
  - The bound of one FIX line is this model's own. The source states no expectation about FIX lines.
  - With two or more FIX lines, every FIX line after the first stays in the output as raw text (`G2oParse.LaterFixLinesKept`, `G2oParse.SecondFixLineKept`); see Findings.
  - The JSON produced for documents that are not arranged is not described.
- Regular-expression semantics in general are not modelled.
  - The three fixed-text patterns are tested on the text of whole lines.
  - The two capture patterns match per line, their groups being the fields of the line.
  - For the well-formed lines modelled here this is the same: a number's text holds no space or line break and cannot contain a tag or `FIX `.
  - `G2oFormat.SplitLineText` states that a line splits at its spaces into its fields. That the greedy `(.*)` groups of the capture patterns capture exactly those fields is taken from this split; regular-expression backtracking is not modelled.
- Input text of other shapes is not modelled: lines with other tags, comments, other field counts, or a last line without a line break (of these, only the wrapping of such a text is modelled, by `G2oParse.GluedClosingSplit`). The input is a sequence of `FIX`, `VERTEX_SE2` and `EDGE_SE2` lines.
- Rust's `{:?}` formatting of `f64` and `usize` is not modelled. The numbers are carried as their text.
- The panics of `vertex_to_string`, `edge_to_string` and slice indexing are modelled as `Err` results. The model does not capture that they unwind the thread.
- `G2oRoundTrip.ComposeThenParse`: the text parsed is the composed text with a line break appended. `compose_model_to_string` (`mod.rs:25`) writes none, and `g2o_to_json` (`mod.rs:31`) needs one to close the edge list; see Findings.
- `G2oRoundTrip.CorrectedComposeThenParse`: likewise, the text parsed is the composed text with a line break appended, which `mod.rs:25` does not write.
- File reading and writing, logging and the crate's other modules are not part of this model.

## Findings

| source | as written | input that shows it | evidently intended | confidence | as-written member | corrected member |
|---|---|---|---|---|---|---|
| src/parser/g2o/mod.rs:73 | the composer writes the information entries at `[0, 3, 4, 6, 7, 8]` (lower triangle row by row); the parser at line 43 reads the six values as I00 I01 I02 I11 I12 I22 (upper triangle row by row), so (0,2) and (1,1) are exchanged | an edge with information matrix diag(1, 2, 3) is written as `1.0 0.0 2.0 0.0 0.0 3.0` and read back as the matrix with rows `1 0 2`, `0 0 0`, `2 0 3` | write the entries at `[0, 3, 6, 4, 7, 8]`, the order the parser and the g2o format read | not executed | G2oRoundTrip.DiagonalMatrixExchanged | G2oRoundTrip.CorrectedComposeThenParse |
| src/parser/g2o/mod.rs:25 | the composed lines are joined by `"\n"` with no line break after the last one; `g2o_to_json` puts `"  ]\n}"` right after the text (line 31), so the last edge line and `  ]` become one line | any model with an edge, such as one edge with matrix diag(1, 2, 3): the last line of the wrapped text is `EDGE_SE2 … 3.0  ]`, and the end pattern at line 47 finds no line `  ]` to close the edge list | end the composed text with a line break (or have `g2o_to_json` add one before `  ]`) | not executed | G2oRoundTrip.ComposedTextWrapped | G2oRoundTrip.ComposeThenParse |
| src/parser/g2o/mod.rs:33-34 | `Regex::replace` removes only the first `FIX` line; the doc comment at lines 11-13 does not restrict FIX lines | a document with two FIX lines, `G2oParse.TWO_FIX_EXAMPLE`: its second FIX line stays in the JSON as raw text | `replace_all` at the FIX step, as at the vertex and edge steps | not executed | G2oParse.SecondFixLineKept | G2oParse.G2oToJsonRemovingEveryFix |

The composing methods (`G2oCompose.EdgeToString` and its callers) model the
code as written. The document-level and round-trip lemmas take the index
order as a parameter:

- `G2oRoundTrip.ComposeThenParse` and `G2oRoundTrip.ParseThenCompose` prove
  the exchange with the written order.
- `G2oRoundTrip.CorrectedComposeThenParse` and
  `G2oRoundTrip.ParseThenCompose` prove the exact round trip with
  `LOWER_TRIANGLE_BY_COLUMN`.

The round-trip lemmas parse the composed text with a final line break
added, the correction of the second finding; `G2oRoundTrip.ComposedTextUnterminated`
and `G2oRoundTrip.ComposedTextWrapped` state what happens to the text as
written. `G2oParse.G2oToJson` models the FIX step as written;
`G2oParse.G2oToJsonRemovingEveryFix` and `G2oParse.EveryFixRemovedJson`
prove the converter with `replace_all` there correct for any number of FIX
lines.
