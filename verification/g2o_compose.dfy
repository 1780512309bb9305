/** Composition of a model into g2o text (`compose_model_to_string` and the
    helpers it calls). Each vertex and edge becomes one line of space-separated
    tokens; lines are joined with line breaks. A number's text is written as it
    is held (`format!("{:?}", val)` is the identity on number text here). */
module G2oCompose {
  import opened Text
  import opened ParserModel
  import opened G2oFormat

  /** Row-major indices of the information entries an edge line lists:
      (0,0), (1,0), (1,1), (2,0), (2,1), (2,2) -- the lower triangle, row by row. */
  const LOWER_TRIANGLE: seq<nat> := [0, 3, 4, 6, 7, 8]

  /** A `Vec<String>` that the helpers below extend in place. */
  class StringVec {
    var elems: seq<string>

    constructor ()
      ensures elems == []
    {
      elems := [];
    }

    method Push(s: string)
      modifies this
      ensures elems == old(elems) + [s]
    {
      elems := elems + [s];
    }

    method Extend(ss: seq<string>)
      modifies this
      ensures elems == old(elems) + ss
    {
      elems := elems + ss;
    }
  }

  predicate InBounds(slice: seq<Token>, indices: seq<nat>)
  {
    forall k :: 0 <= k < |indices| ==> indices[k] < |slice|
  }

  /** The entries of `slice` at `indices`, in the order of `indices`. */
  function Select(slice: seq<Token>, indices: seq<nat>): seq<Token>
    requires InBounds(slice, indices)
  {
    seq(|indices|, k requires 0 <= k < |indices| => slice[indices[k]])
  }

  /** `append_f64_slice_to_string_vec`: every value's text, in order. */
  method AppendF64Slice(tokens: StringVec, slice: seq<Token>)
    modifies tokens
    ensures tokens.elems == old(tokens.elems) + slice
  {
    tokens.Extend(slice);
  }

  /** `append_usize_slice_to_string_vec`: every id's text, in order. */
  method AppendUsizeSlice(tokens: StringVec, slice: seq<Token>)
    modifies tokens
    ensures tokens.elems == old(tokens.elems) + slice
  {
    tokens.Extend(slice);
  }

  /** `append_f64_slice_elements_to_string_vec`: the values at `indices`. Reading an
      index outside the slice panics before `tokens` is extended; here that is `ok == false`. */
  method AppendF64SliceElements(tokens: StringVec, slice: seq<Token>, indices: seq<nat>) returns (ok: bool)
    modifies tokens
    ensures ok <==> InBounds(slice, indices)
    ensures tokens.elems == if ok then old(tokens.elems) + Select(slice, indices) else old(tokens.elems)
  {
    var picked: seq<Token> := [];
    var k := 0;
    while k < |indices|
      invariant 0 <= k <= |indices|
      invariant InBounds(slice, indices[..k])
      invariant picked == Select(slice, indices[..k])
      invariant tokens.elems == old(tokens.elems)
    {
      if indices[k] >= |slice| {
        return false;
      }
      picked := picked + [slice[indices[k]]];
      k := k + 1;
    }
    assert indices[..k] == indices;
    tokens.Extend(picked);
    ok := true;
  }

  /** The tokens of a vertex's line: the tag, the id, every position value, every rotation value. */
  function VertexTokens(v: Vertex): seq<Token>
  {
    [VERTEX_SE2, v.id] + v.position + v.rotation
  }

  /** The tokens of an edge's line: the tag, the connected ids, the restriction values,
      and the information entries at `indices`. */
  function EdgeTokens(e: Edge, indices: seq<nat>): seq<Token>
    requires InBounds(e.informationMatrix, indices)
  {
    [EDGE_SE2] + e.vertices + e.restriction + Select(e.informationMatrix, indices)
  }

  predicate ComposableVertex(v: Vertex)
  {
    v.vertexType == POSE2D_ANGLE
  }

  /** Reading the entries at `LOWER_TRIANGLE` is what fails on a short matrix. */
  predicate ComposableEdge(e: Edge)
  {
    e.edgeType == ODOMETRY2D_ANGLE && InBounds(e.informationMatrix, LOWER_TRIANGLE)
  }

  /** The information matrix can be read at the six indices exactly when it has at least 9 entries. */
  lemma LowerTriangleNeedsNine(m: seq<Token>)
    ensures InBounds(m, LOWER_TRIANGLE) <==> |m| >= 9
  {
    if InBounds(m, LOWER_TRIANGLE) {
      assert LOWER_TRIANGLE[5] == 8;
    }
  }

  /** Every vertex and every edge has a g2o form and every matrix has the entries read. */
  predicate Composable(m: FactorGraphModel)
  {
    && (forall k :: 0 <= k < |m.vertices| ==> ComposableVertex(m.vertices[k]))
    && (forall k :: 0 <= k < |m.edges| ==> ComposableEdge(m.edges[k]))
  }

  function VertexLines(vs: seq<Vertex>): seq<string>
  {
    seq(|vs|, k requires 0 <= k < |vs| => Join(VertexTokens(vs[k]), " "))
  }

  /** Every edge's matrix can be read at `indices`. */
  predicate Readable(es: seq<Edge>, indices: seq<nat>)
  {
    forall k :: 0 <= k < |es| ==> InBounds(es[k].informationMatrix, indices)
  }

  /** The edge lines, the information entries listed being those at `indices`. */
  function EdgeLines(es: seq<Edge>, indices: seq<nat>): seq<string>
    requires Readable(es, indices)
  {
    seq(|es|, k requires 0 <= k < |es| && Readable(es, indices) => Join(EdgeTokens(es[k], indices), " "))
  }

  /** The lines of a composed model: all vertex lines, then all edge lines, each in model order. */
  function ComposedLines(m: FactorGraphModel, indices: seq<nat>): seq<string>
    requires Readable(m.edges, indices)
  {
    VertexLines(m.vertices) + EdgeLines(m.edges, indices)
  }

  /** `vertex_to_string`. */
  method VertexToString(v: Vertex) returns (r: Result<string>)
    ensures r.Ok? <==> ComposableVertex(v)
    ensures r.Ok? ==> r.value == Join(VertexTokens(v), " ")
  {
    var tokens := new StringVec();
    if v.vertexType == POSE2D_ANGLE {
      tokens.Push(VERTEX_SE2);
    } else {
      return Err("Vertex type unsupported to be composed to G2O format: " + v.vertexType);
    }
    tokens.Push(v.id);
    AppendF64Slice(tokens, v.position);
    AppendF64Slice(tokens, v.rotation);
    assert tokens.elems == VertexTokens(v);
    r := Ok(Join(tokens.elems, " "));
  }

  /** `edge_to_string`. */
  method EdgeToString(e: Edge) returns (r: Result<string>)
    ensures r.Ok? <==> ComposableEdge(e)
    ensures r.Ok? ==> r.value == Join(EdgeTokens(e, LOWER_TRIANGLE), " ")
  {
    var tokens := new StringVec();
    if e.edgeType == ODOMETRY2D_ANGLE {
      tokens.Push(EDGE_SE2);
    } else {
      return Err("Edge type unsupported to be composed to G2O format: " + e.edgeType);
    }
    AppendUsizeSlice(tokens, e.vertices);
    AppendF64Slice(tokens, e.restriction);
    var ok := AppendF64SliceElements(tokens, e.informationMatrix, LOWER_TRIANGLE);
    if !ok {
      return Err("index out of bounds");
    }
    assert tokens.elems == EdgeTokens(e, LOWER_TRIANGLE);
    r := Ok(Join(tokens.elems, " "));
  }

  /** `compose_model_to_string`: the first vertex or edge without a g2o form aborts. */
  method ComposeModelToString(model: FactorGraphModel) returns (r: Result<string>)
    ensures r.Ok? <==> Composable(model)
    ensures r.Ok? ==> r.value == Join(ComposedLines(model, LOWER_TRIANGLE), "\n")
  {
    var strVec := new StringVec();
    var i := 0;
    while i < |model.vertices|
      invariant 0 <= i <= |model.vertices|
      invariant forall k :: 0 <= k < i ==> ComposableVertex(model.vertices[k])
      invariant strVec.elems == VertexLines(model.vertices[..i])
    {
      var line := VertexToString(model.vertices[i]);
      if line.Err? {
        return Err(line.error);
      }
      strVec.Push(line.value);
      i := i + 1;
    }
    assert model.vertices[..i] == model.vertices;
    var edgeLines: seq<string> := [];
    var j := 0;
    while j < |model.edges|
      invariant 0 <= j <= |model.edges|
      invariant forall k :: 0 <= k < j ==> ComposableEdge(model.edges[k])
      invariant edgeLines == EdgeLines(model.edges[..j], LOWER_TRIANGLE)
      invariant strVec.elems == VertexLines(model.vertices)
    {
      var line := EdgeToString(model.edges[j]);
      if line.Err? {
        return Err(line.error);
      }
      edgeLines := edgeLines + [line.value];
      j := j + 1;
    }
    assert model.edges[..j] == model.edges;
    strVec.Extend(edgeLines);
    r := Ok(Join(strVec.elems, "\n"));
  }

  // ---------------------------------------------------------------------------
  // The shape of the composed text

  /** Tokens that hold neither a space nor a line break, as the text of every number does. */
  predicate Plain(ts: seq<Token>)
  {
    forall k :: 0 <= k < |ts| ==> ' ' !in ts[k] && '\n' !in ts[k]
  }

  predicate PlainModel(m: FactorGraphModel)
  {
    && (forall k :: 0 <= k < |m.vertices| ==>
          Plain([m.vertices[k].id]) && Plain(m.vertices[k].position) && Plain(m.vertices[k].rotation))
    && (forall k :: 0 <= k < |m.edges| ==>
          Plain(m.edges[k].vertices) && Plain(m.edges[k].restriction) && Plain(m.edges[k].informationMatrix))
  }

  /** Plain tokens joined by spaces: one line, which splits at its spaces into the tokens. */
  lemma PlainLine(ts: seq<Token>)
    requires |ts| > 0 && Plain(ts)
    ensures '\n' !in Join(ts, " ")
    ensures Split(Join(ts, " "), ' ') == ts
  {
    JoinExcludes(ts, " ", '\n');
    SplitJoin(ts, ' ');
  }

  /** A vertex line holds 2 + |position| + |rotation| tokens: the tag, the id, the position
      values and the rotation values, in order. */
  lemma VertexLineTokens(v: Vertex)
    requires Plain([v.id]) && Plain(v.position) && Plain(v.rotation)
    ensures '\n' !in Join(VertexTokens(v), " ")
    ensures Split(Join(VertexTokens(v), " "), ' ') == VertexTokens(v)
    ensures var ts := Split(Join(VertexTokens(v), " "), ' ');
      && |ts| == 2 + |v.position| + |v.rotation|
      && ts[0] == VERTEX_SE2 && ts[1] == v.id
      && ts[2..2 + |v.position|] == v.position && ts[2 + |v.position|..] == v.rotation
  {
    var ts := VertexTokens(v);
    assert Plain(ts) by {
      forall k | 0 <= k < |ts| ensures ' ' !in ts[k] && '\n' !in ts[k] {
        if k == 1 {
          assert ts[k] == [v.id][0];
        } else if 2 <= k < 2 + |v.position| {
          assert ts[k] == v.position[k - 2];
        } else if k >= 2 + |v.position| {
          assert ts[k] == v.rotation[k - 2 - |v.position|];
        }
      }
    }
    PlainLine(ts);
  }

  /** An edge line holds 1 + |vertices| + |restriction| + 6 tokens: the tag, the vertex ids,
      the restriction values, then the entries (0,0), (1,0), (1,1), (2,0), (2,1), (2,2). */
  lemma EdgeLineTokens(e: Edge)
    requires Plain(e.vertices) && Plain(e.restriction) && Plain(e.informationMatrix)
    requires InBounds(e.informationMatrix, LOWER_TRIANGLE)
    ensures |e.informationMatrix| >= 9
    ensures '\n' !in Join(EdgeTokens(e, LOWER_TRIANGLE), " ")
    ensures Split(Join(EdgeTokens(e, LOWER_TRIANGLE), " "), ' ') == EdgeTokens(e, LOWER_TRIANGLE)
    ensures var ts := Split(Join(EdgeTokens(e, LOWER_TRIANGLE), " "), ' ');
      var a, b := 1 + |e.vertices|, 1 + |e.vertices| + |e.restriction|;
      var m := e.informationMatrix;
      && |ts| == b + 6
      && ts[0] == EDGE_SE2 && ts[1..a] == e.vertices && ts[a..b] == e.restriction
      && ts[b..] == [m[0], m[3], m[4], m[6], m[7], m[8]]
  {
    var ts := EdgeTokens(e, LOWER_TRIANGLE);
    var a, b := 1 + |e.vertices|, 1 + |e.vertices| + |e.restriction|;
    var sel := Select(e.informationMatrix, LOWER_TRIANGLE);
    LowerTriangleNeedsNine(e.informationMatrix);
    assert Plain(ts) by {
      forall k | 0 <= k < |ts| ensures ' ' !in ts[k] && '\n' !in ts[k] {
        if 1 <= k < a {
          assert ts[k] == e.vertices[k - 1];
        } else if a <= k < b {
          assert ts[k] == e.restriction[k - a];
        } else if k >= b {
          assert ts[k] == sel[k - b] == e.informationMatrix[LOWER_TRIANGLE[k - b]];
        }
      }
    }
    PlainLine(ts);
  }

  /** The composed text has exactly one line per vertex and per edge, vertex lines first,
      each group in model order, and each line splits at its spaces into its tokens. */
  lemma ComposedTextLines(m: FactorGraphModel)
    requires Composable(m) && PlainModel(m) && |m.vertices| + |m.edges| > 0
    ensures Readable(m.edges, LOWER_TRIANGLE)
    ensures var lines := Split(Join(ComposedLines(m, LOWER_TRIANGLE), "\n"), '\n');
      && |lines| == |m.vertices| + |m.edges|
      && (forall k :: 0 <= k < |m.vertices| ==> Split(lines[k], ' ') == VertexTokens(m.vertices[k]))
      && (forall k :: 0 <= k < |m.edges| ==>
            Split(lines[|m.vertices| + k], ' ') == EdgeTokens(m.edges[k], LOWER_TRIANGLE))
  {
    var lines := ComposedLines(m, LOWER_TRIANGLE);
    var n := |m.vertices|;
    forall k | 0 <= k < n
      ensures '\n' !in lines[k] && Split(lines[k], ' ') == VertexTokens(m.vertices[k])
    {
      VertexLineTokens(m.vertices[k]);
    }
    forall k | 0 <= k < |m.edges|
      ensures '\n' !in lines[n + k] && Split(lines[n + k], ' ') == EdgeTokens(m.edges[k], LOWER_TRIANGLE)
    {
      EdgeLineTokens(m.edges[k]);
    }
    forall k | 0 <= k < |lines| ensures '\n' !in lines[k] {
      if k >= n {
        assert lines[k] == lines[n + (k - n)];
      }
    }
    SplitJoin(lines, '\n');
  }
}
