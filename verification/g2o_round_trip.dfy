/** Composing a model and parsing the text back, and the other way round.
    The composer lists the information entries at `LOWER_TRIANGLE`, i.e. (0,0), (1,0),
    (1,1), (2,0), (2,1), (2,2); the parser reads the six values of an edge line as
    I00 I01 I02 I11 I12 I22, the upper triangle row by row. For a symmetric matrix the
    two orders differ in the third and fourth place, so a round trip exchanges the
    entries (0,2) and (1,1). `LOWER_TRIANGLE_BY_COLUMN` is the order that agrees with
    the parser. */
module G2oRoundTrip {
  import opened Text
  import opened ParserModel
  import opened G2oFormat
  import opened G2oCompose
  import opened G2oParse

  /** Row-major indices of (0,0), (1,0), (2,0), (1,1), (2,1), (2,2): the lower triangle
      column by column, which for a symmetric matrix is the upper triangle row by row. */
  const LOWER_TRIANGLE_BY_COLUMN: seq<nat> := [0, 3, 6, 4, 7, 8]

  /** A row-major 3x3 matrix equal to its transpose. */
  predicate Symmetric(m: seq<Token>)
  {
    |m| == 9 && m[1] == m[3] && m[2] == m[6] && m[5] == m[7]
  }

  /** Six indices into a 3x3 matrix. */
  predicate SixEntries(indices: seq<nat>)
  {
    |indices| == 6 && forall k :: 0 <= k < 6 ==> indices[k] < 9
  }

  // ---------------------------------------------------------------------------
  // The information matrix

  /** What the composer writes for a matrix the parser built from `u`: the same six values
      with the third and fourth exchanged, which is `u` itself exactly when those two are equal. */
  lemma ComposedInformationOrder(u: seq<Token>)
    requires |u| == 6
    ensures InBounds(SymmetricFromUpper(u), LOWER_TRIANGLE)
    ensures Select(SymmetricFromUpper(u), LOWER_TRIANGLE) == [u[0], u[1], u[3], u[2], u[4], u[5]]
    ensures Select(SymmetricFromUpper(u), LOWER_TRIANGLE) == u <==> u[2] == u[3]
  {
    var s := Select(SymmetricFromUpper(u), LOWER_TRIANGLE);
    assert s == [u[0], u[1], u[3], u[2], u[4], u[5]];
    if s == u {
      assert s[2] == u[2];
    }
  }

  /** The values the composer writes are a permutation of the values the parser read. */
  lemma ComposedInformationPermutes(u: seq<Token>)
    requires |u| == 6
    ensures InBounds(SymmetricFromUpper(u), LOWER_TRIANGLE)
    ensures multiset(Select(SymmetricFromUpper(u), LOWER_TRIANGLE)) == multiset(u)
  {
    ComposedInformationOrder(u);
    MiddleSwapPermutes(u);
  }

  lemma MiddleSwapPermutes(u: seq<Token>)
    requires |u| == 6
    ensures multiset([u[0], u[1], u[3], u[2], u[4], u[5]]) == multiset(u)
  {
    SwapPermutes(u, 2, 3);
    assert [u[0], u[1], u[3], u[2], u[4], u[5]] == u[..2] + [u[3]] + u[3..3] + [u[2]] + u[4..];
  }

  /** Exchanging two elements keeps the multiset of a sequence. */
  lemma SwapPermutes(u: seq<Token>, i: nat, j: nat)
    requires i < j < |u|
    ensures multiset(u[..i] + [u[j]] + u[i + 1..j] + [u[i]] + u[j + 1..]) == multiset(u)
  {
    assert u == u[..i] + [u[i]] + u[i + 1..j] + [u[j]] + u[j + 1..];
  }

  /** The matrix the parser builds is symmetric, and reading it column by column gives back the six values. */
  lemma ParsedInformationMatrix(u: seq<Token>)
    requires |u| == 6
    ensures Symmetric(SymmetricFromUpper(u))
    ensures InBounds(SymmetricFromUpper(u), LOWER_TRIANGLE_BY_COLUMN)
    ensures Select(SymmetricFromUpper(u), LOWER_TRIANGLE_BY_COLUMN) == u
  {
    assert Select(SymmetricFromUpper(u), LOWER_TRIANGLE_BY_COLUMN)[3] == u[3];
  }

  /** Writing a symmetric matrix column by column and reading it back gives the matrix;
      writing it as the composer does gives it back exactly when entries (0,2) and (1,1) are equal. */
  lemma SymmetricMatrixReread(m: seq<Token>)
    requires Symmetric(m)
    ensures SymmetricFromUpper(Select(m, LOWER_TRIANGLE_BY_COLUMN)) == m
    ensures SymmetricFromUpper(Select(m, LOWER_TRIANGLE)) == m <==> m[2] == m[4]
  {
    if SymmetricFromUpper(Select(m, LOWER_TRIANGLE)) == m {
      assert SymmetricFromUpper(Select(m, LOWER_TRIANGLE))[2] == m[4];
    }
  }

  // ---------------------------------------------------------------------------
  // Models with a g2o form, and their documents

  predicate G2oVertex(v: Vertex)
  {
    && v.vertexType == POSE2D_ANGLE && |v.position| == 2 && |v.rotation| == 1
    && IsNumberText(v.id) && AllNumbers(v.position) && AllNumbers(v.rotation)
  }

  predicate G2oEdge(e: Edge)
  {
    && e.edgeType == ODOMETRY2D_ANGLE && |e.vertices| == 2 && |e.restriction| == 3
    && Symmetric(e.informationMatrix)
    && AllNumbers(e.vertices) && AllNumbers(e.restriction) && AllNumbers(e.informationMatrix)
  }

  /** A model a g2o file can hold: at least one vertex and one edge, 2-D poses, 2-D odometry
      edges with symmetric matrices, and every value the text of a number. */
  predicate G2oModel(m: FactorGraphModel)
  {
    && |m.vertices| > 0 && |m.edges| > 0
    && (forall k :: 0 <= k < |m.vertices| ==> G2oVertex(m.vertices[k]))
    && (forall k :: 0 <= k < |m.edges| ==> G2oEdge(m.edges[k]))
  }

  function VertexLine(v: Vertex): G2oLine
    requires |v.position| == 2 && |v.rotation| == 1
  {
    VertexSe2(v.id, v.position[0], v.position[1], v.rotation[0])
  }

  function EdgeLine(e: Edge, indices: seq<nat>): G2oLine
    requires |e.vertices| == 2 && |e.restriction| == 3 && |e.informationMatrix| == 9 && SixEntries(indices)
  {
    var s := Select(e.informationMatrix, indices);
    EdgeSe2(e.vertices[0], e.vertices[1], e.restriction[0], e.restriction[1], e.restriction[2],
            s[0], s[1], s[2], s[3], s[4], s[5])
  }

  function VertexDocument(vs: seq<Vertex>): (doc: seq<G2oLine>)
    requires forall k :: 0 <= k < |vs| ==> |vs[k].position| == 2 && |vs[k].rotation| == 1
    ensures |doc| == |vs| && forall k :: 0 <= k < |vs| ==> doc[k] == VertexLine(vs[k])
  {
    seq(|vs|, k requires 0 <= k < |vs| => VertexLine(vs[k]))
  }

  function EdgeDocument(es: seq<Edge>, indices: seq<nat>): (doc: seq<G2oLine>)
    requires SixEntries(indices)
    requires forall k :: 0 <= k < |es| ==> |es[k].vertices| == 2 && |es[k].restriction| == 3 && |es[k].informationMatrix| == 9
    ensures |doc| == |es| && forall k :: 0 <= k < |es| ==> doc[k] == EdgeLine(es[k], indices)
  {
    seq(|es|, k requires 0 <= k < |es| => EdgeLine(es[k], indices))
  }

  /** The g2o lines of a model, the matrix entries written being those at `indices`. */
  function ComposedDocument(m: FactorGraphModel, indices: seq<nat>): seq<G2oLine>
    requires G2oModel(m) && SixEntries(indices)
  {
    VertexDocument(m.vertices) + EdgeDocument(m.edges, indices)
  }

  /** The model with every matrix written at `indices` and read back by the parser. */
  function Reread(m: FactorGraphModel, indices: seq<nat>): FactorGraphModel
    requires G2oModel(m) && SixEntries(indices)
  {
    FactorGraphModel(m.vertices,
      seq(|m.edges|, k requires 0 <= k < |m.edges| =>
        m.edges[k].(informationMatrix := SymmetricFromUpper(Select(m.edges[k].informationMatrix, indices)))))
  }

  /** A document with its edge lines' I02 and I11 exchanged. */
  function Exchanged(doc: seq<G2oLine>): seq<G2oLine>
  {
    seq(|doc|, k requires 0 <= k < |doc| => if doc[k].EdgeSe2? then doc[k].(i02 := doc[k].i11, i11 := doc[k].i02) else doc[k])
  }

  /** The composer's lines for a g2o model are the texts of its g2o lines. */
  lemma ComposedLinesAreDocument(m: FactorGraphModel, indices: seq<nat>)
    requires G2oModel(m) && SixEntries(indices)
    ensures Readable(m.edges, indices)
    ensures ComposedLines(m, indices) == LineTexts(ComposedDocument(m, indices))
    ensures Join(ComposedLines(m, indices), "\n") + "\n" == DocumentText(ComposedDocument(m, indices))
  {
    G2oModelReadable(m, indices);
    var doc := ComposedDocument(m, indices);
    var lines := ComposedLines(m, indices);
    ComposedDocumentShape(m, indices);
    forall k | 0 <= k < |doc| ensures lines[k] == doc[k].Text() {
      ComposedLineText(m, indices, k);
    }
    assert lines == LineTexts(doc);
    JoinedDocument(doc);
  }

  lemma ComposedLineText(m: FactorGraphModel, indices: seq<nat>, k: nat)
    requires G2oModel(m) && SixEntries(indices) && k < |m.vertices| + |m.edges|
    ensures Readable(m.edges, indices)
    ensures k < |ComposedLines(m, indices)| && k < |ComposedDocument(m, indices)|
    ensures ComposedLines(m, indices)[k] == ComposedDocument(m, indices)[k].Text()
  {
    G2oModelReadable(m, indices);
    var n := |m.vertices|;
    if k < n {
      ComposedVertexText(m, indices, k);
    } else {
      var j := k - n;
      ComposedEdgeText(m, indices, j);
      assert n + j == k;
    }
  }

  lemma ComposedVertexText(m: FactorGraphModel, indices: seq<nat>, k: nat)
    requires G2oModel(m) && SixEntries(indices) && Readable(m.edges, indices) && k < |m.vertices|
    ensures k < |ComposedLines(m, indices)| && k < |ComposedDocument(m, indices)|
    ensures ComposedLines(m, indices)[k] == ComposedDocument(m, indices)[k].Text()
  {
    var v := m.vertices[k];
    ComposedVertexAt(m, indices, k);
    var vl, el := VertexLines(m.vertices), EdgeLines(m.edges, indices);
    assert ComposedLines(m, indices)[k] == (vl + el)[k] == vl[k];
    VertexTokensAreFields(v);
  }

  lemma ComposedEdgeText(m: FactorGraphModel, indices: seq<nat>, j: nat)
    requires G2oModel(m) && SixEntries(indices) && Readable(m.edges, indices) && j < |m.edges|
    ensures |m.vertices| + j < |ComposedLines(m, indices)| && |m.vertices| + j < |ComposedDocument(m, indices)|
    ensures ComposedLines(m, indices)[|m.vertices| + j] == ComposedDocument(m, indices)[|m.vertices| + j].Text()
  {
    var e := m.edges[j];
    ComposedEdgeAt(m, indices, j);
    var vl, el := VertexLines(m.vertices), EdgeLines(m.edges, indices);
    assert ComposedLines(m, indices)[|vl| + j] == (vl + el)[|vl| + j] == el[j];
    EdgeTokensAreFields(e, indices);
  }

  /** Line `k` of a model's document is the line of its vertex `k`. */
  lemma ComposedVertexAt(m: FactorGraphModel, indices: seq<nat>, k: nat)
    requires G2oModel(m) && SixEntries(indices) && k < |m.vertices|
    ensures G2oVertex(m.vertices[k])
    ensures k < |ComposedDocument(m, indices)| && ComposedDocument(m, indices)[k] == VertexLine(m.vertices[k])
  {
    var vd, ed := VertexDocument(m.vertices), EdgeDocument(m.edges, indices);
    assert (vd + ed)[k] == vd[k];
  }

  /** The line after the vertex lines by `j` is the line of edge `j`. */
  lemma ComposedEdgeAt(m: FactorGraphModel, indices: seq<nat>, j: nat)
    requires G2oModel(m) && SixEntries(indices) && j < |m.edges|
    ensures G2oEdge(m.edges[j])
    ensures |m.vertices| + j < |ComposedDocument(m, indices)|
    ensures ComposedDocument(m, indices)[|m.vertices| + j] == EdgeLine(m.edges[j], indices)
  {
    var vd, ed := VertexDocument(m.vertices), EdgeDocument(m.edges, indices);
    assert (vd + ed)[|vd| + j] == ed[j];
  }

  /** Every matrix of a g2o model can be read at six indices into a 3x3 matrix. */
  lemma G2oModelReadable(m: FactorGraphModel, indices: seq<nat>)
    requires G2oModel(m) && SixEntries(indices)
    ensures Readable(m.edges, indices)
  {
    forall k | 0 <= k < |m.edges| ensures InBounds(m.edges[k].informationMatrix, indices) {
      assert G2oEdge(m.edges[k]);
    }
  }

  /** The tokens the composer writes for a 2-D vertex are the fields of its g2o line. */
  lemma VertexTokensAreFields(v: Vertex)
    requires |v.position| == 2 && |v.rotation| == 1
    ensures VertexTokens(v) == VertexLine(v).Fields()
    ensures Join(VertexTokens(v), " ") == VertexLine(v).Text()
  {
    assert v.position == [v.position[0], v.position[1]];
    assert v.rotation == [v.rotation[0]];
  }

  /** The tokens the composer writes for a 2-D edge are the fields of its g2o line. */
  lemma EdgeTokensAreFields(e: Edge, indices: seq<nat>)
    requires |e.vertices| == 2 && |e.restriction| == 3 && |e.informationMatrix| == 9 && SixEntries(indices)
    ensures EdgeTokens(e, indices) == EdgeLine(e, indices).Fields()
    ensures Join(EdgeTokens(e, indices), " ") == EdgeLine(e, indices).Text()
  {
    assert e.vertices == [e.vertices[0], e.vertices[1]];
    assert e.restriction == [e.restriction[0], e.restriction[1], e.restriction[2]];
    EdgeLineUpper(e, indices);
  }

  lemma ComposedDocumentWellFormed(m: FactorGraphModel, indices: seq<nat>)
    requires G2oModel(m) && SixEntries(indices)
    ensures WellFormedDocument(ComposedDocument(m, indices))
    ensures forall k :: 0 <= k < |ComposedDocument(m, indices)| ==> !ComposedDocument(m, indices)[k].Fix?
  {
    var doc := ComposedDocument(m, indices);
    ComposedDocumentShape(m, indices);
    forall k | 0 <= k < |doc| ensures doc[k].WellFormed() && !doc[k].Fix? {
      ComposedLineWellFormed(m, indices, k);
    }
  }

  lemma ComposedLineWellFormed(m: FactorGraphModel, indices: seq<nat>, k: nat)
    requires G2oModel(m) && SixEntries(indices) && k < |m.vertices| + |m.edges|
    ensures k < |ComposedDocument(m, indices)|
    ensures ComposedDocument(m, indices)[k].WellFormed() && !ComposedDocument(m, indices)[k].Fix?
  {
    var n := |m.vertices|;
    if k < n {
      ComposedVertexWellFormed(m, indices, k);
    } else {
      var j := k - n;
      ComposedEdgeWellFormed(m, indices, j);
      assert n + j == k;
    }
  }

  lemma ComposedVertexWellFormed(m: FactorGraphModel, indices: seq<nat>, k: nat)
    requires G2oModel(m) && SixEntries(indices) && k < |m.vertices|
    ensures k < |ComposedDocument(m, indices)|
    ensures ComposedDocument(m, indices)[k].WellFormed() && !ComposedDocument(m, indices)[k].Fix?
  {
    ComposedVertexAt(m, indices, k);
    VertexLineWellFormed(m.vertices[k]);
  }

  lemma ComposedEdgeWellFormed(m: FactorGraphModel, indices: seq<nat>, j: nat)
    requires G2oModel(m) && SixEntries(indices) && j < |m.edges|
    ensures |m.vertices| + j < |ComposedDocument(m, indices)|
    ensures ComposedDocument(m, indices)[|m.vertices| + j].WellFormed()
    ensures !ComposedDocument(m, indices)[|m.vertices| + j].Fix?
  {
    ComposedEdgeAt(m, indices, j);
    EdgeLineWellFormed(m.edges[j], indices);
  }

  lemma VertexLineWellFormed(v: Vertex)
    requires G2oVertex(v)
    ensures VertexLine(v).WellFormed()
  {
    assert VertexLine(v).Fields()[1..] == [v.id] + v.position + v.rotation;
  }

  lemma EdgeLineWellFormed(e: Edge, indices: seq<nat>)
    requires G2oEdge(e) && SixEntries(indices)
    ensures EdgeLine(e, indices).WellFormed()
  {
    var s := Select(e.informationMatrix, indices);
    var g := EdgeLine(e, indices);
    forall j | 0 <= j < 6 ensures IsNumberText(s[j]) {
      assert s[j] == e.informationMatrix[indices[j]];
    }
    assert g.Fields()[1..] == [e.vertices[0], e.vertices[1], e.restriction[0], e.restriction[1], e.restriction[2],
                               s[0], s[1], s[2], s[3], s[4], s[5]];
  }

  lemma ComposedDocumentShape(m: FactorGraphModel, indices: seq<nat>)
    requires G2oModel(m) && SixEntries(indices)
    ensures var doc := ComposedDocument(m, indices);
      && |doc| == |m.vertices| + |m.edges|
      && (forall k :: 0 <= k < |m.vertices| ==> doc[k] == VertexLine(m.vertices[k]))
      && (forall k :: 0 <= k < |m.edges| ==> doc[|m.vertices| + k] == EdgeLine(m.edges[k], indices))
  {
    var vd, ed := VertexDocument(m.vertices), EdgeDocument(m.edges, indices);
    var doc := vd + ed;
    forall k | 0 <= k < |m.edges| ensures doc[|vd| + k] == ed[k] {
    }
  }

  /** The document of a model holds its vertex lines, then its edge lines. */
  lemma ComposedDocumentKinds(m: FactorGraphModel, indices: seq<nat>)
    requires G2oModel(m) && SixEntries(indices)
    ensures var doc := ComposedDocument(m, indices);
      && (forall k :: 0 <= k < |m.vertices| ==> doc[k].VertexSe2?)
      && (forall k :: |m.vertices| <= k < |doc| ==> doc[k].EdgeSe2?)
  {
    var doc := ComposedDocument(m, indices);
    var n := |m.vertices|;
    ComposedDocumentShape(m, indices);
    forall k | 0 <= k < n ensures doc[k].VertexSe2? {
      ComposedVertexAt(m, indices, k);
    }
    forall k | n <= k < |doc| ensures doc[k].EdgeSe2? {
      ComposedEdgeAt(m, indices, k - n);
      assert n + (k - n) == k;
    }
  }

  /** The document of a g2o model is one the parser expects: no FIX line, its vertex lines, then its edge lines. */
  lemma ComposedDocumentExpected(m: FactorGraphModel, indices: seq<nat>)
    requires G2oModel(m) && SixEntries(indices)
    ensures Expected(ComposedDocument(m, indices))
    ensures Keep(ComposedDocument(m, indices), false) == ComposedDocument(m, indices)
    ensures VertexPrefix(ComposedDocument(m, indices), 0) == |m.vertices|
  {
    ComposedDocumentWellFormed(m, indices);
    ComposedDocumentShape(m, indices);
    ComposedDocumentKinds(m, indices);
    VertexLinesThenEdgeLines(ComposedDocument(m, indices), |m.vertices|);
  }

  /** A well-formed document of `n` vertex lines followed by edge lines only is expected. */
  lemma VertexLinesThenEdgeLines(doc: seq<G2oLine>, n: nat)
    requires WellFormedDocument(doc) && 0 < n < |doc|
    requires forall k :: 0 <= k < n ==> doc[k].VertexSe2?
    requires forall k :: n <= k < |doc| ==> doc[k].EdgeSe2?
    ensures Expected(doc) && Keep(doc, false) == doc && VertexPrefix(doc, 0) == n
  {
    NoFixLines(doc, n);
    PrefixOfVertices(doc, n);
    assert Arranged(doc);
  }

  /** Vertex lines followed by edge lines: no FIX line, and all lines kept. */
  lemma NoFixLines(doc: seq<G2oLine>, n: nat)
    requires n <= |doc|
    requires forall k :: 0 <= k < n ==> doc[k].VertexSe2?
    requires forall k :: n <= k < |doc| ==> doc[k].EdgeSe2?
    ensures Keep(doc, true) == [] && Keep(doc, false) == doc
  {
    forall k | 0 <= k < |doc| ensures !doc[k].Fix? {
      if k < n {
        assert doc[k].VertexSe2?;
      } else {
        assert doc[k].EdgeSe2?;
      }
    }
    KeepExtremes(doc, true);
    KeepExtremes(doc, false);
  }

  lemma PrefixOfVertices(doc: seq<G2oLine>, n: nat)
    requires n < |doc| && !doc[n].VertexSe2?
    requires forall k :: 0 <= k < n ==> doc[k].VertexSe2?
    ensures VertexPrefix(doc, 0) == n
  {
    var r := VertexPrefix(doc, 0);
  }

  lemma EdgeLineUpper(e: Edge, indices: seq<nat>)
    requires |e.vertices| == 2 && |e.restriction| == 3 && |e.informationMatrix| == 9 && SixEntries(indices)
    ensures EdgeLine(e, indices).Upper() == Select(e.informationMatrix, indices)
  {
    var s := Select(e.informationMatrix, indices);
    assert s == [s[0], s[1], s[2], s[3], s[4], s[5]];
  }

  /** The parser reads a composed vertex line as the vertex. */
  lemma ComposedVertexParsed(m: FactorGraphModel, indices: seq<nat>, k: nat)
    requires G2oModel(m) && SixEntries(indices) && k < |m.vertices|
    ensures k < |ComposedDocument(m, indices)| && ComposedDocument(m, indices)[k].VertexSe2?
    ensures ParseVertexLine(ComposedDocument(m, indices)[k]) == m.vertices[k]
  {
    ComposedDocumentShape(m, indices);
    assert G2oVertex(m.vertices[k]);
    VertexLineParsed(m.vertices[k]);
  }

  lemma ComposedEdgeParsed(m: FactorGraphModel, indices: seq<nat>, j: nat)
    requires G2oModel(m) && SixEntries(indices) && j < |m.edges|
    ensures |m.vertices| + j < |ComposedDocument(m, indices)| && ComposedDocument(m, indices)[|m.vertices| + j].EdgeSe2?
    ensures ParseEdgeLine(ComposedDocument(m, indices)[|m.vertices| + j]) == Reread(m, indices).edges[j]
  {
    ComposedDocumentShape(m, indices);
    assert G2oEdge(m.edges[j]);
    EdgeLineParsed(m.edges[j], indices);
  }

  lemma VertexLineParsed(v: Vertex)
    requires G2oVertex(v)
    ensures ParseVertexLine(VertexLine(v)) == v
  {
    assert v.position == [v.position[0], v.position[1]];
    assert v.rotation == [v.rotation[0]];
  }

  /** The parser reads a composed edge line as the edge, with the matrix its six values lay out. */
  lemma EdgeLineParsed(e: Edge, indices: seq<nat>)
    requires G2oEdge(e) && SixEntries(indices)
    ensures ParseEdgeLine(EdgeLine(e, indices))
            == e.(informationMatrix := SymmetricFromUpper(Select(e.informationMatrix, indices)))
  {
    EdgeLineUpper(e, indices);
    assert e.vertices == [e.vertices[0], e.vertices[1]];
    assert e.restriction == [e.restriction[0], e.restriction[1], e.restriction[2]];
  }

  /** Parsing the document of a g2o model gives the model with every matrix written at `indices` and read back. */
  lemma ComposedDocumentParsed(m: FactorGraphModel, indices: seq<nat>)
    requires G2oModel(m) && SixEntries(indices)
    ensures Expected(ComposedDocument(m, indices))
    ensures ParsedModel(ComposedDocument(m, indices)) == Reread(m, indices)
  {
    var doc := ComposedDocument(m, indices);
    ComposedDocumentExpected(m, indices);
    assert ParsedModel(doc) == ModelOf(doc, |m.vertices|);
    ModelOfComposed(m, indices);
  }

  lemma ModelOfComposed(m: FactorGraphModel, indices: seq<nat>)
    requires G2oModel(m) && SixEntries(indices)
    ensures var doc := ComposedDocument(m, indices);
      && |m.vertices| <= |doc|
      && (forall k :: 0 <= k < |m.vertices| ==> doc[k].VertexSe2?)
      && (forall k :: |m.vertices| <= k < |doc| ==> doc[k].EdgeSe2?)
      && ModelOf(doc, |m.vertices|) == Reread(m, indices)
  {
    ComposedDocumentShape(m, indices);
    ComposedDocumentKinds(m, indices);
    ModelOfComposedVertices(m, indices);
    ModelOfComposedEdges(m, indices);
  }

  lemma ModelOfComposedVertices(m: FactorGraphModel, indices: seq<nat>)
    requires G2oModel(m) && SixEntries(indices)
    requires var doc := ComposedDocument(m, indices);
      && |m.vertices| <= |doc|
      && (forall k :: 0 <= k < |m.vertices| ==> doc[k].VertexSe2?)
      && (forall k :: |m.vertices| <= k < |doc| ==> doc[k].EdgeSe2?)
    ensures ModelOf(ComposedDocument(m, indices), |m.vertices|).vertices == m.vertices
  {
    var p := ModelOf(ComposedDocument(m, indices), |m.vertices|);
    forall k | 0 <= k < |m.vertices| ensures p.vertices[k] == m.vertices[k] {
      ComposedVertexParsed(m, indices, k);
    }
  }

  lemma ModelOfComposedEdges(m: FactorGraphModel, indices: seq<nat>)
    requires G2oModel(m) && SixEntries(indices)
    requires var doc := ComposedDocument(m, indices);
      && |m.vertices| <= |doc|
      && (forall k :: 0 <= k < |m.vertices| ==> doc[k].VertexSe2?)
      && (forall k :: |m.vertices| <= k < |doc| ==> doc[k].EdgeSe2?)
    ensures ModelOf(ComposedDocument(m, indices), |m.vertices|).edges == Reread(m, indices).edges
  {
    var p := ModelOf(ComposedDocument(m, indices), |m.vertices|);
    var q := Reread(m, indices);
    forall k | 0 <= k < |m.edges| ensures p.edges[k] == q.edges[k] {
      ModelOfComposedEdgeAt(m, indices, k);
    }
  }

  lemma ModelOfComposedEdgeAt(m: FactorGraphModel, indices: seq<nat>, j: nat)
    requires G2oModel(m) && SixEntries(indices) && j < |m.edges|
    requires var doc := ComposedDocument(m, indices);
      && |m.vertices| <= |doc|
      && (forall k :: 0 <= k < |m.vertices| ==> doc[k].VertexSe2?)
      && (forall k :: |m.vertices| <= k < |doc| ==> doc[k].EdgeSe2?)
    ensures j < |ModelOf(ComposedDocument(m, indices), |m.vertices|).edges|
    ensures ModelOf(ComposedDocument(m, indices), |m.vertices|).edges[j] == Reread(m, indices).edges[j]
  {
    ComposedEdgeParsed(m, indices, j);
  }

  /** Every matrix written column by column reads back as itself. */
  lemma RereadByColumn(m: FactorGraphModel)
    requires G2oModel(m)
    ensures SixEntries(LOWER_TRIANGLE_BY_COLUMN)
    ensures Reread(m, LOWER_TRIANGLE_BY_COLUMN) == m
  {
    var q := Reread(m, LOWER_TRIANGLE_BY_COLUMN);
    forall k | 0 <= k < |m.edges| ensures q.edges[k] == m.edges[k] {
      SymmetricMatrixReread(m.edges[k].informationMatrix);
    }
  }

  /** Every matrix written as the composer writes it reads back as itself exactly when its
      entries (0,2) and (1,1) are equal. */
  lemma RereadLowerTriangle(m: FactorGraphModel)
    requires G2oModel(m)
    ensures SixEntries(LOWER_TRIANGLE)
    ensures Reread(m, LOWER_TRIANGLE) == m
            <==> forall k :: 0 <= k < |m.edges| ==> m.edges[k].informationMatrix[2] == m.edges[k].informationMatrix[4]
  {
    var q := Reread(m, LOWER_TRIANGLE);
    forall k | 0 <= k < |m.edges|
      ensures q.edges[k] == m.edges[k] <==> m.edges[k].informationMatrix[2] == m.edges[k].informationMatrix[4]
    {
      SymmetricMatrixReread(m.edges[k].informationMatrix);
    }
    if q == m {
      forall k | 0 <= k < |m.edges| ensures m.edges[k].informationMatrix[2] == m.edges[k].informationMatrix[4] {
        assert q.edges[k] == m.edges[k];
      }
    }
  }

  // ---------------------------------------------------------------------------
  // The composed text as written: no final line break

  /** `compose_model_to_string` ends its text with the last edge line and no line break,
      so the text is not the text of any g2o document: every document's text ends with
      a line break. */
  lemma ComposedTextUnterminated(m: FactorGraphModel, indices: seq<nat>)
    requires G2oModel(m) && SixEntries(indices)
    ensures Readable(m.edges, indices)
    ensures var t := Join(ComposedLines(m, indices), "\n"); |t| > 0 && t[|t| - 1] != '\n'
    ensures forall doc :: DocumentText(doc) != Join(ComposedLines(m, indices), "\n")
  {
    var last := LastComposedLine(m, indices);
    var lines := ComposedLines(m, indices);
    var t := Join(lines, "\n");
    JoinLast(lines, "\n");
    assert t[|t| - 1] == last[|last| - 1];
    forall doc ensures DocumentText(doc) != t {
      if |doc| > 0 {
        DocumentTextEnds(doc);
      }
    }
  }

  /** The last composed line is one line of text, beginning with a tag. */
  lemma LastComposedLine(m: FactorGraphModel, indices: seq<nat>) returns (last: string)
    requires G2oModel(m) && SixEntries(indices)
    ensures Readable(m.edges, indices)
    ensures var lines := ComposedLines(m, indices);
      |lines| > 0 && last == lines[|lines| - 1] && |last| > 0 && '\n' !in last && last[0] in {'F', 'V', 'E'}
  {
    var n := |m.vertices| + |m.edges| - 1;
    ComposedLinePlain(m, indices, n);
    assert |ComposedLines(m, indices)| == n + 1;
    last := ComposedLines(m, indices)[n];
  }

  /** Every composed line is one line of text, beginning with a tag. */
  lemma ComposedLinePlain(m: FactorGraphModel, indices: seq<nat>, k: nat)
    requires G2oModel(m) && SixEntries(indices) && k < |m.vertices| + |m.edges|
    ensures Readable(m.edges, indices)
    ensures var lines := ComposedLines(m, indices);
      k < |lines| && |lines[k]| > 0 && '\n' !in lines[k] && lines[k][0] in {'F', 'V', 'E'}
  {
    ComposedLineText(m, indices, k);
    ComposedLineWellFormed(m, indices, k);
    var l := ComposedDocument(m, indices)[k];
    SplitLineText(l);
    TextStartsWithTag(l);
  }

  /** The string `g2o_to_json` first builds from the composed text, split into its lines:
      the closing `  ]` of the list is glued to the last edge line, so no line of it
      closes the list, and the end pattern, which needs such a line, cannot match. */
  lemma ComposedTextWrapped(m: FactorGraphModel, indices: seq<nat>)
    requires G2oModel(m) && SixEntries(indices)
    ensures Readable(m.edges, indices)
    ensures var lines := ComposedLines(m, indices); var n := |lines|;
      var wrapped := Split("{\n  \"vertices\":\n  [\n" + Join(lines, "\n") + "  ]\n}", '\n');
      && n > 0
      && wrapped == OPENING + (lines[..n - 1] + [lines[n - 1] + "  ]"] + ["}"])
      && forall k :: 0 <= k < |wrapped| ==> wrapped[k] != "  ]"
  {
    var last := LastComposedLine(m, indices);
    var lines := ComposedLines(m, indices);
    var n := |lines|;
    forall k | 0 <= k < n ensures '\n' !in lines[k] && lines[k] != "  ]" {
      ComposedLinePlain(m, indices, k);
    }
    GluedClosingSplit(lines);
    var parts := OPENING + (lines[..n - 1] + [last + "  ]"] + ["}"]);
    forall k | 0 <= k < |parts| ensures parts[k] != "  ]" {
      if 3 <= k < 3 + n - 1 {
        assert parts[k] == lines[k - 3];
      } else if k == 3 + n - 1 {
        assert parts[k][0] == last[0];
      }
    }
  }

  // ---------------------------------------------------------------------------
  // Round trips

  /** Composing a g2o model (`compose_model_to_string`) gives, with a final line break, the
      text of a document the parser expects; parsing that document gives the model back
      exactly when every matrix has equal entries (0,2) and (1,1): otherwise those two
      entries come back exchanged. */
  lemma ComposeThenParse(m: FactorGraphModel)
    requires G2oModel(m)
    ensures Composable(m)
    ensures var doc := ComposedDocument(m, LOWER_TRIANGLE);
      && Join(ComposedLines(m, LOWER_TRIANGLE), "\n") + "\n" == DocumentText(doc)
      && Expected(doc)
      && ParsedModel(doc) == Reread(m, LOWER_TRIANGLE)
      && (ParsedModel(doc) == m
          <==> forall k :: 0 <= k < |m.edges| ==> m.edges[k].informationMatrix[2] == m.edges[k].informationMatrix[4])
  {
    assert SixEntries(LOWER_TRIANGLE);
    G2oModelComposable(m);
    ComposedLinesAreDocument(m, LOWER_TRIANGLE);
    ComposedDocumentParsed(m, LOWER_TRIANGLE);
    RereadLowerTriangle(m);
  }

  /** With the matrix written column by column, composing a g2o model and parsing the text gives the model back. */
  lemma CorrectedComposeThenParse(m: FactorGraphModel)
    requires G2oModel(m)
    ensures Readable(m.edges, LOWER_TRIANGLE_BY_COLUMN)
    ensures var doc := ComposedDocument(m, LOWER_TRIANGLE_BY_COLUMN);
      && Join(ComposedLines(m, LOWER_TRIANGLE_BY_COLUMN), "\n") + "\n" == DocumentText(doc)
      && Expected(doc)
      && ParsedModel(doc) == m
  {
    RereadByColumn(m);
    ComposedLinesAreDocument(m, LOWER_TRIANGLE_BY_COLUMN);
    ComposedDocumentParsed(m, LOWER_TRIANGLE_BY_COLUMN);
  }

  /** Each field of a well-formed edge line is the text of a number. */
  lemma EdgeFieldsNumbers(g: G2oLine)
    requires g.EdgeSe2? && g.WellFormed()
    ensures AllNumbers([g.from, g.to]) && AllNumbers([g.dx, g.dy, g.dtheta]) && AllNumbers(g.Upper())
  {
    var f := g.Fields()[1..];
    assert [g.from, g.to] == f[..2];
    assert [g.dx, g.dy, g.dtheta] == f[2..5];
    assert g.Upper() == f[5..];
  }

  /** The lines of `d` before `n` are vertex lines and `p` holds their vertices; the others
      are edge lines and `p` holds their edges. */
  predicate ParsedFrom(p: FactorGraphModel, d: seq<G2oLine>, n: nat)
  {
    && 0 < n < |d| && |p.vertices| == n && |p.edges| == |d| - n
    && WellFormedDocument(d)
    && (forall k :: 0 <= k < n ==> d[k].VertexSe2? && p.vertices[k] == ParseVertexLine(d[k]))
    && (forall k :: n <= k < |d| ==> d[k].EdgeSe2? && p.edges[k - n] == ParseEdgeLine(d[k]))
  }

  lemma ExpectedParsedFrom(doc: seq<G2oLine>)
    requires Expected(doc)
    ensures ParsedFrom(ParsedModel(doc), Keep(doc, false), VertexPrefix(Keep(doc, false), 0))
  {
    KeptWellFormed(doc);
    var d := Keep(doc, false);
    ModelOfParsedFrom(d, VertexPrefix(d, 0));
  }

  lemma ModelOfParsedFrom(d: seq<G2oLine>, n: nat)
    requires WellFormedDocument(d) && 0 < n < |d|
    requires forall k :: 0 <= k < n ==> d[k].VertexSe2?
    requires forall k :: n <= k < |d| ==> d[k].EdgeSe2?
    ensures ParsedFrom(ModelOf(d, n), d, n)
  {
    var p := ModelOf(d, n);
    forall k | n <= k < |d| ensures d[k].EdgeSe2? && p.edges[k - n] == ParseEdgeLine(d[k]) {
      assert d[k] == d[n + (k - n)];
    }
  }

  lemma ParsedFromIsG2oModel(p: FactorGraphModel, d: seq<G2oLine>, n: nat)
    requires ParsedFrom(p, d, n)
    ensures G2oModel(p)
  {
    forall k | 0 <= k < n ensures G2oVertex(p.vertices[k]) {
      var f := d[k].Fields()[1..];
      assert d[k].WellFormed();
      assert IsNumberText(f[0]) && IsNumberText(f[1]) && IsNumberText(f[2]) && IsNumberText(f[3]);
    }
    forall k | 0 <= k < |p.edges| ensures G2oEdge(p.edges[k]) {
      ParsedEdgeAt(p, d, n, k);
      var g := d[n + k];
      assert g.WellFormed();
      EdgeFieldsNumbers(g);
      ParsedInformationMatrix(g.Upper());
    }
  }

  /** What the parser builds from an expected document is a g2o model. */
  lemma ParsedIsG2oModel(doc: seq<G2oLine>)
    requires Expected(doc)
    ensures G2oModel(ParsedModel(doc))
  {
    ExpectedParsedFrom(doc);
    ParsedFromIsG2oModel(ParsedModel(doc), Keep(doc, false), VertexPrefix(Keep(doc, false), 0));
  }

  /** Recomposing a parsed vertex line gives the line back. */
  lemma VertexLineRecomposed(g: G2oLine)
    requires g.VertexSe2?
    ensures VertexLine(ParseVertexLine(g)) == g
  {
  }

  /** Recomposing a parsed edge line gives the line back when the matrix is written column by
      column, and the line with I02 and I11 exchanged when it is written as the composer writes it. */
  lemma EdgeLineRecomposed(g: G2oLine)
    requires g.EdgeSe2?
    ensures SixEntries(LOWER_TRIANGLE) && SixEntries(LOWER_TRIANGLE_BY_COLUMN)
    ensures EdgeLine(ParseEdgeLine(g), LOWER_TRIANGLE_BY_COLUMN) == g
    ensures EdgeLine(ParseEdgeLine(g), LOWER_TRIANGLE) == g.(i02 := g.i11, i11 := g.i02)
  {
    ParsedInformationMatrix(g.Upper());
    ComposedInformationOrder(g.Upper());
  }

  /** The document of a parsed model, with the matrices written at `indices`, is the parsed
      document with each edge line recomposed. */
  lemma ParsedFromRecomposed(p: FactorGraphModel, d: seq<G2oLine>, n: nat, indices: seq<nat>)
    requires ParsedFrom(p, d, n) && (indices == LOWER_TRIANGLE || indices == LOWER_TRIANGLE_BY_COLUMN)
    ensures G2oModel(p) && SixEntries(indices)
    ensures ComposedDocument(p, indices) == if indices == LOWER_TRIANGLE then Exchanged(d) else d
  {
    ParsedFromIsG2oModel(p, d, n);
    assert SixEntries(indices);
    if indices == LOWER_TRIANGLE {
      RecomposedExchanged(p, d, n);
    } else {
      RecomposedByColumn(p, d, n);
    }
  }

  lemma RecomposedByColumn(p: FactorGraphModel, d: seq<G2oLine>, n: nat)
    requires ParsedFrom(p, d, n) && G2oModel(p) && SixEntries(LOWER_TRIANGLE_BY_COLUMN)
    ensures ComposedDocument(p, LOWER_TRIANGLE_BY_COLUMN) == d
  {
    var doc := ComposedDocument(p, LOWER_TRIANGLE_BY_COLUMN);
    ComposedDocumentShape(p, LOWER_TRIANGLE_BY_COLUMN);
    forall k | 0 <= k < n ensures doc[k] == d[k] {
      ParsedVertexAt(p, d, n, k);
      VertexLineRecomposed(d[k]);
    }
    forall k | n <= k < |d| ensures doc[k] == d[k] {
      var j := k - n;
      ParsedEdgeAt(p, d, n, j);
      assert doc[n + j] == EdgeLine(p.edges[j], LOWER_TRIANGLE_BY_COLUMN);
      EdgeLineRecomposed(d[n + j]);
    }
  }

  lemma RecomposedExchanged(p: FactorGraphModel, d: seq<G2oLine>, n: nat)
    requires ParsedFrom(p, d, n) && G2oModel(p) && SixEntries(LOWER_TRIANGLE)
    ensures ComposedDocument(p, LOWER_TRIANGLE) == Exchanged(d)
  {
    var doc := ComposedDocument(p, LOWER_TRIANGLE);
    ComposedDocumentShape(p, LOWER_TRIANGLE);
    var want := Exchanged(d);
    forall k | 0 <= k < n ensures doc[k] == want[k] {
      ParsedVertexAt(p, d, n, k);
      VertexLineRecomposed(d[k]);
    }
    forall k | n <= k < |d| ensures doc[k] == want[k] {
      var j := k - n;
      ParsedEdgeAt(p, d, n, j);
      assert doc[n + j] == EdgeLine(p.edges[j], LOWER_TRIANGLE);
      EdgeLineRecomposed(d[n + j]);
    }
  }

  lemma ParsedVertexAt(p: FactorGraphModel, d: seq<G2oLine>, n: nat, k: nat)
    requires ParsedFrom(p, d, n) && k < n
    ensures d[k].VertexSe2? && p.vertices[k] == ParseVertexLine(d[k])
  {
  }

  lemma ParsedEdgeAt(p: FactorGraphModel, d: seq<G2oLine>, n: nat, j: nat)
    requires ParsedFrom(p, d, n) && j < |p.edges|
    ensures n + j < |d| && d[n + j].EdgeSe2? && p.edges[j] == ParseEdgeLine(d[n + j])
  {
    assert p.edges[(n + j) - n] == p.edges[j];
  }

  /** Parsing an expected document and composing the model (`compose_model_to_string`) gives its
      lines without the FIX line, in the same order, except that each edge line has I02 and I11
      exchanged; with the matrix written column by column it gives those lines unchanged. */
  lemma ParseThenCompose(doc: seq<G2oLine>)
    requires Expected(doc)
    ensures G2oModel(ParsedModel(doc)) && Composable(ParsedModel(doc))
    ensures SixEntries(LOWER_TRIANGLE) && SixEntries(LOWER_TRIANGLE_BY_COLUMN)
    ensures ComposedDocument(ParsedModel(doc), LOWER_TRIANGLE_BY_COLUMN) == Keep(doc, false)
    ensures ComposedDocument(ParsedModel(doc), LOWER_TRIANGLE) == Exchanged(Keep(doc, false))
    ensures Join(ComposedLines(ParsedModel(doc), LOWER_TRIANGLE), "\n") + "\n" == DocumentText(Exchanged(Keep(doc, false)))
  {
    var p := ParsedModel(doc);
    ExpectedParsedFrom(doc);
    ParsedFromComposed(p, Keep(doc, false), VertexPrefix(Keep(doc, false), 0));
    ComposedLinesAreDocument(p, LOWER_TRIANGLE);
  }

  /** The composer's output for a model parsed from `d`: `d` itself with the matrix written
      column by column, `d` with the exchange in every edge line as the composer writes it. */
  lemma ParsedFromComposed(p: FactorGraphModel, d: seq<G2oLine>, n: nat)
    requires ParsedFrom(p, d, n)
    ensures G2oModel(p) && Composable(p)
    ensures SixEntries(LOWER_TRIANGLE) && SixEntries(LOWER_TRIANGLE_BY_COLUMN)
    ensures ComposedDocument(p, LOWER_TRIANGLE_BY_COLUMN) == d
    ensures ComposedDocument(p, LOWER_TRIANGLE) == Exchanged(d)
  {
    ParsedFromRecomposed(p, d, n, LOWER_TRIANGLE);
    ParsedFromRecomposed(p, d, n, LOWER_TRIANGLE_BY_COLUMN);
    G2oModelComposable(p);
  }

  /** A g2o model is one the composer can write. */
  lemma G2oModelComposable(m: FactorGraphModel)
    requires G2oModel(m)
    ensures Composable(m)
  {
    forall k | 0 <= k < |m.edges| ensures ComposableEdge(m.edges[k]) {
      LowerTriangleNeedsNine(m.edges[k].informationMatrix);
    }
  }

  // ---------------------------------------------------------------------------
  // An input that shows the exchange

  /** Two poses and one odometry edge whose information matrix is diag(1, 2, 3). */
  const DIAGONAL_EXAMPLE: FactorGraphModel := FactorGraphModel(
    [Vertex("0", POSE2D_ANGLE, ["0.0", "0.0"], ["0.0"]), Vertex("1", POSE2D_ANGLE, ["1.0", "0.0"], ["0.0"])],
    [Edge(ODOMETRY2D_ANGLE, ["0", "1"], ["1.0", "0.0", "0.0"],
          ["1.0", "0.0", "0.0", "0.0", "2.0", "0.0", "0.0", "0.0", "3.0"])])

  /** The composer writes diag(1, 2, 3) as "1.0 0.0 2.0 0.0 0.0 3.0"; read as I00 I01 I02 I11 I12 I22
      that is a matrix with 2.0 at (0,2) and (2,0) and 0.0 at (1,1), not the model's matrix. */
  lemma DiagonalMatrixExchanged()
    ensures G2oModel(DIAGONAL_EXAMPLE) && Composable(DIAGONAL_EXAMPLE) && SixEntries(LOWER_TRIANGLE)
    ensures Expected(ComposedDocument(DIAGONAL_EXAMPLE, LOWER_TRIANGLE))
    ensures ParsedModel(ComposedDocument(DIAGONAL_EXAMPLE, LOWER_TRIANGLE)).edges[0].informationMatrix
            == ["1.0", "0.0", "2.0", "0.0", "0.0", "0.0", "2.0", "0.0", "3.0"]
    ensures ParsedModel(ComposedDocument(DIAGONAL_EXAMPLE, LOWER_TRIANGLE)) != DIAGONAL_EXAMPLE
  {
    var m := DIAGONAL_EXAMPLE;
    DiagonalExampleIsG2oModel();
    G2oModelComposable(m);
    assert SixEntries(LOWER_TRIANGLE);
    ComposedDocumentParsed(m, LOWER_TRIANGLE);
    DiagonalReread();
  }

  /** The diagonal example written in the source's order and read back. */
  lemma DiagonalReread()
    ensures G2oModel(DIAGONAL_EXAMPLE) && SixEntries(LOWER_TRIANGLE)
    ensures Reread(DIAGONAL_EXAMPLE, LOWER_TRIANGLE).edges[0].informationMatrix
            == ["1.0", "0.0", "2.0", "0.0", "0.0", "0.0", "2.0", "0.0", "3.0"]
    ensures Reread(DIAGONAL_EXAMPLE, LOWER_TRIANGLE) != DIAGONAL_EXAMPLE
  {
    var m := DIAGONAL_EXAMPLE;
    DiagonalExampleIsG2oModel();
    assert SixEntries(LOWER_TRIANGLE);
    DiagonalMatrixWritten();
    var r := Reread(m, LOWER_TRIANGLE);
    assert r.edges[0].informationMatrix[4] != m.edges[0].informationMatrix[4];
  }

  /** The six values the composer writes for diag(1, 2, 3), and the matrix they read back as. */
  lemma DiagonalMatrixWritten()
    ensures InBounds(DIAGONAL_EXAMPLE.edges[0].informationMatrix, LOWER_TRIANGLE)
    ensures Select(DIAGONAL_EXAMPLE.edges[0].informationMatrix, LOWER_TRIANGLE)
            == ["1.0", "0.0", "2.0", "0.0", "0.0", "3.0"]
    ensures EdgeTokens(DIAGONAL_EXAMPLE.edges[0], LOWER_TRIANGLE)
            == [EDGE_SE2, "0", "1", "1.0", "0.0", "0.0", "1.0", "0.0", "2.0", "0.0", "0.0", "3.0"]
    ensures SymmetricFromUpper(Select(DIAGONAL_EXAMPLE.edges[0].informationMatrix, LOWER_TRIANGLE))
            == ["1.0", "0.0", "2.0", "0.0", "0.0", "0.0", "2.0", "0.0", "3.0"]
  {
    var info := DIAGONAL_EXAMPLE.edges[0].informationMatrix;
    assert info[4] == "2.0";
  }

  lemma DiagonalExampleIsG2oModel()
    ensures G2oModel(DIAGONAL_EXAMPLE)
  {
    var m := DIAGONAL_EXAMPLE;
    assert IsNumberText("0") && IsNumberText("1") && IsNumberText("0.0") && IsNumberText("1.0");
    assert IsNumberText("2.0") && IsNumberText("3.0");
    assert G2oVertex(m.vertices[0]) && G2oVertex(m.vertices[1]);
    assert G2oEdge(m.edges[0]);
  }
}
