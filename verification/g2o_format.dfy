/** The lines of a 2-D g2o file that the converter reads and writes:
    `FIX id`, `VERTEX_SE2 id x y theta` and
    `EDGE_SE2 from to dx dy dtheta I00 I01 I02 I11 I12 I22`. */
module G2oFormat {
  import opened Text
  import opened ParserModel

  const FIX := "FIX"
  const VERTEX_SE2 := "VERTEX_SE2"
  const EDGE_SE2 := "EDGE_SE2"

  /** Type tags of the model's vertices and edges that have a g2o form. */
  const POSE2D_ANGLE := "POSE2D_ANGLE"
  const ODOMETRY2D_ANGLE := "ODOMETRY2D_ANGLE"

  /** One line of a g2o file, with exactly the fields its tag calls for. */
  datatype G2oLine =
    | Fix(id: Token)
    | VertexSe2(id: Token, x: Token, y: Token, theta: Token)
    | EdgeSe2(from: Token, to: Token, dx: Token, dy: Token, dtheta: Token,
              i00: Token, i01: Token, i02: Token, i11: Token, i12: Token, i22: Token)
  {
    /** The space-separated fields of the line, its tag first. */
    function Fields(): (fs: seq<string>)
      ensures |fs| >= 2
      ensures fs[0] == (if Fix? then FIX else if VertexSe2? then VERTEX_SE2 else EDGE_SE2)
    {
      match this
      case Fix(id) => [FIX, id]
      case VertexSe2(id, x, y, theta) => [VERTEX_SE2, id, x, y, theta]
      case EdgeSe2(from, to, dx, dy, dtheta, i00, i01, i02, i11, i12, i22) =>
        [EDGE_SE2, from, to, dx, dy, dtheta, i00, i01, i02, i11, i12, i22]
    }

    /** The six information values of an edge line, in the order the file lists them. */
    function Upper(): seq<Token>
      requires EdgeSe2?
    {
      [i00, i01, i02, i11, i12, i22]
    }

    /** The text of the line, without its line break. */
    function Text(): string
    {
      Join(Fields(), " ")
    }

    /** Every field after the tag is the text of a number. */
    predicate WellFormed()
    {
      AllNumbers(Fields()[1..])
    }
  }

  /** The text of a g2o file: every line followed by a line break. */
  function DocumentText(doc: seq<G2oLine>): string
  {
    if |doc| == 0 then "" else doc[0].Text() + "\n" + DocumentText(doc[1..])
  }

  /** A document's text ends with the line break after its last line. */
  lemma {:induction false} DocumentTextEnds(doc: seq<G2oLine>)
    requires |doc| > 0
    ensures var t := DocumentText(doc); |t| > 0 && t[|t| - 1] == '\n'
  {
    if |doc| > 1 {
      DocumentTextEnds(doc[1..]);
    }
  }

  /** The text of a line begins with the first letter of its tag. */
  lemma TextStartsWithTag(l: G2oLine)
    ensures |l.Text()| > 0 && l.Text()[0] in {'F', 'V', 'E'}
  {
    var fs := l.Fields();
    assert l.Text() == fs[0] + " " + Join(fs[1..], " ");
  }

  predicate WellFormedDocument(doc: seq<G2oLine>)
  {
    forall k :: 0 <= k < |doc| ==> doc[k].WellFormed()
  }

  /** The text of a number holds neither a space nor a line break. */
  lemma NumberIsPlain(t: Token)
    requires IsNumberText(t)
    ensures ' ' !in t && '\n' !in t
  {
  }

  /** Every field of a well-formed line is free of spaces and line breaks. */
  lemma FieldsArePlain(l: G2oLine)
    requires l.WellFormed()
    ensures forall k :: 0 <= k < |l.Fields()| ==> ' ' !in l.Fields()[k] && '\n' !in l.Fields()[k]
  {
    var fs := l.Fields();
    forall k | 0 <= k < |fs| ensures ' ' !in fs[k] && '\n' !in fs[k] {
      if k == 0 {
        assert fs[0] == FIX || fs[0] == VERTEX_SE2 || fs[0] == EDGE_SE2;
      } else {
        assert fs[k] == fs[1..][k - 1];
        NumberIsPlain(fs[k]);
      }
    }
  }

  /** A well-formed line is one line of text, and splitting it at its spaces gives back its fields. */
  lemma SplitLineText(l: G2oLine)
    requires l.WellFormed()
    ensures '\n' !in l.Text()
    ensures Split(l.Text(), ' ') == l.Fields()
  {
    FieldsArePlain(l);
    JoinExcludes(l.Fields(), " ", '\n');
    SplitJoin(l.Fields(), ' ');
  }
}
