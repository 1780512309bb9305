/** `g2o_to_json`: g2o text rewritten into the JSON interchange form by a fixed
    sequence of pattern replacements over the whole string. The string is held
    line by line. The three fixed-text patterns ("FIX (.*)\n", "},\nEDGE_SE2",
    "},\n  ]\n}") are tested on the text of the lines; the two patterns with
    capture groups (VERTEX_SE2 with 4 fields, EDGE_SE2 with 11) are matched per
    line, the captures being the fields of the line. */
module G2oParse {
  import opened Text
  import opened ParserModel
  import opened G2oFormat

  /** One line of `json_string` while the rewrites run. */
  datatype JsonLine =
    | Raw(g2o: G2oLine)                        // a g2o line, not (yet) rewritten
    | VertexRecord(vertex: Vertex, comma: bool)
    | EdgeRecord(edge: Edge, comma: bool)
    | Layout(s: string)                        // brackets and keys around the records

  function Bracketed(values: seq<Token>): string
  {
    "[" + Join(values, ", ") + "]"
  }

  function Comma(comma: bool): string
  {
    if comma then "," else ""
  }

  /** A record: its fields between braces, indented, maybe followed by a comma. */
  function RecordText(fields: string, comma: bool): string
  {
    "    { " + fields + " }" + Comma(comma)
  }

  function VertexFields(v: Vertex): string
  {
    "\"id\": " + v.id + ", \"type\": \"" + v.vertexType + "\", \"position\": " + Bracketed(v.position)
    + ", \"rotation\": " + Bracketed(v.rotation)
  }

  function EdgeFields(e: Edge): string
  {
    "\"type\": \"" + e.edgeType + "\", \"vertices\": " + Bracketed(e.vertices)
    + ", \"restriction\": " + Bracketed(e.restriction)
    + ", \"informationMatrix\": " + Bracketed(e.informationMatrix)
  }

  /** The text of a line, without its line break. */
  function LineText(l: JsonLine): string
  {
    match l
    case Raw(g) => g.Text()
    case VertexRecord(v, comma) => RecordText(VertexFields(v), comma)
    case EdgeRecord(e, comma) => RecordText(EdgeFields(e), comma)
    case Layout(s) => s
  }

  function Texts(lines: seq<JsonLine>): seq<string>
  {
    seq(|lines|, k requires 0 <= k < |lines| => LineText(lines[k]))
  }

  /** The whole string: the lines joined by line breaks. */
  function JsonText(lines: seq<JsonLine>): string
  {
    Join(Texts(lines), "\n")
  }

  const HEADER: seq<JsonLine> := [Layout("{"), Layout("  \"vertices\":"), Layout("  [")]
  const SEPARATOR: seq<JsonLine> := [Layout("  ],"), Layout("  \"edges\":"), Layout("  [")]
  const FOOTER: seq<JsonLine> := [Layout("  ]"), Layout("}")]
  const LAYOUT_TEXTS: set<string> := {"{", "  \"vertices\":", "  [", "  ],", "  \"edges\":", "  ]", "}"}

  function RawLines(doc: seq<G2oLine>): seq<JsonLine>
  {
    seq(|doc|, k requires 0 <= k < |doc| => Raw(doc[k]))
  }

  /** The input placed between the opening of the vertex list and the closing of the object. */
  function Wrap(doc: seq<G2oLine>): seq<JsonLine>
  {
    HEADER + RawLines(doc) + FOOTER
  }

  /** The texts of the lines of a g2o document. */
  function LineTexts(doc: seq<G2oLine>): seq<string>
  {
    seq(|doc|, k requires 0 <= k < |doc| => doc[k].Text())
  }

  /** The document's lines, each with its line break, then lines joined by line breaks. */
  lemma DocumentThenJoin(doc: seq<G2oLine>, tail: seq<string>)
    requires |tail| > 0
    ensures Join(LineTexts(doc) + tail, "\n") == DocumentText(doc) + Join(tail, "\n")
  {
    if |doc| == 0 {
      assert LineTexts(doc) + tail == tail;
    } else {
      JoinedDocument(doc);
      JoinAppend(LineTexts(doc), tail, "\n");
    }
  }

  /** The lines joined by line breaks, with a final line break, are the document's text. */
  lemma {:induction false} JoinedDocument(doc: seq<G2oLine>)
    requires |doc| > 0
    ensures Join(LineTexts(doc), "\n") + "\n" == DocumentText(doc)
  {
    if |doc| > 1 {
      JoinedDocument(doc[1..]);
      LineTextsCons(doc);
      JoinCons(doc[0].Text(), LineTexts(doc[1..]), "\n");
    } else {
      assert LineTexts(doc) == [doc[0].Text()];
    }
  }

  lemma LineTextsCons(doc: seq<G2oLine>)
    requires |doc| > 0
    ensures LineTexts(doc) == [doc[0].Text()] + LineTexts(doc[1..])
  {
  }

  const OPENING: seq<string> := ["{", "  \"vertices\":", "  ["]
  const CLOSING: seq<string> := ["  ]", "}"]

  lemma WrapTexts(doc: seq<G2oLine>)
    ensures Texts(Wrap(doc)) == OPENING + (LineTexts(doc) + CLOSING)
  {
  }

  lemma LayoutJoins()
    ensures Join(OPENING, "\n") + "\n" == "{\n  \"vertices\":\n  [\n"
    ensures Join(CLOSING, "\n") == "  ]\n}"
  {
  }

  /** The first string `g2o_to_json` builds: the g2o text between the opening of the
      vertex list and the closing of the object. */
  lemma WrapText(doc: seq<G2oLine>)
    ensures JsonText(Wrap(doc)) == "{\n  \"vertices\":\n  [\n" + DocumentText(doc) + "  ]\n}"
  {
    WrapTexts(doc);
    JoinAppend(OPENING, LineTexts(doc) + CLOSING, "\n");
    DocumentThenJoin(doc, CLOSING);
    LayoutJoins();
    var o, d, c := Join(OPENING, "\n"), DocumentText(doc), Join(CLOSING, "\n");
    calc {
      JsonText(Wrap(doc));
      o + "\n" + (d + c);
      (o + "\n") + d + c;
    }
  }

  /** Fixed-text patterns, replaced at their leftmost match only (`Regex::replace`). */
  datatype Pattern =
    | FixLine    // "FIX (.*)\n"          replaced by ""
    | Division   // "},\nEDGE_SE2"         replaced by "}\n  ],\n  \"edges\":\n  [\nEDGE_SE2"
    | ListEnd    // "},\n  ]\n}"           replaced by "}\n  ]\n}"

  /** A match of `p` begins on line `i`. */
  predicate MatchesAt(p: Pattern, lines: seq<JsonLine>, i: nat)
  {
    match p
    case FixLine =>
      i + 1 < |lines| && StartsWith(LineText(lines[i]), "FIX ")
    case Division =>
      i + 1 < |lines| && EndsWith(LineText(lines[i]), "},") && StartsWith(LineText(lines[i + 1]), EDGE_SE2)
    case ListEnd =>
      && i + 2 < |lines| && EndsWith(LineText(lines[i]), "},")
      && LineText(lines[i + 1]) == "  ]" && StartsWith(LineText(lines[i + 2]), "}")
  }

  /** Where `p` matches: one flag per line. */
  function Matches(p: Pattern, lines: seq<JsonLine>): (bs: seq<bool>)
    ensures |bs| == |lines|
  {
    seq(|lines|, i requires 0 <= i < |lines| => MatchesAt(p, lines, i))
  }

  /** The first index at or after `from` whose flag is set, or `|bs|` when there is none. */
  function FirstSet(bs: seq<bool>, from: nat): (i: nat)
    requires from <= |bs|
    ensures from <= i <= |bs|
    decreases |bs| - from
  {
    if from == |bs| || bs[from] then from else FirstSet(bs, from + 1)
  }

  lemma {:induction false} FirstSetFound(bs: seq<bool>, from: nat)
    requires from <= |bs|
    ensures var i := FirstSet(bs, from);
      && (i < |bs| ==> bs[i])
      && forall j :: from <= j < i ==> !bs[j]
    decreases |bs| - from
  {
    if from < |bs| && !bs[from] {
      FirstSetFound(bs, from + 1);
    }
  }

  /** The first line at or after `from` where `p` matches, or `|lines|` when there is none
      (see `FirstMatchFound`). */
  function FirstMatch(p: Pattern, lines: seq<JsonLine>, from: nat): (i: nat)
    requires from <= |lines|
    ensures from <= i <= |lines|
  {
    FirstSet(Matches(p, lines), from)
  }

  /** `FirstMatch` is a match, and no line before it from `from` on is one. */
  lemma FirstMatchFound(p: Pattern, lines: seq<JsonLine>, from: nat)
    requires from <= |lines|
    ensures var i := FirstMatch(p, lines, from);
      && (i < |lines| ==> MatchesAt(p, lines, i))
      && forall j :: from <= j < i ==> !MatchesAt(p, lines, j)
  {
    var bs := Matches(p, lines);
    FirstSetFound(bs, from);
    var i := FirstSet(bs, from);
    assert forall j :: 0 <= j < |lines| ==> bs[j] == MatchesAt(p, lines, j);
  }

  /** A line with the comma that ends its text removed (see `DropCommaText`). */
  function DropComma(l: JsonLine): JsonLine
  {
    match l
    case VertexRecord(v, _) => VertexRecord(v, false)
    case EdgeRecord(e, _) => EdgeRecord(e, false)
    case Layout(_) => l
    case Raw(_) => l
  }

  /** The rewrite of a match of `p` that begins on line `i`. */
  function ReplaceAt(p: Pattern, lines: seq<JsonLine>, i: nat): seq<JsonLine>
    requires i < |lines|
  {
    match p
    case FixLine => lines[..i] + lines[i + 1..]
    case Division => lines[..i] + ([DropComma(lines[i])] + SEPARATOR) + lines[i + 1..]
    case ListEnd => lines[..i] + [DropComma(lines[i])] + lines[i + 1..]
  }

  /** `Regex::replace` of `p`: the leftmost match rewritten, everything else kept. */
  function ReplaceFirst(p: Pattern, lines: seq<JsonLine>): seq<JsonLine>
  {
    var i := FirstMatch(p, lines, 0);
    if i == |lines| then lines else ReplaceAt(p, lines, i)
  }

  /** Patterns with capture groups, rewritten wherever they match (`Regex::replace_all`). */
  datatype Capture = VertexCapture | EdgeCapture

  /** `[u0..u5]` laid out as the row-major 3x3 matrix `$6, $7, $8, $7, $9, $10, $8, $10, $11`. */
  function SymmetricFromUpper(u: seq<Token>): seq<Token>
    requires |u| == 6
  {
    [u[0], u[1], u[2], u[1], u[3], u[4], u[2], u[4], u[5]]
  }

  function ParseVertexLine(g: G2oLine): Vertex
    requires g.VertexSe2?
  {
    Vertex(g.id, POSE2D_ANGLE, [g.x, g.y], [g.theta])
  }

  function ParseEdgeLine(g: G2oLine): Edge
    requires g.EdgeSe2?
  {
    Edge(ODOMETRY2D_ANGLE, [g.from, g.to], [g.dx, g.dy, g.dtheta], SymmetricFromUpper(g.Upper()))
  }

  function Rewrite(c: Capture, l: JsonLine): JsonLine
  {
    match c
    case VertexCapture => if l.Raw? && l.g2o.VertexSe2? then VertexRecord(ParseVertexLine(l.g2o), true) else l
    case EdgeCapture => if l.Raw? && l.g2o.EdgeSe2? then EdgeRecord(ParseEdgeLine(l.g2o), true) else l
  }

  function ReplaceAll(c: Capture, lines: seq<JsonLine>): seq<JsonLine>
  {
    seq(|lines|, k requires 0 <= k < |lines| => Rewrite(c, lines[k]))
  }

  /** `g2o_to_json`. */
  method G2oToJson(g2o: seq<G2oLine>) returns (json: seq<JsonLine>)
    ensures Expected(g2o) ==> json == ModelJson(ParsedModel(g2o))
    ensures WellFormedDocument(g2o) ==> FixesOf(json) == Tail(Keep(g2o, true))
  {
    json := Wrap(g2o);
    json := ReplaceFirst(FixLine, json);
    json := ReplaceAll(VertexCapture, json);
    json := ReplaceFirst(Division, json);
    json := ReplaceAll(EdgeCapture, json);
    json := ReplaceFirst(ListEnd, json);
    if Expected(g2o) {
      ExpectedDocumentJson(g2o);
    }
    if WellFormedDocument(g2o) {
      LaterFixLinesKept(g2o);
    }
  }

  // ---------------------------------------------------------------------------
  // What the JSON stands for

  function Tail<T>(s: seq<T>): seq<T>
  {
    if |s| == 0 then [] else s[1..]
  }

  /** The FIX lines of `doc` (`fixes`) or all its other lines (`!fixes`), in order. */
  function Keep(doc: seq<G2oLine>, fixes: bool): seq<G2oLine>
  {
    if |doc| == 0 then []
    else if doc[0].Fix? == fixes then [doc[0]] + Keep(doc[1..], fixes)
    else Keep(doc[1..], fixes)
  }

  /** The g2o FIX lines still present, as raw text, among `lines`. */
  function FixesOf(lines: seq<JsonLine>): seq<G2oLine>
  {
    if |lines| == 0 then []
    else if IsFix(lines[0]) then [lines[0].g2o] + FixesOf(lines[1..])
    else FixesOf(lines[1..])
  }

  /** The number of VERTEX_SE2 lines `doc` starts with, counting from `from`. */
  function VertexPrefix(doc: seq<G2oLine>, from: nat): (n: nat)
    requires from <= |doc|
    ensures from <= n <= |doc|
    ensures forall k :: from <= k < n ==> doc[k].VertexSe2?
    ensures n < |doc| ==> !doc[n].VertexSe2?
    decreases |doc| - from
  {
    if from == |doc| || !doc[from].VertexSe2? then from else VertexPrefix(doc, from + 1)
  }

  /** The two expectations `G2oParser` states for its input: at least one vertex and one
      edge, and every vertex listed before any edge. FIX lines may stand anywhere. */
  predicate Arranged(doc: seq<G2oLine>)
  {
    && WellFormedDocument(doc)
    && var d := Keep(doc, false);
       var n := VertexPrefix(d, 0);
       && 0 < n < |d|
       && forall k :: n <= k < |d| ==> d[k].EdgeSe2?
  }

  /** An arranged document with at most one FIX line: the input for which the converter
      as written gives the JSON form of the model (the bound on FIX lines is this model's
      own; see `SecondFixLineKept` for what happens without it). */
  predicate Expected(doc: seq<G2oLine>)
  {
    Arranged(doc) && |Keep(doc, true)| <= 1
  }

  /** The model an arranged document describes: its vertex lines and edge lines, in order. */
  function ParsedModel(doc: seq<G2oLine>): FactorGraphModel
    requires Arranged(doc)
  {
    var d := Keep(doc, false);
    ModelOf(d, VertexPrefix(d, 0))
  }

  /** The model of `n` vertex lines followed by edge lines only. */
  function ModelOf(d: seq<G2oLine>, n: nat): FactorGraphModel
    requires n <= |d|
    requires forall k :: 0 <= k < n ==> d[k].VertexSe2?
    requires forall k :: n <= k < |d| ==> d[k].EdgeSe2?
  {
    FactorGraphModel(
      seq(n, k requires 0 <= k < n => ParseVertexLine(d[k])),
      seq(|d| - n, k requires 0 <= k < |d| - n => ParseEdgeLine(d[n + k])))
  }

  function VertexRecords(vs: seq<Vertex>, trailingComma: bool): seq<JsonLine>
  {
    seq(|vs|, k requires 0 <= k < |vs| => VertexRecord(vs[k], k + 1 < |vs| || trailingComma))
  }

  function EdgeRecords(es: seq<Edge>, trailingComma: bool): seq<JsonLine>
  {
    seq(|es|, k requires 0 <= k < |es| => EdgeRecord(es[k], k + 1 < |es| || trailingComma))
  }

  /** A model in the JSON interchange form: the vertex records, then the edge records,
      commas between records and none after the last of a list. */
  function ModelJson(m: FactorGraphModel): seq<JsonLine>
  {
    HEADER + VertexRecords(m.vertices, false) + SEPARATOR + EdgeRecords(m.edges, false) + FOOTER
  }

  // ---------------------------------------------------------------------------
  // The text of the lines

  predicate WellFormedLine(l: JsonLine)
  {
    match l
    case Raw(g) => g.WellFormed()
    case Layout(s) => s in LAYOUT_TEXTS
    case _ => true
  }

  predicate AllWellFormed(lines: seq<JsonLine>)
  {
    forall k :: 0 <= k < |lines| ==> WellFormedLine(lines[k])
  }

  lemma FirstCharDiffers(t: string, prefix: string)
    requires |t| > 0 && |prefix| > 0 && t[0] != prefix[0]
    ensures !StartsWith(t, prefix)
  {
  }

  lemma RecordFacts(fields: string, comma: bool)
    ensures var t := RecordText(fields, comma);
      && |t| >= 3 && t[0] == ' ' && t[2] == ' '
      && (EndsWith(t, ",") <==> comma)
      && (EndsWith(t, "},") <==> comma)
      && RecordText(fields, false) + "," == RecordText(fields, true)
      && !StartsWith(t, EDGE_SE2) && !StartsWith(t, "FIX ") && !StartsWith(t, "}") && t != "  ]"
  {
    var t := RecordText(fields, comma);
    FirstCharDiffers(t, EDGE_SE2);
    FirstCharDiffers(t, "FIX ");
    FirstCharDiffers(t, "}");
    var body := "    { " + fields + " }";
    assert t == body + Comma(comma);
    assert body[|body| - 1] == '}';
    if comma {
      assert t[|t| - 2..] == "},";
    } else {
      assert t == body;
    }
  }

  lemma RawFacts(g: G2oLine)
    requires g.WellFormed()
    ensures var t := g.Text();
      && |t| > 0 && t[0] == g.Fields()[0][0] && t[|t| - 1] != ','
      && StartsWith(t, g.Fields()[0] + " ")
  {
    var fs := g.Fields();
    var t := g.Text();
    assert t == fs[0] + " " + Join(fs[1..], " ");
    var last := fs[|fs| - 1];
    assert last == fs[1..][|fs| - 2];
    assert IsNumberText(last);
    JoinLast(fs, " ");
    assert t[|t| - 1] in NUMBER_CHARS;
    assert (fs[0] + " " + Join(fs[1..], " "))[..|fs[0] + " "|] == fs[0] + " ";
  }

  lemma RawLineFacts(g: G2oLine)
    requires g.WellFormed()
    ensures !EndsWith(g.Text(), "},")
    ensures StartsWith(g.Text(), EDGE_SE2) <==> g.EdgeSe2?
    ensures StartsWith(g.Text(), "FIX ") <==> g.Fix?
    ensures g.Text() != "  ]" && !StartsWith(g.Text(), "}")
  {
    var t := g.Text();
    RawFacts(g);
    var tag := g.Fields()[0];
    assert t[..|tag|] == tag by {
      assert t[..|tag| + 1] == tag + " ";
    }
    if g.Fix? {
      assert t[..4] == "FIX ";
    }
  }

  lemma LayoutFacts(s: string)
    requires s in LAYOUT_TEXTS
    ensures !EndsWith(s, "},") && !StartsWith(s, EDGE_SE2) && !StartsWith(s, "FIX ")
    ensures StartsWith(s, "}") <==> s == "}"
  {
    assert s[0] in {'{', ' ', '}'};
    assert s[|s| - 1] in {'{', ':', '[', ',', ']', '}'};
    if s == "  ]," {
      assert s[|s| - 2] == ']';
    }
  }

  /** What the fixed-text patterns see of a well-formed line: a line ends in "}," exactly
      when it is a record followed by a comma, starts with EDGE_SE2 exactly when it is an
      edge line, starts with "FIX " exactly when it is a FIX line, and is "  ]" or starts
      with "}" exactly when it is the closing of the last list or of the object. */
  lemma LineFacts(l: JsonLine)
    requires WellFormedLine(l)
    ensures EndsWith(LineText(l), "},") <==> (l.VertexRecord? || l.EdgeRecord?) && l.comma
    ensures StartsWith(LineText(l), EDGE_SE2) <==> l.Raw? && l.g2o.EdgeSe2?
    ensures StartsWith(LineText(l), "FIX ") <==> l.Raw? && l.g2o.Fix?
    ensures LineText(l) == "  ]" <==> l == Layout("  ]")
    ensures StartsWith(LineText(l), "}") <==> l == Layout("}")
  {
    match l
    case Raw(g) =>
      RawLineFacts(g);
    case VertexRecord(v, comma) =>
      RecordFacts(VertexFields(v), comma);
    case EdgeRecord(e, comma) =>
      RecordFacts(EdgeFields(e), comma);
    case Layout(s) =>
      LayoutFacts(s);
  }

  /** Removing the comma at the end of a line's text gives the text of `DropComma` of the line. */
  lemma DropCommaText(l: JsonLine)
    requires WellFormedLine(l) && EndsWith(LineText(l), "},")
    ensures LineText(DropComma(l)) + "," == LineText(l)
  {
    match l
    case VertexRecord(v, comma) =>
      RecordFacts(VertexFields(v), comma);
    case EdgeRecord(e, comma) =>
      RecordFacts(EdgeFields(e), comma);
    case Layout(s) =>
      LayoutFacts(s);
      assert false;
    case Raw(g) =>
      RawLineFacts(g);
      assert false;
  }

  predicate IsFix(l: JsonLine)
  {
    l.Raw? && l.g2o.Fix?
  }

  predicate CommaRecord(l: JsonLine)
  {
    (l.VertexRecord? || l.EdgeRecord?) && l.comma
  }

  /** A match at `i` with none before it is the leftmost match. */
  lemma FirstMatchIs(p: Pattern, lines: seq<JsonLine>, i: nat)
    requires i <= |lines|
    requires i < |lines| ==> MatchesAt(p, lines, i)
    requires forall j :: 0 <= j < i ==> !MatchesAt(p, lines, j)
    ensures FirstMatch(p, lines, 0) == i
  {
    FirstMatchFound(p, lines, 0);
  }

  /** "FIX (.*)\n" matches at a line exactly when it is a FIX line that is not the last line. */
  lemma FixMatchesAt(lines: seq<JsonLine>, j: nat)
    requires j + 1 < |lines| && WellFormedLine(lines[j])
    ensures MatchesAt(FixLine, lines, j) <==> IsFix(lines[j])
  {
    LineFacts(lines[j]);
  }

  /** "},\nEDGE_SE2" matches at a record followed by a comma and then an edge line. */
  lemma DivisionMatchesAt(lines: seq<JsonLine>, j: nat)
    requires j + 1 < |lines| && WellFormedLine(lines[j]) && WellFormedLine(lines[j + 1])
    ensures MatchesAt(Division, lines, j) <==> CommaRecord(lines[j]) && lines[j + 1].Raw? && lines[j + 1].g2o.EdgeSe2?
  {
    LineFacts(lines[j]);
    LineFacts(lines[j + 1]);
  }

  /** "},\n  ]\n}" matches at a record followed by a comma, the closing of a list and the closing of the object. */
  lemma ListEndMatchesAt(lines: seq<JsonLine>, j: nat)
    requires j + 2 < |lines| && WellFormedLine(lines[j]) && WellFormedLine(lines[j + 1]) && WellFormedLine(lines[j + 2])
    ensures MatchesAt(ListEnd, lines, j) <==> CommaRecord(lines[j]) && lines[j + 1] == Layout("  ]") && lines[j + 2] == Layout("}")
  {
    LineFacts(lines[j]);
    LineFacts(lines[j + 1]);
    LineFacts(lines[j + 2]);
  }

  lemma SpliceWellFormed(lines: seq<JsonLine>, i: nat, mid: seq<JsonLine>)
    requires i < |lines| && AllWellFormed(lines) && AllWellFormed(mid)
    ensures AllWellFormed(lines[..i] + mid + lines[i + 1..])
  {
    var r := lines[..i] + mid + lines[i + 1..];
    forall k | 0 <= k < |r| ensures WellFormedLine(r[k]) {
      if k < i {
        assert r[k] == lines[k];
      } else if k < i + |mid| {
        assert r[k] == mid[k - i];
      } else {
        assert r[k] == lines[k - |mid| + 1];
      }
    }
  }

  // ---------------------------------------------------------------------------
  // FIX lines

  lemma {:induction false} KeepAppend(a: seq<G2oLine>, b: seq<G2oLine>, fixes: bool)
    ensures Keep(a + b, fixes) == Keep(a, fixes) + Keep(b, fixes)
  {
    if |a| > 0 {
      KeepAppend(a[1..], b, fixes);
      assert (a + b)[1..] == a[1..] + b;
    } else {
      assert a + b == b;
    }
  }

  /** `Keep` finds nothing exactly when no line has the kind asked for, and keeps
      everything when every line has it. */
  lemma {:induction false} KeepExtremes(a: seq<G2oLine>, fixes: bool)
    ensures |Keep(a, fixes)| == 0 <==> forall k :: 0 <= k < |a| ==> a[k].Fix? != fixes
    ensures (forall k :: 0 <= k < |a| ==> a[k].Fix? == fixes) ==> Keep(a, fixes) == a
  {
    if |a| > 0 {
      KeepExtremes(a[1..], fixes);
      assert forall k :: 1 <= k < |a| ==> a[k] == a[1..][k - 1];
      assert [a[0]] + a[1..] == a;
    }
  }

  lemma {:induction false} FixesOfAppend(a: seq<JsonLine>, b: seq<JsonLine>)
    ensures FixesOf(a + b) == FixesOf(a) + FixesOf(b)
  {
    if |a| > 0 {
      FixesOfAppend(a[1..], b);
      assert (a + b)[1..] == a[1..] + b;
    } else {
      assert a + b == b;
    }
  }

  lemma {:induction false} FixesOfNone(a: seq<JsonLine>)
    requires forall k :: 0 <= k < |a| ==> !IsFix(a[k])
    ensures FixesOf(a) == []
  {
    if |a| > 0 {
      FixesOfNone(a[1..]);
    }
  }

  lemma {:induction false} FixesOfRaw(doc: seq<G2oLine>)
    ensures FixesOf(RawLines(doc)) == Keep(doc, true)
  {
    if |doc| > 0 {
      FixesOfRaw(doc[1..]);
      assert RawLines(doc) == [Raw(doc[0])] + RawLines(doc[1..]);
    }
  }

  lemma FixesOfWrap(doc: seq<G2oLine>)
    ensures FixesOf(Wrap(doc)) == Keep(doc, true)
  {
    FixesOfAppend(HEADER + RawLines(doc), FOOTER);
    FixesOfAppend(HEADER, RawLines(doc));
    FixesOfRaw(doc);
    FixesOfNone(HEADER);
    FixesOfNone(FOOTER);
  }

  lemma WrapWellFormed(doc: seq<G2oLine>)
    requires WellFormedDocument(doc)
    ensures AllWellFormed(Wrap(doc))
  {
    var w := Wrap(doc);
    forall k | 0 <= k < |w| ensures WellFormedLine(w[k]) {
      if 3 <= k < 3 + |doc| {
        assert w[k] == Raw(doc[k - 3]);
      }
    }
  }

  lemma SpliceNothing(a: seq<JsonLine>, b: seq<JsonLine>)
    ensures a + [] + b == a + b
  {
  }

  lemma FixesOfSplice(lines: seq<JsonLine>, i: nat, mid: seq<JsonLine>)
    requires i < |lines|
    ensures FixesOf(lines) == FixesOf(lines[..i]) + FixesOf([lines[i]]) + FixesOf(lines[i + 1..])
    ensures FixesOf(lines[..i] + mid + lines[i + 1..]) == FixesOf(lines[..i]) + FixesOf(mid) + FixesOf(lines[i + 1..])
  {
    assert lines == lines[..i] + [lines[i]] + lines[i + 1..];
    FixesOfAppend(lines[..i] + [lines[i]], lines[i + 1..]);
    FixesOfAppend(lines[..i], [lines[i]]);
    FixesOfAppend(lines[..i] + mid, lines[i + 1..]);
    FixesOfAppend(lines[..i], mid);
  }

  /** Removing the first FIX line drops the first of the FIX lines. */
  lemma FixRemovedAt(lines: seq<JsonLine>, i: nat)
    requires i < |lines| && IsFix(lines[i])
    requires forall k :: 0 <= k < i ==> !IsFix(lines[k])
    ensures FixesOf(ReplaceAt(FixLine, lines, i)) == Tail(FixesOf(lines))
  {
    var a, x, b := lines[..i], lines[i], lines[i + 1..];
    CutAt(lines, i);
    FixesOfNonePrefix(lines, i);
    FixesOfCut(a, x, b);
    TailOfCons(x.g2o, FixesOf(b));
  }

  lemma CutAt<T>(s: seq<T>, i: nat)
    requires i < |s|
    ensures s == s[..i] + [s[i]] + s[i + 1..]
  {
  }

  lemma FixesOfNonePrefix(lines: seq<JsonLine>, i: nat)
    requires i <= |lines|
    requires forall k :: 0 <= k < i ==> !IsFix(lines[k])
    ensures FixesOf(lines[..i]) == []
  {
    var a := lines[..i];
    forall k | 0 <= k < |a| ensures !IsFix(a[k]) {
      assert a[k] == lines[k];
    }
    FixesOfNone(a);
  }

  /** With no FIX line before it, a FIX line `x` is the first of the FIX lines, and cutting it out leaves the rest. */
  lemma FixesOfCut(a: seq<JsonLine>, x: JsonLine, b: seq<JsonLine>)
    requires FixesOf(a) == [] && IsFix(x)
    ensures FixesOf(a + b) == FixesOf(b)
    ensures FixesOf(a + [x] + b) == [x.g2o] + FixesOf(b)
  {
    var ax := a + [x];
    FixesOfAppend(a, [x]);
    FixesOfOne(x);
    assert FixesOf(ax) == [x.g2o];
    FixesOfAppend(ax, b);
    FixesOfAppend(a, b);
  }

  /** Removing a line keeps the others well formed. */
  lemma RemovedWellFormed(lines: seq<JsonLine>, i: nat)
    requires AllWellFormed(lines) && i < |lines|
    ensures AllWellFormed(ReplaceAt(FixLine, lines, i))
  {
    SpliceNothing(lines[..i], lines[i + 1..]);
    SpliceWellFormed(lines, i, []);
  }

  lemma FixesOfOne(x: JsonLine)
    ensures FixesOf([x]) == if IsFix(x) then [x.g2o] else []
  {
  }

  lemma TailOfCons<T>(x: T, s: seq<T>)
    ensures Tail([x] + s) == s
  {
  }

  /** Removing the leftmost match of "FIX (.*)\n" takes out the first FIX line and no other. */
  lemma FixStepRemovesFirst(lines: seq<JsonLine>)
    requires AllWellFormed(lines)
    requires |lines| > 0 && lines[|lines| - 1] == Layout("}")
    ensures FixesOf(ReplaceFirst(FixLine, lines)) == Tail(FixesOf(lines))
    ensures AllWellFormed(ReplaceFirst(FixLine, lines))
  {
    var i := FirstMatch(FixLine, lines, 0);
    FirstFixLine(lines);
    if i == |lines| {
      FixesOfNone(lines);
    } else {
      FixRemovedAt(lines, i);
      RemovedWellFormed(lines, i);
    }
  }

  /** The leftmost match of "FIX (.*)\n" is at the first FIX line, if there is one. */
  lemma FirstFixLine(lines: seq<JsonLine>)
    requires AllWellFormed(lines)
    requires |lines| > 0 && lines[|lines| - 1] == Layout("}")
    ensures var i := FirstMatch(FixLine, lines, 0);
      && (i < |lines| ==> IsFix(lines[i]))
      && forall k :: 0 <= k < i ==> !IsFix(lines[k])
  {
    var i := FirstMatch(FixLine, lines, 0);
    FirstMatchFound(FixLine, lines, 0);
    forall k | 0 <= k < i ensures !IsFix(lines[k]) {
      if k + 1 < |lines| {
        FixMatchesAt(lines, k);
      }
    }
    if i < |lines| {
      FixMatchesAt(lines, i);
    }
  }

  /** Putting lines that are not FIX lines in place of a line that is not one keeps the FIX lines. */
  lemma SpliceKeepsFixes(lines: seq<JsonLine>, i: nat, mid: seq<JsonLine>)
    requires AllWellFormed(lines) && AllWellFormed(mid) && i < |lines| && !IsFix(lines[i])
    requires forall k :: 0 <= k < |mid| ==> !IsFix(mid[k])
    ensures FixesOf(lines[..i] + mid + lines[i + 1..]) == FixesOf(lines)
    ensures AllWellFormed(lines[..i] + mid + lines[i + 1..])
  {
    FixesOfSplice(lines, i, mid);
    FixesOfNone(mid);
    FixesOfNone([lines[i]]);
    SpliceWellFormed(lines, i, mid);
  }

  /** A record, maybe followed by the separator: well formed, and no FIX line among them. */
  lemma RecordThenLayout(d: JsonLine, layout: seq<JsonLine>)
    requires d.VertexRecord? || d.EdgeRecord?
    requires layout == [] || layout == SEPARATOR
    ensures AllWellFormed([d] + layout)
    ensures forall k :: 0 <= k < |[d] + layout| ==> !IsFix(([d] + layout)[k])
  {
  }

  /** Dropping the comma of a record (and maybe adding the separator) keeps the FIX lines and well-formedness. */
  lemma CommaDroppedAt(p: Pattern, lines: seq<JsonLine>, i: nat)
    requires p != FixLine
    requires AllWellFormed(lines) && i < |lines| && CommaRecord(lines[i])
    ensures FixesOf(ReplaceAt(p, lines, i)) == FixesOf(lines)
    ensures AllWellFormed(ReplaceAt(p, lines, i))
  {
    if p == Division {
      SeparatorAfterRecord(lines, i);
    } else {
      RecordAlone(lines, i);
    }
  }

  lemma SeparatorAfterRecord(lines: seq<JsonLine>, i: nat)
    requires AllWellFormed(lines) && i < |lines| && CommaRecord(lines[i])
    ensures var r := lines[..i] + ([DropComma(lines[i])] + SEPARATOR) + lines[i + 1..];
      FixesOf(r) == FixesOf(lines) && AllWellFormed(r)
  {
    var d := DropComma(lines[i]);
    RecordThenLayout(d, SEPARATOR);
    SpliceKeepsFixes(lines, i, [d] + SEPARATOR);
  }

  lemma RecordAlone(lines: seq<JsonLine>, i: nat)
    requires AllWellFormed(lines) && i < |lines| && CommaRecord(lines[i])
    ensures var r := lines[..i] + [DropComma(lines[i])] + lines[i + 1..];
      FixesOf(r) == FixesOf(lines) && AllWellFormed(r)
  {
    var d := DropComma(lines[i]);
    RecordThenLayout(d, []);
    SpliceKeepsFixes(lines, i, [d]);
  }

  /** A replacement that only removes a comma (and may add the separator) leaves every FIX line alone. */
  lemma CommaStepKeepsFixes(p: Pattern, lines: seq<JsonLine>)
    requires p != FixLine
    requires AllWellFormed(lines)
    ensures FixesOf(ReplaceFirst(p, lines)) == FixesOf(lines)
    ensures AllWellFormed(ReplaceFirst(p, lines))
  {
    var i := FirstMatch(p, lines, 0);
    FirstMatchFound(p, lines, 0);
    if i < |lines| {
      if p == Division {
        DivisionMatchesAt(lines, i);
      } else {
        ListEndMatchesAt(lines, i);
      }
      CommaDroppedAt(p, lines, i);
    }
  }

  lemma {:induction false} CaptureStepKeepsFixes(c: Capture, lines: seq<JsonLine>)
    requires AllWellFormed(lines)
    ensures FixesOf(ReplaceAll(c, lines)) == FixesOf(lines)
    ensures AllWellFormed(ReplaceAll(c, lines))
  {
    if |lines| > 0 {
      CaptureStepKeepsFixes(c, lines[1..]);
      assert ReplaceAll(c, lines) == [Rewrite(c, lines[0])] + ReplaceAll(c, lines[1..]);
    }
  }

  /** Only the first FIX line is removed: every later one stays in the output as g2o text. */
  lemma LaterFixLinesKept(doc: seq<G2oLine>)
    requires WellFormedDocument(doc)
    ensures FixesOf(ReplaceFirst(ListEnd, ReplaceAll(EdgeCapture, ReplaceFirst(Division,
              ReplaceAll(VertexCapture, ReplaceFirst(FixLine, Wrap(doc))))))) == Tail(Keep(doc, true))
  {
    var s0 := Wrap(doc);
    WrapWellFormed(doc);
    FixesOfWrap(doc);
    FixStepRemovesFirst(s0);
    var s1 := ReplaceFirst(FixLine, s0);
    CaptureStepKeepsFixes(VertexCapture, s1);
    var s2 := ReplaceAll(VertexCapture, s1);
    CommaStepKeepsFixes(Division, s2);
    var s3 := ReplaceFirst(Division, s2);
    CaptureStepKeepsFixes(EdgeCapture, s3);
    var s4 := ReplaceAll(EdgeCapture, s3);
    CommaStepKeepsFixes(ListEnd, s4);
  }

  // ---------------------------------------------------------------------------
  // An expected document, step by step

  lemma ExpectedDocumentJson(doc: seq<G2oLine>)
    requires Expected(doc)
    ensures ReplaceFirst(ListEnd, ReplaceAll(EdgeCapture, ReplaceFirst(Division,
              ReplaceAll(VertexCapture, ReplaceFirst(FixLine, Wrap(doc)))))) == ModelJson(ParsedModel(doc))
  {
    var d := Keep(doc, false);
    var n := VertexPrefix(d, 0);
    var m := ParsedModel(doc);
    VertexHalf(doc);
    var s2 := ReplaceAll(VertexCapture, ReplaceFirst(FixLine, Wrap(doc)));
    assert s2 == HEADER + VertexRecords(m.vertices, true) + RawLines(d[n..]) + FOOTER;
    KeptWellFormed(doc);
    EdgeHalf(d, n, m.vertices, m.edges);
  }

  /** Up to the vertex records: the FIX line is gone and every vertex line is a record. */
  lemma VertexHalf(doc: seq<G2oLine>)
    requires Expected(doc)
    ensures var d := Keep(doc, false);
      ReplaceAll(VertexCapture, ReplaceFirst(FixLine, Wrap(doc)))
      == HEADER + VertexRecords(ParsedModel(doc).vertices, true) + RawLines(d[VertexPrefix(d, 0)..]) + FOOTER
  {
    var d := Keep(doc, false);
    FixStep(doc);
    VertexStep(d, VertexPrefix(d, 0), ParsedModel(doc).vertices);
  }

  /** From the vertex records on: the separator, the edge records and the closing. */
  lemma EdgeHalf(d: seq<G2oLine>, n: nat, vs: seq<Vertex>, es: seq<Edge>)
    requires 0 < n == |vs| < |d| && |es| == |d| - n
    requires forall k :: n <= k < |d| ==> d[k].EdgeSe2? && d[k].WellFormed()
    requires forall k :: 0 <= k < |es| ==> es[k] == ParseEdgeLine(d[n + k])
    ensures ReplaceFirst(ListEnd, ReplaceAll(EdgeCapture, ReplaceFirst(Division,
              HEADER + VertexRecords(vs, true) + RawLines(d[n..]) + FOOTER)))
            == ModelJson(FactorGraphModel(vs, es))
  {
    DivisionStep(d, n, vs);
    EdgeStep(d, n, vs, es);
    EndStep(vs, es);
  }

  /** The lines other than FIX lines are as well formed as the document. */
  lemma {:induction false} KeptWellFormed(doc: seq<G2oLine>)
    requires WellFormedDocument(doc)
    ensures WellFormedDocument(Keep(doc, false))
  {
    if |doc| > 0 {
      KeptWellFormed(doc[1..]);
    }
  }

  lemma {:induction false} RawLinesAppend(a: seq<G2oLine>, b: seq<G2oLine>)
    ensures RawLines(a + b) == RawLines(a) + RawLines(b)
  {
    assert |RawLines(a + b)| == |RawLines(a) + RawLines(b)|;
    forall k | 0 <= k < |a| + |b| ensures RawLines(a + b)[k] == (RawLines(a) + RawLines(b))[k] {
      if k >= |a| {
        assert (a + b)[k] == b[k - |a|];
      }
    }
  }

  /** The lines other than FIX lines, when the only FIX line is at `f`. */
  lemma KeepWithoutOnlyFix(doc: seq<G2oLine>, f: nat)
    requires f < |doc| && doc[f].Fix? && |Keep(doc, true)| <= 1
    ensures Keep(doc, false) == doc[..f] + doc[f + 1..]
  {
    var a, x, b := doc[..f], doc[f], doc[f + 1..];
    assert doc == a + [x] + b;
    KeepAroundOne(a, x, b, true);
    KeepAroundOne(a, x, b, false);
    KeepExtremes(a, true);
    KeepExtremes(b, true);
    KeepExtremes(a, false);
    KeepExtremes(b, false);
  }

  /** `Keep` of a sequence with one line singled out. */
  lemma KeepAroundOne(a: seq<G2oLine>, x: G2oLine, b: seq<G2oLine>, fixes: bool)
    ensures Keep(a + [x] + b, fixes) == Keep(a, fixes) + (if x.Fix? == fixes then [x] else []) + Keep(b, fixes)
  {
    KeepAppend(a + [x], b, fixes);
    KeepAppend(a, [x], fixes);
    assert Keep([x], fixes) == if x.Fix? == fixes then [x] else [];
  }

  /** In the wrapped input, "FIX (.*)\n" matches exactly at the FIX lines of the input. */
  lemma FixMatchInWrap(doc: seq<G2oLine>, j: nat)
    requires WellFormedDocument(doc) && j < |Wrap(doc)|
    ensures MatchesAt(FixLine, Wrap(doc), j) <==> 3 <= j < 3 + |doc| && doc[j - 3].Fix?
  {
    var w := Wrap(doc);
    WrapWellFormed(doc);
    if j + 1 < |w| {
      FixMatchesAt(w, j);
      if 3 <= j < 3 + |doc| {
        assert w[j] == Raw(doc[j - 3]);
      }
    }
  }

  /** Removing input line `f` from the wrapped input. */
  lemma WrapWithout(doc: seq<G2oLine>, f: nat)
    requires f < |doc|
    ensures ReplaceAt(FixLine, Wrap(doc), f + 3) == HEADER + RawLines(doc[..f] + doc[f + 1..]) + FOOTER
  {
    var w := Wrap(doc);
    RawLinesAppend(doc[..f], doc[f + 1..]);
    assert doc == doc[..f] + [doc[f]] + doc[f + 1..];
    RawLinesAppend(doc[..f] + [doc[f]], doc[f + 1..]);
    RawLinesAppend(doc[..f], [doc[f]]);
    assert w[..f + 3] == HEADER + RawLines(doc[..f]);
    assert w[f + 4..] == RawLines(doc[f + 1..]) + FOOTER;
  }

  /** With at most one FIX line, the FIX step leaves exactly the other lines. */
  lemma FixStep(doc: seq<G2oLine>)
    requires WellFormedDocument(doc) && |Keep(doc, true)| <= 1
    ensures ReplaceFirst(FixLine, Wrap(doc)) == HEADER + RawLines(Keep(doc, false)) + FOOTER
  {
    var w := Wrap(doc);
    var i := FirstMatch(FixLine, w, 0);
    FirstMatchFound(FixLine, w, 0);
    if i == |w| {
      NoFixMatch(doc);
    } else {
      OnlyFixRemoved(doc, i);
    }
  }

  /** Without a match of the FIX pattern, the input has no FIX line. */
  lemma NoFixMatch(doc: seq<G2oLine>)
    requires WellFormedDocument(doc)
    requires forall j :: 0 <= j < |Wrap(doc)| ==> !MatchesAt(FixLine, Wrap(doc), j)
    ensures Keep(doc, false) == doc
  {
    forall k | 0 <= k < |doc| ensures !doc[k].Fix? {
      FixMatchInWrap(doc, k + 3);
    }
    KeepExtremes(doc, false);
  }

  /** Removing the line of a match, when it is the only FIX line. */
  lemma OnlyFixRemoved(doc: seq<G2oLine>, i: nat)
    requires WellFormedDocument(doc) && |Keep(doc, true)| <= 1
    requires i < |Wrap(doc)| && MatchesAt(FixLine, Wrap(doc), i)
    ensures ReplaceAt(FixLine, Wrap(doc), i) == HEADER + RawLines(Keep(doc, false)) + FOOTER
  {
    FixMatchInWrap(doc, i);
    var f := i - 3;
    KeepWithoutOnlyFix(doc, f);
    WrapWithout(doc, f);
  }

  lemma VertexStep(d: seq<G2oLine>, n: nat, vs: seq<Vertex>)
    requires n == |vs| < |d|
    requires forall k :: 0 <= k < n ==> d[k].VertexSe2? && vs[k] == ParseVertexLine(d[k])
    requires forall k :: n <= k < |d| ==> d[k].EdgeSe2?
    ensures ReplaceAll(VertexCapture, HEADER + RawLines(d) + FOOTER)
            == HEADER + VertexRecords(vs, true) + RawLines(d[n..]) + FOOTER
  {
  }

  /** The vertex records, all followed by a comma, then the remaining g2o lines. */
  function VertexListed(vs: seq<Vertex>, rest: seq<G2oLine>): seq<JsonLine>
  {
    HEADER + VertexRecords(vs, true) + RawLines(rest) + FOOTER
  }

  /** "},\nEDGE_SE2" first matches at the last vertex record, when an edge line follows it. */
  lemma DivisionInVertexList(vs: seq<Vertex>, rest: seq<G2oLine>, j: nat)
    requires |vs| > 0 && |rest| > 0 && rest[0].EdgeSe2? && rest[0].WellFormed()
    requires j <= 2 + |vs|
    ensures MatchesAt(Division, VertexListed(vs, rest), j) <==> j == 2 + |vs|
  {
    var lines := VertexListed(vs, rest);
    if j < 3 {
      assert lines[j] == HEADER[j];
    } else {
      assert lines[j] == VertexRecord(vs[j - 3], true);
    }
    if j < 2 + |vs| {
      assert lines[j + 1] == if j < 2 then HEADER[j + 1] else VertexRecord(vs[j - 2], true);
    } else {
      assert lines[j + 1] == Raw(rest[0]);
    }
    DivisionMatchesAt(lines, j);
  }

  lemma DivisionSplice(vs: seq<Vertex>, rest: seq<G2oLine>)
    requires |vs| > 0
    ensures ReplaceAt(Division, VertexListed(vs, rest), 2 + |vs|)
            == HEADER + VertexRecords(vs, false) + SEPARATOR + RawLines(rest) + FOOTER
  {
    var lines := VertexListed(vs, rest);
    var n := |vs|;
    assert lines[2 + n] == VertexRecord(vs[n - 1], true);
    assert lines[..2 + n] == HEADER + VertexRecords(vs, true)[..n - 1];
    assert lines[3 + n..] == RawLines(rest) + FOOTER;
    assert VertexRecords(vs, false) == VertexRecords(vs, true)[..n - 1] + [VertexRecord(vs[n - 1], false)];
  }

  lemma DivisionStep(d: seq<G2oLine>, n: nat, vs: seq<Vertex>)
    requires 0 < n == |vs| < |d|
    requires forall k :: n <= k < |d| ==> d[k].EdgeSe2? && d[k].WellFormed()
    ensures ReplaceFirst(Division, HEADER + VertexRecords(vs, true) + RawLines(d[n..]) + FOOTER)
            == HEADER + VertexRecords(vs, false) + SEPARATOR + RawLines(d[n..]) + FOOTER
  {
    var rest := d[n..];
    assert rest[0] == d[n];
    forall j | 0 <= j <= 2 + n ensures MatchesAt(Division, VertexListed(vs, rest), j) <==> j == 2 + n {
      DivisionInVertexList(vs, rest, j);
    }
    FirstMatchIs(Division, VertexListed(vs, rest), 2 + n);
    DivisionSplice(vs, rest);
  }

  lemma EdgeStep(d: seq<G2oLine>, n: nat, vs: seq<Vertex>, es: seq<Edge>)
    requires n <= |d| && |es| == |d| - n
    requires forall k :: 0 <= k < |es| ==> d[n + k].EdgeSe2? && es[k] == ParseEdgeLine(d[n + k])
    ensures ReplaceAll(EdgeCapture, HEADER + VertexRecords(vs, false) + SEPARATOR + RawLines(d[n..]) + FOOTER)
            == HEADER + VertexRecords(vs, false) + SEPARATOR + EdgeRecords(es, true) + FOOTER
  {
  }

  /** The vertex records, the separator, then the edge records all followed by a comma. */
  function EdgeListed(vs: seq<Vertex>, es: seq<Edge>): seq<JsonLine>
  {
    HEADER + VertexRecords(vs, false) + SEPARATOR + EdgeRecords(es, true) + FOOTER
  }

  lemma EdgeListedLine(vs: seq<Vertex>, es: seq<Edge>, j: nat)
    requires j < |EdgeListed(vs, es)|
    ensures var l := EdgeListed(vs, es)[j];
      && WellFormedLine(l)
      && (CommaRecord(l) ==> 3 <= j < 2 + |vs| || 6 + |vs| <= j < 6 + |vs| + |es|)
      && (3 <= j < 3 + |vs| ==> l.VertexRecord?)
      && (6 + |vs| <= j < 6 + |vs| + |es| ==> l == EdgeRecord(es[j - 6 - |vs|], true))
      && (j == 6 + |vs| + |es| ==> l == Layout("  ]"))
      && (j == 7 + |vs| + |es| ==> l == Layout("}"))
  {
    var lines := EdgeListed(vs, es);
    var n := |vs|;
    if j < 3 {
      assert lines[j] == HEADER[j];
    } else if j < 3 + n {
      assert lines[j] == VertexRecord(vs[j - 3], j - 3 + 1 < n);
    } else if j < 6 + n {
      assert lines[j] == SEPARATOR[j - 3 - n];
    } else if j < 6 + n + |es| {
      assert lines[j] == EdgeRecord(es[j - 6 - n], true);
    } else {
      assert lines[j] == FOOTER[j - 6 - n - |es|];
    }
  }

  /** "},\n  ]\n}" first matches at the last edge record. */
  lemma ListEndInEdgeList(vs: seq<Vertex>, es: seq<Edge>, j: nat)
    requires |es| > 0 && j <= 5 + |vs| + |es|
    ensures MatchesAt(ListEnd, EdgeListed(vs, es), j) <==> j == 5 + |vs| + |es|
  {
    EdgeListedLine(vs, es, j);
    EdgeListedLine(vs, es, j + 1);
    EdgeListedLine(vs, es, j + 2);
    ListEndMatchesAt(EdgeListed(vs, es), j);
  }

  lemma ListEndSplice(vs: seq<Vertex>, es: seq<Edge>)
    requires |es| > 0
    ensures ReplaceAt(ListEnd, EdgeListed(vs, es), 5 + |vs| + |es|) == ModelJson(FactorGraphModel(vs, es))
  {
    var lines := EdgeListed(vs, es);
    var q := 5 + |vs| + |es|;
    assert lines[q] == EdgeRecord(es[|es| - 1], true);
    assert lines[..q] == HEADER + VertexRecords(vs, false) + SEPARATOR + EdgeRecords(es, true)[..|es| - 1];
    assert lines[q + 1..] == FOOTER;
    assert EdgeRecords(es, false) == EdgeRecords(es, true)[..|es| - 1] + [EdgeRecord(es[|es| - 1], false)];
  }

  lemma EndStep(vs: seq<Vertex>, es: seq<Edge>)
    requires |es| > 0
    ensures ReplaceFirst(ListEnd, HEADER + VertexRecords(vs, false) + SEPARATOR + EdgeRecords(es, true) + FOOTER)
            == ModelJson(FactorGraphModel(vs, es))
  {
    var q := 5 + |vs| + |es|;
    forall j | 0 <= j <= q ensures MatchesAt(ListEnd, EdgeListed(vs, es), j) <==> j == q {
      ListEndInEdgeList(vs, es, j);
    }
    FirstMatchIs(ListEnd, EdgeListed(vs, es), q);
    ListEndSplice(vs, es);
  }

  // ---------------------------------------------------------------------------
  // Input without a final line break

  /** When the input has no final line break, the closing of the list is written onto the
      input's last line. */
  lemma GluedClosingText(lines: seq<string>)
    requires |lines| > 0
    ensures var n := |lines|;
      "{\n  \"vertices\":\n  [\n" + Join(lines, "\n") + "  ]\n}"
      == Join(OPENING + (lines[..n - 1] + [lines[n - 1] + "  ]"] + ["}"]), "\n")
  {
    GluedJoin(OPENING, lines, "  ]", "}", "\n");
    LayoutJoins();
    ClosingAfter(Join(OPENING, "\n"), Join(lines, "\n"));
  }

  lemma ClosingAfter(o: string, j: string)
    requires o + "\n" == "{\n  \"vertices\":\n  [\n"
    ensures "{\n  \"vertices\":\n  [\n" + j + "  ]\n}" == o + "\n" + j + "  ]" + "\n" + "}"
  {
    assert "  ]\n}" == "  ]" + "\n" + "}";
  }

  /** The opening lines are single lines, none of them the closing of a list. */
  lemma OpeningPlain()
    ensures forall k :: 0 <= k < |OPENING| ==> '\n' !in OPENING[k] && OPENING[k] != "  ]"
  {
    assert |OPENING[0]| == 1 && |OPENING[1]| == 13;
    assert OPENING[2][2] != "  ]"[2];
  }

  /** The lines of that string, when no input line holds a line break. */
  lemma GluedClosingSplit(lines: seq<string>)
    requires |lines| > 0
    requires forall k :: 0 <= k < |lines| ==> '\n' !in lines[k]
    ensures var n := |lines|;
      Split("{\n  \"vertices\":\n  [\n" + Join(lines, "\n") + "  ]\n}", '\n')
      == OPENING + (lines[..n - 1] + [lines[n - 1] + "  ]"] + ["}"])
  {
    var n := |lines|;
    var rest := lines[..n - 1] + [lines[n - 1] + "  ]"] + ["}"];
    GluedClosingText(lines);
    GluedPartsPlain(lines, rest);
    SplitJoin(OPENING + rest, '\n');
  }

  lemma GluedPartsPlain(lines: seq<string>, rest: seq<string>)
    requires |lines| > 0
    requires forall k :: 0 <= k < |lines| ==> '\n' !in lines[k]
    requires rest == lines[..|lines| - 1] + [lines[|lines| - 1] + "  ]"] + ["}"]
    ensures forall k :: 0 <= k < |OPENING + rest| ==> '\n' !in (OPENING + rest)[k]
  {
    var n := |lines|;
    var parts := OPENING + rest;
    OpeningPlain();
    forall k | 0 <= k < |parts| ensures '\n' !in parts[k] {
      if k < 3 {
        assert parts[k] == OPENING[k];
      } else if k < n + 2 {
        assert parts[k] == lines[k - 3];
      } else if k == n + 2 {
        assert parts[k] == lines[n - 1] + "  ]";
      } else {
        assert parts[k] == "}";
      }
    }
  }

  // ---------------------------------------------------------------------------
  // More than one FIX line

  /** No line of the JSON form of a model is a g2o FIX line. */
  lemma NoFixInModelJson(m: FactorGraphModel)
    ensures FixesOf(ModelJson(m)) == []
  {
    var j := ModelJson(m);
    forall k | 0 <= k < |j| ensures !IsFix(j[k]) {
      var h := |HEADER| + |m.vertices|;
      if k < |HEADER| {
        assert j[k] == HEADER[k];
      } else if k < h {
        assert j[k] == VertexRecords(m.vertices, false)[k - |HEADER|];
      } else if k < h + |SEPARATOR| {
        assert j[k] == SEPARATOR[k - h];
      } else if k < h + |SEPARATOR| + |m.edges| {
        assert j[k] == EdgeRecords(m.edges, false)[k - h - |SEPARATOR|];
      } else {
        assert j[k] == FOOTER[k - h - |SEPARATOR| - |m.edges|];
      }
    }
    FixesOfNone(j);
  }

  /** A document with a second FIX line is converted into something that is the JSON form
      of no model: `Regex::replace` removes the first FIX line only, and the second stays
      in the output as g2o text. */
  lemma SecondFixLineKept(doc: seq<G2oLine>)
    requires WellFormedDocument(doc) && |Keep(doc, true)| >= 2
    ensures forall m :: ReplaceFirst(ListEnd, ReplaceAll(EdgeCapture, ReplaceFirst(Division,
              ReplaceAll(VertexCapture, ReplaceFirst(FixLine, Wrap(doc)))))) != ModelJson(m)
  {
    LaterFixLinesKept(doc);
    forall m ensures ReplaceFirst(ListEnd, ReplaceAll(EdgeCapture, ReplaceFirst(Division,
              ReplaceAll(VertexCapture, ReplaceFirst(FixLine, Wrap(doc)))))) != ModelJson(m) {
      NoFixInModelJson(m);
    }
  }

  /** A document meeting both stated expectations, with two FIX lines. */
  const TWO_FIX_EXAMPLE: seq<G2oLine> := [
    Fix("0"),
    VertexSe2("0", "0", "0", "0"),
    Fix("1"),
    VertexSe2("1", "1", "0", "0"),
    EdgeSe2("0", "1", "1", "0", "0", "1", "0", "0", "1", "0", "1")]

  /** The two FIX lines are allowed by the stated expectations; the second stays in the output. */
  lemma TwoFixExampleKept()
    ensures Arranged(TWO_FIX_EXAMPLE) && !Expected(TWO_FIX_EXAMPLE)
    ensures FixesOf(ReplaceFirst(ListEnd, ReplaceAll(EdgeCapture, ReplaceFirst(Division,
              ReplaceAll(VertexCapture, ReplaceFirst(FixLine, Wrap(TWO_FIX_EXAMPLE))))))) == [Fix("1")]
  {
    TwoFixExampleArranged();
    LaterFixLinesKept(TWO_FIX_EXAMPLE);
  }

  lemma TwoFixExampleArranged()
    ensures Arranged(TWO_FIX_EXAMPLE)
    ensures Keep(TWO_FIX_EXAMPLE, true) == [Fix("0"), Fix("1")]
  {
    var doc := TWO_FIX_EXAMPLE;
    TwoFixExampleWellFormed();
    var d := Keep(doc, false);
    assert d == [doc[1], doc[3], doc[4]];
    assert Keep(doc, true) == [doc[0], doc[2]];
    assert VertexPrefix(d, 2) == 2;
    assert VertexPrefix(d, 0) == VertexPrefix(d, 1) == 2;
  }

  lemma TwoFixExampleWellFormed()
    ensures WellFormedDocument(TWO_FIX_EXAMPLE)
  {
    var doc := TWO_FIX_EXAMPLE;
    forall k | 0 <= k < |doc| ensures doc[k].WellFormed() {
      ZeroOneFields(doc[k]);
    }
  }

  /** A line whose values are all "0" or "1" is well formed. */
  lemma ZeroOneFields(l: G2oLine)
    requires forall t :: t in l.Fields()[1..] ==> t == "0" || t == "1"
    ensures l.WellFormed()
  {
    assert IsNumberText("0") && IsNumberText("1");
    var vs := l.Fields()[1..];
    forall k | 0 <= k < |vs| ensures IsNumberText(vs[k]) {
      assert vs[k] in vs;
    }
  }

  // ---------------------------------------------------------------------------
  // Every FIX line removed

  /** `Regex::replace_all` of "FIX (.*)\n": every line from `from` on at which the pattern
      matches is removed. */
  function RemoveFixMatches(lines: seq<JsonLine>, from: nat): seq<JsonLine>
    requires from <= |lines|
    decreases |lines| - from
  {
    if from == |lines| then []
    else (if MatchesAt(FixLine, lines, from) then [] else [lines[from]]) + RemoveFixMatches(lines, from + 1)
  }

  /** `g2o_to_json` with the FIX lines removed by `replace_all` instead of `replace`. */
  method G2oToJsonRemovingEveryFix(g2o: seq<G2oLine>) returns (json: seq<JsonLine>)
    ensures Arranged(g2o) ==> json == ModelJson(ParsedModel(g2o))
    ensures WellFormedDocument(g2o) ==> FixesOf(json) == []
  {
    json := Wrap(g2o);
    json := RemoveFixMatches(json, 0);
    json := ReplaceAll(VertexCapture, json);
    json := ReplaceFirst(Division, json);
    json := ReplaceAll(EdgeCapture, json);
    json := ReplaceFirst(ListEnd, json);
    if Arranged(g2o) {
      EveryFixRemovedJson(g2o);
    }
    if WellFormedDocument(g2o) {
      NoFixLineLeft(g2o);
    }
  }

  /** From input line `i` on, the wrapped input loses exactly its FIX lines. */
  lemma {:induction false} RemoveFixFrom(doc: seq<G2oLine>, i: nat)
    requires WellFormedDocument(doc) && i <= |doc|
    ensures RemoveFixMatches(Wrap(doc), i + 3) == RawLines(Keep(doc[i..], false)) + FOOTER
    decreases |doc| - i
  {
    if i == |doc| {
      RemoveFixFromEnd(doc);
    } else {
      RemoveFixFrom(doc, i + 1);
      RemoveFixFromStep(doc, i);
    }
  }

  lemma RemoveFixFromEnd(doc: seq<G2oLine>)
    ensures RemoveFixMatches(Wrap(doc), |doc| + 3) == RawLines(Keep(doc[|doc|..], false)) + FOOTER
  {
    var w, n := Wrap(doc), |doc|;
    assert w[n + 3] == Layout("  ]") && w[n + 4] == Layout("}");
    RemoveFixFooter(w);
    assert doc[n..] == [];
    assert RawLines(Keep([], false)) == [];
  }

  lemma RemoveFixFromStep(doc: seq<G2oLine>, i: nat)
    requires WellFormedDocument(doc) && i < |doc|
    requires RemoveFixMatches(Wrap(doc), i + 4) == RawLines(Keep(doc[i + 1..], false)) + FOOTER
    ensures RemoveFixMatches(Wrap(doc), i + 3) == RawLines(Keep(doc[i..], false)) + FOOTER
  {
    var w := Wrap(doc);
    FixMatchInWrap(doc, i + 3);
    assert w[i + 3] == Raw(doc[i]);
    RemoveFixLine(w, i + 3);
    KeptFrom(doc, i);
    var x := if doc[i].Fix? then [] else [Raw(doc[i])];
    Prepended(RemoveFixMatches(w, i + 3), x, RemoveFixMatches(w, i + 4),
              RawLines(Keep(doc[i..], false)), RawLines(Keep(doc[i + 1..], false)), FOOTER);
  }

  lemma Prepended<T>(r: seq<T>, x: seq<T>, r': seq<T>, k: seq<T>, k': seq<T>, f: seq<T>)
    requires r == x + r' && r' == k' + f && k == x + k'
    ensures r == k + f
  {
  }

  /** The closing lines are not FIX lines. */
  lemma RemoveFixFooter(lines: seq<JsonLine>)
    requires |lines| >= 2 && lines[|lines| - 2] == Layout("  ]") && lines[|lines| - 1] == Layout("}")
    ensures RemoveFixMatches(lines, |lines| - 2) == FOOTER
  {
    var n := |lines|;
    assert !MatchesAt(FixLine, lines, n - 2);
    assert RemoveFixMatches(lines, n) == [];
    assert RemoveFixMatches(lines, n - 1) == [lines[n - 1]];
  }

  /** Line `i` is removed exactly when the pattern matches there. */
  lemma RemoveFixLine(lines: seq<JsonLine>, i: nat)
    requires i < |lines|
    ensures RemoveFixMatches(lines, i)
            == (if MatchesAt(FixLine, lines, i) then [] else [lines[i]]) + RemoveFixMatches(lines, i + 1)
  {
  }

  /** The raw lines kept from input line `i` on: line `i` unless it is a FIX line, then the rest. */
  lemma KeptFrom(doc: seq<G2oLine>, i: nat)
    requires i < |doc|
    ensures RawLines(Keep(doc[i..], false))
            == (if doc[i].Fix? then [] else [Raw(doc[i])]) + RawLines(Keep(doc[i + 1..], false))
  {
    assert doc[i..][1..] == doc[i + 1..];
    if !doc[i].Fix? {
      RawLinesAppend([doc[i]], Keep(doc[i + 1..], false));
    }
  }

  /** Three lines at which the pattern does not match are kept. */
  lemma RemoveFixKeepsThree(lines: seq<JsonLine>)
    requires |lines| >= 3
    requires !MatchesAt(FixLine, lines, 0) && !MatchesAt(FixLine, lines, 1) && !MatchesAt(FixLine, lines, 2)
    ensures RemoveFixMatches(lines, 0) == lines[..3] + RemoveFixMatches(lines, 3)
  {
    RemoveFixLine(lines, 2);
    RemoveFixLine(lines, 1);
    RemoveFixLine(lines, 0);
    ConsThree(lines, RemoveFixMatches(lines, 3));
  }

  lemma ConsThree<T>(s: seq<T>, r: seq<T>)
    requires |s| >= 3
    ensures [s[0]] + ([s[1]] + ([s[2]] + r)) == s[..3] + r
  {
  }

  /** `replace_all` of the FIX pattern leaves exactly the lines that are not FIX lines. */
  lemma FixStepRemovesEvery(doc: seq<G2oLine>)
    requires WellFormedDocument(doc)
    ensures RemoveFixMatches(Wrap(doc), 0) == HEADER + RawLines(Keep(doc, false)) + FOOTER
  {
    var w := Wrap(doc);
    RemoveFixFrom(doc, 0);
    assert doc[0..] == doc;
    FixMatchInWrap(doc, 0);
    FixMatchInWrap(doc, 1);
    FixMatchInWrap(doc, 2);
    RemoveFixKeepsThree(w);
    assert w[..3] == HEADER;
  }

  /** With every FIX line removed, an arranged document gives the JSON form of its model,
      whatever the number of FIX lines. */
  lemma EveryFixRemovedJson(doc: seq<G2oLine>)
    requires Arranged(doc)
    ensures ReplaceFirst(ListEnd, ReplaceAll(EdgeCapture, ReplaceFirst(Division,
              ReplaceAll(VertexCapture, RemoveFixMatches(Wrap(doc), 0))))) == ModelJson(ParsedModel(doc))
  {
    var d := Keep(doc, false);
    var n := VertexPrefix(d, 0);
    var m := ParsedModel(doc);
    FixStepRemovesEvery(doc);
    VertexStep(d, n, m.vertices);
    KeptWellFormed(doc);
    EdgeHalf(d, n, m.vertices, m.edges);
  }

  /** The lines kept apart from the FIX lines hold no FIX line. */
  lemma {:induction false} NoFixKept(doc: seq<G2oLine>)
    ensures Keep(Keep(doc, false), true) == []
  {
    if |doc| > 0 {
      NoFixKept(doc[1..]);
      if !doc[0].Fix? {
        var r := Keep(doc[1..], false);
        assert ([doc[0]] + r)[1..] == r;
      }
    }
  }

  /** With every FIX line removed, no FIX line is left in the output. */
  lemma NoFixLineLeft(doc: seq<G2oLine>)
    requires WellFormedDocument(doc)
    ensures FixesOf(ReplaceFirst(ListEnd, ReplaceAll(EdgeCapture, ReplaceFirst(Division,
              ReplaceAll(VertexCapture, RemoveFixMatches(Wrap(doc), 0)))))) == []
  {
    var d := Keep(doc, false);
    FixStepRemovesEvery(doc);
    KeptWellFormed(doc);
    WrapWellFormed(d);
    FixesOfWrap(d);
    NoFixKept(doc);
    var s1 := RemoveFixMatches(Wrap(doc), 0);
    CaptureStepKeepsFixes(VertexCapture, s1);
    var s2 := ReplaceAll(VertexCapture, s1);
    CommaStepKeepsFixes(Division, s2);
    var s3 := ReplaceFirst(Division, s2);
    CaptureStepKeepsFixes(EdgeCapture, s3);
    var s4 := ReplaceAll(EdgeCapture, s3);
    CommaStepKeepsFixes(ListEnd, s4);
  }
}
