/** The format-neutral model a parser produces and a composer consumes:
    ordered vertices and ordered edges. Numbers are carried as the text they
    are read from or written as; the converter never computes with them. */
module ParserModel {

  /** The text of one number: a vertex id, a coordinate, an angle or a matrix entry. */
  type Token = string

  datatype Vertex = Vertex(id: Token, vertexType: string, position: seq<Token>, rotation: seq<Token>)

  /** `informationMatrix` is the full matrix, row-major. */
  datatype Edge = Edge(edgeType: string, vertices: seq<Token>, restriction: seq<Token>, informationMatrix: seq<Token>)

  datatype FactorGraphModel = FactorGraphModel(vertices: seq<Vertex>, edges: seq<Edge>)

  /** `Result<_, String>`; a panic of the source is reported as `Err` here. */
  datatype Result<T> = Ok(value: T) | Err(error: string)

  /** The characters Rust's `{:?}` uses for an `f64` or a `usize` ("-1.5", "3e-7",
      "inf", "NaN"), together with '+' and 'E' which other writers of g2o files use. */
  const NUMBER_CHARS: set<char> :=
    {'0', '1', '2', '3', '4', '5', '6', '7', '8', '9', '+', '-', '.', 'e', 'E', 'i', 'n', 'f', 'N', 'a'}

  predicate IsNumberText(t: Token)
  {
    |t| > 0 && forall k :: 0 <= k < |t| ==> t[k] in NUMBER_CHARS
  }

  predicate AllNumbers(ts: seq<Token>)
  {
    forall k :: 0 <= k < |ts| ==> IsNumberText(ts[k])
  }
}
