/** The `/analyze` request handler without the plotting and the web framework:
    from the submitted grade string to either an error message or the
    statistics together with the echoed grade list. */
module Analyzer {
  import opened Wrappers
  import opened Tokenizer
  import opened Statistics

  /** Sent when no token survives parsing. */
  const EmptyMessage: string := "Please enter valid grades"

  /** Sent when some token is not a number. */
  const NumericMessage: string := "Please enter valid numeric grades separated by commas"

  /** The JSON payload: `{error}` or `{stats, grades}`. */
  datatype Response = Failure(error: string) | Success(stats: Stats, grades: seq<real>)

  /** Validation and result shaping for the stripped tokens of one
      submission. `parse` stands for Python's `float()` applied to one token. */
  function Respond(parse: string -> Option<real>, toks: seq<string>): (r: Response)
    ensures r.Failure? ==> r.error == EmptyMessage || r.error == NumericMessage
    ensures r == Failure(NumericMessage) <==> exists i :: 0 <= i < |toks| && parse(toks[i]).None?
    ensures r == Failure(EmptyMessage) <==> toks == []
    ensures r.Success? ==> |r.grades| == |toks| > 0
    ensures r.Success? ==> forall i :: 0 <= i < |toks| ==> parse(toks[i]) == Some(r.grades[i])
    ensures r.Success? ==> r.stats == Describe(r.grades)
  {
    match ParseAll(parse, toks)
    case None => Failure(NumericMessage)
    case Some(grades) =>
      if |grades| == 0 then Failure(EmptyMessage)
      else Success(Describe(grades), grades)
  }

  /** Handles one submission: tokenize, then validate and shape the result.
      The empty-input error comes exactly from submissions made of commas and
      whitespace only, whatever `float()` does. */
  function Analyze(parse: string -> Option<real>, input: string): (r: Response)
    ensures r.Failure? ==> r.error == EmptyMessage || r.error == NumericMessage
    ensures r == Failure(EmptyMessage) <==> AllBlankOrComma(input)
    ensures r == Failure(NumericMessage) <==>
      exists i :: 0 <= i < |Tokens(input)| && parse(Tokens(input)[i]).None?
    ensures r.Success? ==>
      && |r.grades| == |Tokens(input)| > 0
      && (forall i :: 0 <= i < |r.grades| ==> parse(Tokens(input)[i]) == Some(r.grades[i]))
      && r.stats == Describe(r.grades)
  {
    var toks := Tokens(input);
    TokensEmptyIff(input);
    var r := Respond(parse, toks);
    assert r == Failure(NumericMessage) <==> exists i :: 0 <= i < |toks| && parse(toks[i]).None?;
    r
  }

  // ---------------------------------------------------------------------------
  // Worked submissions
  // ---------------------------------------------------------------------------

  /** Once the tokens are known, the response depends on them alone. */
  lemma AnalyzeOfTokens(parse: string -> Option<real>, input: string)
    ensures Analyze(parse, input) == Respond(parse, Tokens(input))
  {
  }

  /** When every token converts, the response echoes the converted grades. */
  lemma RespondGrades(parse: string -> Option<real>, toks: seq<string>, grades: seq<real>)
    requires |toks| == |grades| > 0
    requires forall i :: 0 <= i < |toks| ==> parse(toks[i]) == Some(grades[i])
    ensures Respond(parse, toks) == Success(Describe(grades), grades)
  {
    var r := Respond(parse, toks);
    assert r.Success?;
    assert r.grades == grades;
  }

  /** Three tokens that parse to 70, 80 and 90. */
  lemma RespondThreeGrades(parse: string -> Option<real>, toks: seq<string>, grades: seq<real>)
    requires |toks| == 3 && |grades| == 3
    requires grades[0] == 70.0 && grades[1] == 80.0 && grades[2] == 90.0
    requires parse(toks[0]) == Some(70.0) && parse(toks[1]) == Some(80.0) && parse(toks[2]) == Some(90.0)
    ensures Respond(parse, toks) == Success(Stats(80.0, 80.0, 200.0 / 3.0, 70.0, 90.0, 3), grades)
  {
    RespondGrades(parse, toks, grades);
    ThreeGrades(grades);
  }

  /** `70, 80, 90` yields the three grades and their statistics. */
  lemma ExampleThreeGrades(parse: string -> Option<real>, input: string)
    requires input == "70, 80, 90"
    requires parse("70") == Some(70.0) && parse("80") == Some(80.0) && parse("90") == Some(90.0)
    ensures Analyze(parse, input)
         == Success(Stats(80.0, 80.0, 200.0 / 3.0, 70.0, 90.0, 3), [70.0, 80.0, 90.0])
  {
    var toks := ["70", "80", "90"];
    TokensOfThree(input, "70", "80", "90");
    AnalyzeOfTokens(parse, input);
    RespondThreeGrades(parse, toks, [70.0, 80.0, 90.0]);
  }

  /** A token that is not a number rejects the whole submission. */
  lemma ExampleBadToken(parse: string -> Option<real>, input: string)
    requires input == "70, abc, 90"
    requires parse("abc") == None
    ensures Analyze(parse, input) == Failure(NumericMessage)
  {
    var toks := ["70", "abc", "90"];
    TokensOfThree(input, "70", "abc", "90");
    AnalyzeOfTokens(parse, input);
    assert parse(toks[1]).None?;
  }

  /** The tokens `70`, `80` parse to two grades. */
  lemma RespondTwoGrades(parse: string -> Option<real>, toks: seq<string>)
    requires toks == ["70", "80"]
    requires parse("70") == Some(70.0) && parse("80") == Some(80.0)
    ensures Respond(parse, toks).Success?
    ensures Respond(parse, toks).grades == [70.0, 80.0]
  {
    var grades := [70.0, 80.0];
    forall i | 0 <= i < |toks| ensures parse(toks[i]) == Some(grades[i]) {
      if i == 1 { assert toks[i] == "80"; }
    }
    RespondGrades(parse, toks, grades);
  }

  /** Blank segments and a trailing comma are skipped. */
  lemma ExampleSparse(parse: string -> Option<real>, input: string)
    requires input == "70, ,80,"
    requires parse("70") == Some(70.0) && parse("80") == Some(80.0)
    ensures Analyze(parse, input).Success?
    ensures Analyze(parse, input).grades == [70.0, 80.0]
  {
    var toks := ["70", "80"];
    TokensSparse(input);
    AnalyzeOfTokens(parse, input);
    RespondTwoGrades(parse, toks);
  }

  /** Nothing, whitespace, or whitespace and commas alone are the empty submission. */
  lemma ExampleBlank(parse: string -> Option<real>, input: string)
    requires input == "" || input == "   " || input == " , ,  "
    ensures Analyze(parse, input) == Failure(EmptyMessage)
  {
    assert AllBlankOrComma(input);
  }

  /** One grade, bare or padded, is its own mean, median, minimum and maximum. */
  lemma ExampleSingleGrade(parse: string -> Option<real>, input: string)
    requires input == "85" || input == " 85 "
    requires parse("85") == Some(85.0)
    ensures Analyze(parse, input) == Success(Stats(85.0, 85.0, 0.0, 85.0, 85.0, 1), [85.0])
  {
    var toks := ["85"];
    if input == "85" {
      assert IsToken(input);
      TokensOfToken(input);
    } else {
      TokensSingleGrade(input);
    }
    AnalyzeOfTokens(parse, input);
    RespondGrades(parse, toks, [85.0]);
    SingleGrade(85.0);
  }
}
