/** The `#[iteration_order(A, B, C)]` attribute parser (src/lib.rs:12-42).

    The model sees only the tokens between the parentheses, abstracted to
    identifiers, commas and anything else. The source's loop reads an identifier,
    then, unless the input is exhausted, a comma, and repeats while input remains.
    So a list is well formed exactly when identifiers stand at even positions
    and commas at odd positions; in particular the empty list and a single
    trailing comma are accepted. The diagnostic's span is modelled by the
    position of the offending token.
 */
module IterationOrder {
  import opened Wrappers

  datatype Token = Ident(name: string) | Comma | Other

  datatype ParseError = ExpectedIdentifier(at: nat) | ExpectedComma(at: nat) {

    /** The same error reported `d` tokens further into the input. */
    function Shifted(d: nat): (e: ParseError)
      ensures e.at == at + d
      ensures e.ExpectedIdentifier? == ExpectedIdentifier?
    {
      match this
      case ExpectedIdentifier(i) => ExpectedIdentifier(i + d)
      case ExpectedComma(i) => ExpectedComma(i + d)
    }
  }

  /** The kind of token a well-formed list has at position `j`. */
  predicate Expected(t: Token, j: nat) {
    if j % 2 == 0 then t.Ident? else t == Comma
  }

  /** The first `n` tokens of `toks` alternate identifier, comma, identifier, ... */
  predicate WellFormedUpTo(toks: seq<Token>, n: nat)
    requires n <= |toks|
  {
    forall j :: 0 <= j < n ==> Expected(toks[j], j)
  }

  /** Parses the parenthesised content of one `iteration_order` attribute into
      its identifiers, or reports the first token out of place. The error
      carries no identifiers: a failed parse never yields a partial list. */
  function Parse(toks: seq<Token>): (r: Result<seq<string>, ParseError>)
    ensures r.Success? <==> WellFormedUpTo(toks, |toks|)
    ensures r.Success? ==> |r.value| == (|toks| + 1) / 2
    ensures r.Success? ==> forall j :: 0 <= j < |toks| && j % 2 == 0 ==> toks[j] == Ident(r.value[j / 2])
    ensures r.Failure? ==> r.error.at < |toks| && WellFormedUpTo(toks, r.error.at)
    ensures r.Failure? ==> !Expected(toks[r.error.at], r.error.at)
    ensures r.Failure? ==> (r.error.ExpectedIdentifier? <==> r.error.at % 2 == 0)
    decreases |toks|
  {
    if |toks| == 0 then Success([])
    else if !toks[0].Ident? then Failure(ExpectedIdentifier(0))
    else if |toks| == 1 then Success([toks[0].name])
    else if toks[1] != Comma then Failure(ExpectedComma(1))
    else
      var tail := toks[2..];
      assert forall j :: 0 <= j < |tail| ==> tail[j] == toks[j + 2];
      match Parse(tail)
      case Success(rest) =>
        var names := [toks[0].name] + rest;
        assert forall j :: 2 <= j < |toks| && j % 2 == 0 ==> names[j / 2] == rest[(j - 2) / 2];
        Success(names)
      case Failure(e) => Failure(e.Shifted(2))
  }

  /** The tokens of the list `names`, comma separated, with a comma after the
      last name when `trailingComma` holds. */
  function Render(names: seq<string>, trailingComma: bool): (toks: seq<Token>)
    requires |names| > 0 || !trailingComma
    ensures |toks| == (if |names| == 0 then 0 else 2 * |names| - (if trailingComma then 0 else 1))
    ensures forall j :: 0 <= j < |toks| ==> toks[j] == if j % 2 == 0 then Ident(names[j / 2]) else Comma
  {
    if |names| == 0 then []
    else if |names| == 1 then [Ident(names[0])] + (if trailingComma then [Comma] else [])
    else
      var rest := Render(names[1..], trailingComma);
      var toks := [Ident(names[0]), Comma] + rest;
      assert forall j :: 2 <= j < |toks| ==> toks[j] == rest[j - 2] && (j - 2) / 2 == j / 2 - 1;
      toks
  }

  /** Any comma-separated list of identifiers, with or without one trailing
      comma, parses to exactly its identifiers, in order. */
  lemma {:induction false} ParseRender(names: seq<string>, trailingComma: bool)
    requires |names| > 0 || !trailingComma
    ensures Parse(Render(names, trailingComma)) == Success(names)
  {
    var toks := Render(names, trailingComma);
    assert WellFormedUpTo(toks, |toks|);
    var r := Parse(toks).value;
    assert |r| == |names|;
    forall k | 0 <= k < |r|
      ensures r[k] == names[k]
    {
      assert toks[2 * k] == Ident(r[k]) && toks[2 * k] == Ident(names[k]);
    }
    assert r == names;
  }

  /** Every accepted list is such a rendering of the identifiers it yields: it
      ends in a comma exactly when it is non-empty and of even length. */
  lemma {:induction false} ParseAcceptsOnlyRenderings(toks: seq<Token>)
    requires Parse(toks).Success?
    ensures toks == Render(Parse(toks).value, |toks| > 0 && |toks| % 2 == 0)
  {
    var rendered := Render(Parse(toks).value, |toks| > 0 && |toks| % 2 == 0);
    assert forall j :: 0 <= j < |toks| ==> Expected(toks[j], j);
  }
}
