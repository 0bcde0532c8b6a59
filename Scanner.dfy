/**
 * Finding the relative `require` arguments of a file.
 *
 * The JavaScript parser and its tree walker are not modelled: `parse` stands for
 * parsing a text, giving the nodes of the syntax tree in the order the walker visits
 * them, or `None` when the text has a syntax error.
 */
module Scanner {
  import opened Wrappers
  import opened LineEndings
  import opened SourceBuffer

  /** The first argument of a call as the parser classifies it: a string literal, or
      any other expression. */
  datatype Expr = StringLit(node: StringNode) | NonLiteral

  /** A syntax-tree node: a call with the name of its callee when the callee is a plain
      identifier, or any other node. */
  datatype AstNode = Call(callee: Option<string>, args: seq<Expr>) | OtherNode

  /** The error thrown when `require()` has no argument and the walker reads its position. */
  const MissingArgument := "TypeError"

  /** `/^[\.\/]/.test(requirePath)`. */
  predicate IsRelativeRequire(requirePath: string)
  {
    |requirePath| > 0 && (requirePath[0] == '.' || requirePath[0] == '/')
  }

  predicate IsRequireCall(n: AstNode)
  {
    n.Call? && n.callee == Some("require")
  }

  /** The literal `n` contributes: the relative string literal that is its first argument. */
  predicate Contributes(n: AstNode, lit: StringNode)
  {
    IsRequireCall(n) && |n.args| > 0 && n.args[0] == StringLit(lit) && IsRelativeRequire(lit.value)
  }

  /** What the walker callback collects from `nodes`, visited in order. */
  function RelativeRequireArgs(nodes: seq<AstNode>): Result<seq<StringNode>>
    decreases |nodes|
  {
    if nodes == [] then Ok([])
    else
      match RelativeRequireArgs(nodes[..|nodes| - 1])
      case Err(e) => Err(e)
      case Ok(found) =>
        var n := nodes[|nodes| - 1];
        if !IsRequireCall(n) then Ok(found)
        else if n.args == [] then Err(MissingArgument)
        else match n.args[0]
          case StringLit(lit) => if IsRelativeRequire(lit.value) then Ok(found + [lit]) else Ok(found)
          case NonLiteral => Ok(found)
  }

  /** `findRelativeRequireArgs(text)`: a text that does not parse has no arguments. */
  function ScanText(text: string, parse: string -> Option<seq<AstNode>>): Result<seq<StringNode>>
  {
    match parse(CrlfToLf(text))
    case None => Ok([])
    case Some(nodes) => RelativeRequireArgs(nodes)
  }

  /** Once `require()` without an argument has been met, the walk ends with an error. */
  lemma {:induction false} ErrorPersists(nodes: seq<AstNode>, k: nat)
    requires k <= |nodes| && RelativeRequireArgs(nodes[..k]).Err?
    ensures RelativeRequireArgs(nodes) == Err(MissingArgument)
    decreases |nodes| - k
  {
    assert RelativeRequireArgs(nodes[..k]) == Err(MissingArgument) by {
      ErrorIsMissingArgument(nodes[..k]);
    }
    if k < |nodes| {
      assert nodes[..k + 1][..k] == nodes[..k];
      ErrorPersists(nodes, k + 1);
    } else {
      assert nodes[..k] == nodes;
    }
  }

  lemma {:induction false} ErrorIsMissingArgument(nodes: seq<AstNode>)
    ensures RelativeRequireArgs(nodes).Err? ==> RelativeRequireArgs(nodes) == Err(MissingArgument)
    decreases |nodes|
  {
    if nodes != [] {
      ErrorIsMissingArgument(nodes[..|nodes| - 1]);
    }
  }

  /** The walk fails exactly when some `require` call has no argument. */
  lemma {:induction false} ErrorIffMissingArgument(nodes: seq<AstNode>)
    ensures RelativeRequireArgs(nodes).Err?
            <==> exists i :: 0 <= i < |nodes| && IsRequireCall(nodes[i]) && nodes[i].args == []
    decreases |nodes|
  {
    if nodes != [] {
      var init := nodes[..|nodes| - 1];
      ErrorIffMissingArgument(init);
      if exists i :: 0 <= i < |init| && IsRequireCall(init[i]) && init[i].args == [] {
        var i :| 0 <= i < |init| && IsRequireCall(init[i]) && init[i].args == [];
        assert nodes[i] == init[i];
      }
      if exists i :: 0 <= i < |nodes| && IsRequireCall(nodes[i]) && nodes[i].args == [] {
        var i :| 0 <= i < |nodes| && IsRequireCall(nodes[i]) && nodes[i].args == [];
        if i < |init| { assert init[i] == nodes[i]; }
      }
    }
  }

  /** When the walk succeeds it collects exactly the relative string literals that are
      first arguments of `require` calls; every other argument contributes nothing. */
  lemma {:induction false} CollectsExactly(nodes: seq<AstNode>, lit: StringNode)
    requires RelativeRequireArgs(nodes).Ok?
    ensures lit in RelativeRequireArgs(nodes).value
            <==> exists i :: 0 <= i < |nodes| && Contributes(nodes[i], lit)
    decreases |nodes|
  {
    if nodes != [] {
      var init := nodes[..|nodes| - 1];
      assert RelativeRequireArgs(init).Ok?;
      CollectsExactly(init, lit);
      if exists i :: 0 <= i < |init| && Contributes(init[i], lit) {
        var i :| 0 <= i < |init| && Contributes(init[i], lit);
        assert nodes[i] == init[i];
      }
      if exists i :: 0 <= i < |nodes| && Contributes(nodes[i], lit) {
        var i :| 0 <= i < |nodes| && Contributes(nodes[i], lit);
        if i < |init| { assert init[i] == nodes[i]; }
      }
    }
  }

  /** The arguments come in walk order: scanning two stretches of nodes one after the
      other collects the first stretch's literals, then the second's. */
  lemma {:induction false} WalkOrder(a: seq<AstNode>, b: seq<AstNode>)
    requires RelativeRequireArgs(a + b).Ok?
    ensures RelativeRequireArgs(a).Ok? && RelativeRequireArgs(b).Ok?
    ensures RelativeRequireArgs(a + b).value == RelativeRequireArgs(a).value + RelativeRequireArgs(b).value
    decreases |b|
  {
    if b == [] {
      assert a + b == a;
    } else {
      var b' := b[..|b| - 1];
      assert (a + b)[..|a + b| - 1] == a + b';
      assert (a + b)[|a + b| - 1] == b[|b| - 1];
      WalkOrder(a, b');
    }
  }

  /** For a file with no "\r\r\n", the parser is handed exactly the buffer's text, so
      the offsets of the literals found are offsets into the buffer. */
  lemma ScanSeesBuffer(contents: string, parse: string -> Option<seq<AstNode>>)
    requires NoCrCrLf(contents)
    ensures var text := Normalised(contents);
            ScanText(text, parse) == match parse(text) case None => Ok([]) case Some(nodes) => RelativeRequireArgs(nodes)
  {
    NormalisedIsFixed(contents);
  }

  /** `findRelativeRequireArgs`: parses the text with any "\r\n" turned into "\n" and
      walks the tree, pushing every relative string literal passed to `require`. */
  method FindRelativeRequireArgs(text: string, parse: string -> Option<seq<AstNode>>)
    returns (r: Result<seq<StringNode>>)
    ensures r == ScanText(text, parse)
  {
    var parsed := parse(CrlfToLf(text));
    if parsed.None? {
      return Ok([]);
    }
    var nodes := parsed.value;
    var found: seq<StringNode> := [];
    var i := 0;
    while i < |nodes|
      invariant 0 <= i <= |nodes|
      invariant RelativeRequireArgs(nodes[..i]) == Ok(found)
    {
      var n := nodes[i];
      assert nodes[..i + 1][..i] == nodes[..i];
      if n.Call? && n.callee == Some("require") {
        if |n.args| == 0 {
          ErrorPersists(nodes, i + 1);
          return Err(MissingArgument);
        }
        match n.args[0] {
          case StringLit(lit) =>
            if IsRelativeRequire(lit.value) {
              found := found + [lit];
            }
          case NonLiteral =>
        }
      }
      i := i + 1;
    }
    assert nodes[..i] == nodes;
    return Ok(found);
  }
}
