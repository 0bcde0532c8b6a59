/**
 * The loops that edit the `require` literals of one buffer, and the sequences of
 * edits they make.
 *
 * Which literals are edited, and what each becomes, are parameters: `resolveModule`
 * stands for Node's module resolver and `literal` for the new-literal computation of
 * the mode in use.
 */
module Patching {
  import opened Wrappers
  import opened SourceBuffer

  /** The literal `arg` of `file` resolves to `fromPath`. */
  predicate Matches(arg: StringNode, file: string, fromPath: string, resolveModule: (string, string) -> Option<string>)
  {
    resolveModule(arg.value, file) == Some(fromPath)
  }

  /** The literals of `args` that resolve to `fromPath`, in order. */
  function Matching(args: seq<StringNode>, file: string, fromPath: string,
                    resolveModule: (string, string) -> Option<string>): (ms: seq<StringNode>)
    decreases |args|
  {
    if args == [] then []
    else
      var init := args[..|args| - 1];
      var arg := args[|args| - 1];
      var before := Matching(init, file, fromPath, resolveModule);
      if Matches(arg, file, fromPath, resolveModule) then before + [arg] else before
  }

  /** Only literals of `args` that resolve to `fromPath` are kept. */
  lemma {:induction false} MatchingSound(args: seq<StringNode>, file: string, fromPath: string,
                                         resolveModule: (string, string) -> Option<string>)
    ensures forall m :: m in Matching(args, file, fromPath, resolveModule) ==>
              m in args && Matches(m, file, fromPath, resolveModule)
    decreases |args|
  {
    if args != [] {
      var init := args[..|args| - 1];
      MatchingSound(init, file, fromPath, resolveModule);
      assert forall a :: a in init ==> a in args;
    }
  }

  /** Every literal that resolves to `fromPath` is kept. */
  lemma {:induction false} MatchingComplete(args: seq<StringNode>, file: string, fromPath: string,
                                            resolveModule: (string, string) -> Option<string>, i: nat)
    requires i < |args| && Matches(args[i], file, fromPath, resolveModule)
    ensures args[i] in Matching(args, file, fromPath, resolveModule)
    decreases |args|
  {
    var init := args[..|args| - 1];
    if i < |init| {
      assert init[i] == args[i];
      MatchingComplete(init, file, fromPath, resolveModule, i);
    }
  }

  /** One edit per literal of `nodes`, in order, giving each the literal `literal` computes
      from its value. */
  function Retargeted(nodes: seq<StringNode>, literal: string -> string): (edits: seq<Edit>)
    ensures |edits| == |nodes|
    decreases |nodes|
  {
    if nodes == [] then []
    else
      var init := nodes[..|nodes| - 1];
      var node := nodes[|nodes| - 1];
      Retargeted(init, literal) + [Edit(node, literal(node.value))]
  }

  /** The `j`th edit is for the `j`th literal. */
  lemma {:induction false} RetargetedAt(nodes: seq<StringNode>, literal: string -> string)
    ensures forall j :: 0 <= j < |nodes| ==>
              Retargeted(nodes, literal)[j] == Edit(nodes[j], literal(nodes[j].value))
    decreases |nodes|
  {
    if nodes != [] {
      var init := nodes[..|nodes| - 1];
      RetargetedAt(init, literal);
      forall j | 0 <= j < |nodes|
        ensures Retargeted(nodes, literal)[j] == Edit(nodes[j], literal(nodes[j].value))
      {
        if j < |init| { assert nodes[j] == init[j]; }
      }
    }
  }

  /** A buffer that held `text0` at delta `delta0` now holds it with the edits for
      `nodes` applied. */
  ghost predicate Patched(text: string, delta: int, text0: string, delta0: int, nodes: seq<StringNode>,
                          literal: string -> string)
  {
    text == ApplyEdits(text0, delta0, Retargeted(nodes, literal)) &&
    delta == Shift(delta0, Retargeted(nodes, literal))
  }

  /** Editing one more literal keeps the buffer patched. */
  lemma PatchedSnoc(text: string, delta: int, text0: string, delta0: int, nodes: seq<StringNode>,
                    node: StringNode, literal: string -> string)
    requires Patched(text, delta, text0, delta0, nodes, literal)
    ensures Patched(SpliceText(text, delta, node, literal(node.value)), delta + |literal(node.value)| - |node.value|,
                    text0, delta0, nodes + [node], literal)
  {
    ApplyRetargetedSnoc(text0, delta0, nodes, node, literal);
  }

  /** As `Patched`, and the buffer, flagged `modified0` before, is flagged modified once
      any edit was made. */
  ghost predicate PatchedFlagged(text: string, delta: int, modified: bool, text0: string, delta0: int, modified0: bool,
                                 nodes: seq<StringNode>, literal: string -> string)
  {
    Patched(text, delta, text0, delta0, nodes, literal) && modified == (modified0 || nodes != [])
  }

  lemma PatchedFlaggedSnoc(text: string, delta: int, modified: bool, text0: string, delta0: int, modified0: bool,
                           nodes: seq<StringNode>, node: StringNode, literal: string -> string)
    requires PatchedFlagged(text, delta, modified, text0, delta0, modified0, nodes, literal)
    ensures PatchedFlagged(SpliceText(text, delta, node, literal(node.value)), delta + |literal(node.value)| - |node.value|,
                           true, text0, delta0, modified0, nodes + [node], literal)
  {
    PatchedSnoc(text, delta, text0, delta0, nodes, node, literal);
  }

  /** Applying the edits for one more literal is one more splice. */
  lemma ApplyRetargetedSnoc(text: string, delta: int, nodes: seq<StringNode>, node: StringNode,
                            literal: string -> string)
    ensures ApplyEdits(text, delta, Retargeted(nodes + [node], literal))
            == SpliceText(ApplyEdits(text, delta, Retargeted(nodes, literal)), Shift(delta, Retargeted(nodes, literal)),
                          node, literal(node.value))
    ensures Shift(delta, Retargeted(nodes + [node], literal))
            == Shift(delta, Retargeted(nodes, literal)) + |literal(node.value)| - |node.value|
  {
    RetargetedSnoc(nodes, node, literal);
    ApplyEditsSnoc(text, delta, Retargeted(nodes, literal), Edit(node, literal(node.value)));
  }

  lemma MatchingSnoc(args: seq<StringNode>, arg: StringNode, file: string, fromPath: string,
                     resolveModule: (string, string) -> Option<string>)
    ensures Matching(args + [arg], file, fromPath, resolveModule)
            == if Matches(arg, file, fromPath, resolveModule) then Matching(args, file, fromPath, resolveModule) + [arg]
               else Matching(args, file, fromPath, resolveModule)
  {
    var all := args + [arg];
    assert all[..|all| - 1] == args;
    assert all[|all| - 1] == arg;
  }

  /** One turn of Mode A's loop: the literal at `i` is kept exactly when it matches. */
  lemma MatchingStep(args: seq<StringNode>, i: nat, file: string, fromPath: string,
                     resolveModule: (string, string) -> Option<string>)
    requires i < |args|
    ensures Matches(args[i], file, fromPath, resolveModule) ==>
              Matching(args[..i + 1], file, fromPath, resolveModule) == Matching(args[..i], file, fromPath, resolveModule) + [args[i]]
    ensures !Matches(args[i], file, fromPath, resolveModule) ==>
              Matching(args[..i + 1], file, fromPath, resolveModule) == Matching(args[..i], file, fromPath, resolveModule)
  {
    assert args[..i + 1] == args[..i] + [args[i]];
    MatchingSnoc(args[..i], args[i], file, fromPath, resolveModule);
  }

  /** `kept` holds the matching literals among the first `i` of `args`. */
  ghost predicate KeptSoFar(kept: seq<StringNode>, args: seq<StringNode>, i: nat, file: string, fromPath: string,
                            resolveModule: (string, string) -> Option<string>)
    requires i <= |args|
  {
    kept == Matching(args[..i], file, fromPath, resolveModule)
  }

  lemma KeptStep(kept: seq<StringNode>, args: seq<StringNode>, i: nat, file: string, fromPath: string,
                 resolveModule: (string, string) -> Option<string>)
    requires i < |args| && KeptSoFar(kept, args, i, file, fromPath, resolveModule)
    ensures Matches(args[i], file, fromPath, resolveModule) ==>
              KeptSoFar(kept + [args[i]], args, i + 1, file, fromPath, resolveModule)
    ensures !Matches(args[i], file, fromPath, resolveModule) ==>
              KeptSoFar(kept, args, i + 1, file, fromPath, resolveModule)
  {
    MatchingStep(args, i, file, fromPath, resolveModule);
  }

  lemma RetargetedSnoc(nodes: seq<StringNode>, node: StringNode, literal: string -> string)
    ensures Retargeted(nodes + [node], literal) == Retargeted(nodes, literal) + [Edit(node, literal(node.value))]
  {
    var all := nodes + [node];
    assert all[..|all| - 1] == nodes;
    assert all[|all| - 1] == node;
  }

  lemma ApplyEditsSnoc(text: string, delta: int, edits: seq<Edit>, e: Edit)
    ensures ApplyEdits(text, delta, edits + [e]) == SpliceText(ApplyEdits(text, delta, edits), Shift(delta, edits), e.node, e.newValue)
    ensures Shift(delta, edits + [e]) == Shift(delta, edits) + |e.newValue| - |e.node.value|
  {
    var all := edits + [e];
    assert all[..|all| - 1] == edits;
    assert all[|all| - 1] == e;
  }

  /** The `forEach` of `updateRequires`: edits, in order, every literal resolving to
      `fromPath`, giving it the literal `literal` computes from its value. */
  method PatchModeA(code: SourceCode, args: seq<StringNode>, file: string, fromPath: string,
                    resolveModule: (string, string) -> Option<string>, literal: string -> string)
    modifies code
    ensures code.text
            == ApplyEdits(old(code.text), old(code.delta), Retargeted(Matching(args, file, fromPath, resolveModule), literal))
    ensures code.delta
            == Shift(old(code.delta), Retargeted(Matching(args, file, fromPath, resolveModule), literal))
    ensures code.modified == (old(code.modified) || Matching(args, file, fromPath, resolveModule) != [])
  {
    ghost var text0, delta0, modified0 := code.text, code.delta, code.modified;
    ghost var kept: seq<StringNode> := [];
    var i := 0;
    while i < |args|
      invariant 0 <= i <= |args|
      invariant KeptSoFar(kept, args, i, file, fromPath, resolveModule)
      invariant PatchedFlagged(code.text, code.delta, code.modified, text0, delta0, modified0, kept, literal)
    {
      var arg := args[i];
      KeptStep(kept, args, i, file, fromPath, resolveModule);
      var fullRequirePath := resolveModule(arg.value, file);
      if fullRequirePath == Some(fromPath) {
        PatchedFlaggedSnoc(code.text, code.delta, code.modified, text0, delta0, modified0, kept, arg, literal);
        code.UpdateNodeValue(arg, literal(arg.value));
        kept := kept + [arg];
      }
      i := i + 1;
    }
    assert args[..i] == args;
  }

  /** The `forEach` of `moveRequires`: edits, in order, every literal, giving it the
      literal `literal` computes from its value. */
  method PatchModeB(code: SourceCode, args: seq<StringNode>, literal: string -> string)
    modifies code
    ensures code.text == ApplyEdits(old(code.text), old(code.delta), Retargeted(args, literal))
    ensures code.delta == Shift(old(code.delta), Retargeted(args, literal))
    ensures code.modified == (old(code.modified) || args != [])
  {
    ghost var text0, delta0 := code.text, code.delta;
    ghost var done: seq<StringNode> := [];
    var i := 0;
    while i < |args|
      invariant 0 <= i <= |args| && done == args[..i]
      invariant Patched(code.text, code.delta, text0, delta0, done, literal)
      invariant code.modified == (old(code.modified) || i > 0)
    {
      var arg := args[i];
      PatchedSnoc(code.text, code.delta, text0, delta0, done, arg, literal);
      code.UpdateNodeValue(arg, literal(arg.value));
      done := done + [arg];
      i := i + 1;
    }
    assert done == args;
  }

  /** The literals of a scan lie in the text in ascending order, disjoint, without
      escape sequences. */
  predicate Disjoint(text: string, nodes: seq<StringNode>)
  {
    (forall i :: 0 <= i < |nodes| ==> EscapeFree(nodes[i]) && nodes[i].endpos <= |text|) &&
    (forall i, j :: 0 <= i < j < |nodes| ==> nodes[i].endpos <= nodes[j].pos)
  }

  /** Keeping only some literals keeps them disjoint. */
  lemma {:induction false} MatchingDisjoint(text: string, args: seq<StringNode>, file: string, fromPath: string,
                                            resolveModule: (string, string) -> Option<string>)
    requires Disjoint(text, args)
    ensures Disjoint(text, Matching(args, file, fromPath, resolveModule))
    decreases |args|
  {
    if args != [] {
      var init := args[..|args| - 1];
      var arg := args[|args| - 1];
      assert Disjoint(text, init);
      MatchingDisjoint(text, init, file, fromPath, resolveModule);
      var before := Matching(init, file, fromPath, resolveModule);
      if Matches(arg, file, fromPath, resolveModule) {
        var ms := before + [arg];
        MatchingSound(init, file, fromPath, resolveModule);
        forall i | 0 <= i < |before| ensures before[i].endpos <= arg.pos {
          assert before[i] in before;
          var k :| 0 <= k < |init| && init[k] == before[i];
          assert args[k] == init[k];
        }
        assert forall i :: 0 <= i < |before| ==> ms[i] == before[i];
      }
    }
  }

  /** Edits on disjoint escape-free literals, in their order, meet the patcher's
      ordering contract. */
  lemma {:induction false} DisjointWellPlaced(text: string, nodes: seq<StringNode>, edits: seq<Edit>)
    requires Disjoint(text, nodes)
    requires |edits| == |nodes| && forall j :: 0 <= j < |edits| ==> edits[j].node == nodes[j]
    ensures WellPlaced(text, edits)
    decreases |edits|
  {
    if edits != [] {
      var n := |edits| - 1;
      assert Disjoint(text, nodes[..n]);
      DisjointWellPlaced(text, nodes[..n], edits[..n]);
      if n > 0 {
        assert edits[..n][n - 1].node == nodes[n - 1];
      }
    }
  }
}
