/**
 * The `SourceCode` text patcher: the text of one file, the running offset delta that
 * lets later literal offsets (taken from a parse of the unedited text) land in the
 * edited text, and the flag that says whether anything was edited.
 */
module SourceBuffer {
  import opened Wrappers
  import opened LineEndings

  /** A string-literal node of the parse: `pos` is the offset of its opening quote,
      `endpos` the offset just past its closing quote, `value` the decoded string. */
  datatype StringNode = StringNode(pos: nat, endpos: nat, value: string)

  /** One whole-file write: the path and the bytes stored. */
  datatype FileWrite = FileWrite(path: string, data: string)

  /** One call of `updateNodeValue`: the literal and the string to put between its quotes. */
  datatype Edit = Edit(node: StringNode, newValue: string)

  /** The source text of the literal is as long as its decoded value: no escape sequences. */
  predicate EscapeFree(node: StringNode)
  {
    node.pos + 2 <= node.endpos && |node.value| == node.endpos - node.pos - 2
  }

  /** `x` brought into the range 0 to `hi`. */
  function Clamp(x: int, hi: nat): (r: nat)
    ensures r <= hi
    ensures 0 <= x <= hi ==> r == x
  {
    if x <= 0 then 0 else if x >= hi then hi else x
  }

  /** JavaScript `s.substr(0, n)`. */
  function JsHead(s: string, n: int): string
  {
    s[..Clamp(n, |s|)]
  }

  /** JavaScript `s.substr(k)`: a negative `k` counts from the end. */
  function JsTail(s: string, k: int): string
  {
    s[Clamp(if k < 0 then |s| + k else k, |s|)..]
  }

  /** The text after `updateNodeValue(node, newValue)` on `text` with delta `delta`. */
  function SpliceText(text: string, delta: int, node: StringNode, newValue: string): string
  {
    JsHead(text, node.pos + delta + 1) + newValue + JsTail(text, node.endpos + delta - 1)
  }

  /** The delta after applying `edits` in order, starting from `delta`: each edit adds
      how much longer its new value is than the old one. */
  function Shift(delta: int, edits: seq<Edit>): int
    decreases |edits|
  {
    if edits == [] then delta
    else
      var e := edits[|edits| - 1];
      Shift(delta, edits[..|edits| - 1]) + |e.newValue| - |e.node.value|
  }

  /** The text after applying `edits` in order, starting from `text` and `delta`. */
  function ApplyEdits(text: string, delta: int, edits: seq<Edit>): string
    decreases |edits|
  {
    if edits == [] then text
    else
      var init := edits[..|edits| - 1];
      var e := edits[|edits| - 1];
      SpliceText(ApplyEdits(text, delta, init), Shift(delta, init), e.node, e.newValue)
  }

  /** How far into the original text the literals of `edits` reach: the offset of the
      last one's closing quote. */
  function Consumed(edits: seq<Edit>): int
  {
    if edits == [] then 0 else edits[|edits| - 1].node.endpos - 1
  }

  /** The literals of `edits` lie in `orig`, in ascending order without overlapping,
      and none has an escape sequence. */
  predicate WellPlaced(orig: string, edits: seq<Edit>)
    decreases |edits|
  {
    edits == [] ||
    (var e := edits[|edits| - 1].node;
     WellPlaced(orig, edits[..|edits| - 1]) &&
     Consumed(edits[..|edits| - 1]) <= e.pos && EscapeFree(e) && e.endpos <= |orig|)
  }

  /** The intended result up to the last literal's closing quote: the original text
      between literals, and each literal's new value between its quotes. */
  function Placed(orig: string, edits: seq<Edit>): string
    requires WellPlaced(orig, edits)
    decreases |edits|
  {
    if edits == [] then []
    else
      var e := edits[|edits| - 1];
      Placed(orig, edits[..|edits| - 1]) + orig[Consumed(edits[..|edits| - 1])..e.node.pos + 1] + e.newValue
  }

  /** A splice whose offsets lie inside the text keeps everything up to and including
      the opening quote and everything from the closing quote on. */
  lemma SpliceInRange(text: string, delta: int, node: StringNode, newValue: string)
    requires 0 <= node.pos + delta
    requires node.pos + delta + 1 <= node.endpos + delta - 1 <= |text|
    ensures SpliceText(text, delta, node, newValue)
            == text[..node.pos + delta + 1] + newValue + text[node.endpos + delta - 1..]
  {
  }

  /** The quotes around a spliced literal are the original ones. */
  lemma SpliceKeepsQuotes(text: string, delta: int, node: StringNode, newValue: string)
    requires 0 <= node.pos + delta
    requires node.pos + delta + 1 <= node.endpos + delta - 1 < |text|
    ensures var s, e, r := node.pos + delta, node.endpos + delta, SpliceText(text, delta, node, newValue);
            |r| == |text| + |newValue| - (e - s - 2) &&
            r[s] == text[s] && r[s + 1..s + 1 + |newValue|] == newValue &&
            r[s + 1 + |newValue|] == text[e - 1]
  {
    SpliceInRange(text, delta, node, newValue);
  }

  lemma ConcatSlices(p: string, q: string, k: nat)
    requires k <= |q|
    ensures (p + q)[..|p| + k] == p + q[..k]
    ensures (p + q)[|p| + k..] == q[k..]
  {
  }

  /** One edit on a text made of an already edited part `p` followed by the original
      from offset `c` on, with the delta that relates the two. */
  lemma SpliceShifted(p: string, orig: string, c: int, n: StringNode, v: string)
    requires 0 <= c <= n.pos && EscapeFree(n) && n.endpos <= |orig|
    ensures SpliceText(p + orig[c..], |p| - c, n, v) == (p + orig[c..n.pos + 1] + v) + orig[n.endpos - 1..]
  {
    var q := orig[c..];
    var t, d := p + q, |p| - c;
    ConcatSlices(p, q, n.pos + 1 - c);
    ConcatSlices(p, q, n.endpos - 1 - c);
    var head, tail := p + orig[c..n.pos + 1], orig[n.endpos - 1..];
    assert q[..n.pos + 1 - c] == orig[c..n.pos + 1];
    assert q[n.endpos - 1 - c..] == tail;
    assert t[..n.pos + d + 1] == head;
    assert t[n.endpos + d - 1..] == tail;
    SpliceInRange(t, d, n, v);
  }

  /** The delta after well-placed edits is how much longer the edited prefix is than
      the original one. */
  lemma {:induction false} ShiftOfPlaced(orig: string, edits: seq<Edit>)
    requires WellPlaced(orig, edits)
    ensures 0 <= Consumed(edits) <= |orig|
    ensures Shift(0, edits) == |Placed(orig, edits)| - Consumed(edits)
    decreases |edits|
  {
    if edits != [] {
      ShiftOfPlaced(orig, edits[..|edits| - 1]);
    }
  }

  /** `ApplyEdits`, `Placed` and `Consumed` of a non-empty list, in terms of its last edit. */
  lemma LastEdit(orig: string, edits: seq<Edit>)
    requires WellPlaced(orig, edits) && edits != []
    ensures var init, e := edits[..|edits| - 1], edits[|edits| - 1];
            ApplyEdits(orig, 0, edits) == SpliceText(ApplyEdits(orig, 0, init), Shift(0, init), e.node, e.newValue) &&
            Placed(orig, edits) == Placed(orig, init) + orig[Consumed(init)..e.node.pos + 1] + e.newValue &&
            Consumed(edits) == e.node.endpos - 1
  {
  }

  /** One more edit on a text that is the edited prefix `p` followed by the original
      from `c` on gives the next edited prefix followed by the original from the
      edited literal's closing quote on. */
  lemma SpliceAfter(before: string, d: int, p: string, orig: string, c: int, n: StringNode, v: string,
                    after: string, p': string, c': int)
    requires 0 <= c <= n.pos && EscapeFree(n) && n.endpos <= |orig|
    requires before == p + orig[c..] && d == |p| - c
    requires after == SpliceText(before, d, n, v)
    requires p' == p + orig[c..n.pos + 1] + v && c' == n.endpos - 1
    ensures 0 <= c' <= |orig|
    ensures after == p' + orig[c'..]
  {
    SpliceShifted(p, orig, c, n, v);
  }

  /** The text after `edits` is the intended one: the original text between literals,
      each literal's new value between its quotes, and the original text after the last. */
  predicate Lands(orig: string, edits: seq<Edit>)
    requires WellPlaced(orig, edits)
    requires 0 <= Consumed(edits) <= |orig|
  {
    ApplyEdits(orig, 0, edits) == Placed(orig, edits) + orig[Consumed(edits)..]
  }

  /** Edits applied in ascending order to escape-free literals each land exactly on
      their original literal, and the text between them is left as it was. */
  lemma {:induction false} EditsLandOnOriginals(orig: string, edits: seq<Edit>)
    requires WellPlaced(orig, edits)
    ensures 0 <= Consumed(edits) <= |orig|
    ensures Lands(orig, edits)
    decreases |edits|
  {
    ShiftOfPlaced(orig, edits);
    if edits != [] {
      var init := edits[..|edits| - 1];
      var e := edits[|edits| - 1];
      EditsLandOnOriginals(orig, init);
      ShiftOfPlaced(orig, init);
      LastEdit(orig, edits);
      SpliceAfter(ApplyEdits(orig, 0, init), Shift(0, init), Placed(orig, init), orig, Consumed(init), e.node, e.newValue,
                  ApplyEdits(orig, 0, edits), Placed(orig, edits), Consumed(edits));
    } else {
      assert [] + orig[0..] == orig;
    }
  }

  /** The buffer of one source file. */
  class SourceCode {
    const fileName: string
    const crlf: bool
    var text: string
    var delta: int
    var modified: bool

    /** Reads the file contents `contents`; a file with any "\r\n" is held with "\n". */
    constructor (fileName: string, contents: string)
      ensures this.fileName == fileName && crlf == HasCrlf(contents)
      ensures text == Normalised(contents)
      ensures delta == 0 && !modified
    {
      this.fileName := fileName;
      crlf := HasCrlf(contents);
      text := Normalised(contents);
      delta := 0;
      modified := false;
    }

    /** Replaces the text between the quotes of `node`, shifted by the delta so far. */
    method UpdateNodeValue(node: StringNode, newValue: string)
      modifies this
      ensures text == SpliceText(old(text), old(delta), node, newValue)
      ensures delta == old(delta) + |newValue| - |node.value|
      ensures modified
    {
      var startPos := node.pos + delta;
      var endPos := node.endpos + delta;
      text := JsHead(text, startPos + 1) + newValue + JsTail(text, endPos - 1);
      delta := delta + (|newValue| - |node.value|);
      modified := true;
    }

    /** The bytes a write stores: the text with "\r\n" restored for a CRLF file. */
    function Output(): string
      reads this
    {
      Restored(crlf, text)
    }

    /** `write()`: stores the text whether or not it was edited. */
    method Write() returns (w: FileWrite)
      ensures w.path == fileName && w.data == Restored(crlf, text)
    {
      w := FileWrite(fileName, Output());
    }

    /** `writeIfModified()`: stores the text only when it was edited. */
    method WriteIfModified() returns (w: Option<FileWrite>)
      ensures w.Some? <==> modified
      ensures w.Some? ==> w.value == FileWrite(fileName, Output())
    {
      if modified {
        w := Some(FileWrite(fileName, Output()));
      } else {
        w := None;
      }
    }
  }
}
