/** Pretty-printing of a rendered child (html/element.go, `indentBlock`). */
module Indent {
  import opened Strings

  /** The lines of a block: what is left after dropping one trailing `\n`, split at `\n`. */
  function Lines(content: string): (ls: seq<string>)
  {
    Split(TrimSuffix(content, "\n"), '\n')
  }

  /** Every line with `pre` in front of it. */
  function PrefixEach(ls: seq<string>, pre: string): (r: seq<string>)
    ensures |r| == |ls| && forall i :: 0 <= i < |ls| ==> r[i] == pre + ls[i]
  {
    seq(|ls|, i requires 0 <= i < |ls| => pre + ls[i])
  }

  /** `n` spaces. */
  function Spaces(n: nat): (r: string)
  {
    seq(n, _ => ' ')
  }

  /** What `indentBlock(content, level)` returns. */
  function Indented(content: string, level: nat): string
  {
    Join(PrefixEach(Lines(content), Repeat("  ", level)), "\n")
  }

  /** `indentBlock`: the lines are overwritten in place, each with the prefix in
      front, and joined again. Go's `strings.Repeat` panics on a negative count,
      so the level is a `nat`. */
  method IndentBlock(content: string, level: nat) returns (r: string)
    ensures r == Indented(content, level)
  {
    var prefix := Repeat("  ", level);
    var ls := Split(TrimSuffix(content, "\n"), '\n');
    var lines := new string[|ls|](j requires 0 <= j < |ls| => ls[j]);
    var i := 0;
    while i < lines.Length
      invariant 0 <= i <= lines.Length == |ls|
      invariant forall j :: 0 <= j < i ==> lines[j] == prefix + ls[j]
      invariant forall j :: i <= j < lines.Length ==> lines[j] == ls[j]
    {
      lines[i] := prefix + lines[i];
      i := i + 1;
    }
    assert lines[..] == PrefixEach(ls, prefix);
    r := Join(lines[..], "\n");
  }

  /** The indentation prefix of a level is two spaces per level. */
  lemma RepeatSpaces(level: nat)
    ensures Repeat("  ", level) == Spaces(2 * level)
  {
    var r := Repeat("  ", level);
    forall i | 0 <= i < |r|
      ensures r[i] == ' '
    {
      assert r[i] in "  ";
    }
  }

  /** The output has exactly the lines of the trimmed input, each one behind
      `2 * level` spaces. */
  lemma IndentedLines(content: string, level: nat)
    ensures var out := Split(Indented(content, level), '\n');
      && |out| == |Lines(content)|
      && forall i :: 0 <= i < |out| ==> out[i] == Spaces(2 * level) + Lines(content)[i]
  {
    var ls := Lines(content);
    var pre := Repeat("  ", level);
    RepeatSpaces(level);
    var ps := PrefixEach(ls, pre);
    forall i | 0 <= i < |ps|
      ensures '\n' !in ps[i]
    {
      assert ps[i] == pre + ls[i];
      assert '\n' !in ls[i];
      assert '\n' !in pre;
    }
    SplitOfJoin(ps, '\n');
  }

  /** The lines, joined back, are the input with at most one trailing `\n` removed:
      one is removed exactly when the input ends in `\n`. */
  lemma LinesJoin(content: string)
    ensures var body := Join(Lines(content), "\n");
      && (body == content || body + "\n" == content)
      && (|content| > 0 && content[|content| - 1] == '\n' ==> body + "\n" == content)
  {
    JoinOfSplit(TrimSuffix(content, "\n"), '\n');
  }

  /** An empty block indents to one line holding only the prefix. */
  lemma IndentEmpty()
    ensures Indented("", 1) == "  "
  {
    assert Lines("") == [""];
  }

  /** Indenting never yields the empty string: there is always a first line. */
  lemma IndentedNonEmpty(content: string, level: nat)
    ensures |Indented(content, level)| >= 2 * level
    ensures level > 0 ==> Indented(content, level) != ""
  {
    var ps := PrefixEach(Lines(content), Repeat("  ", level));
    assert |ps[0]| >= 2 * level;
    if |ps| > 1 {
      assert Join(ps, "\n") == ps[0] + "\n" + Join(ps[1..], "\n");
    }
  }
}
