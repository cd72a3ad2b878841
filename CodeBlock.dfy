/**
  `getTextFromChildren` of `components/CodeBlock.tsx`: the text a code block
  copies is what its children tree holds in string leaves. Children lists
  are flat sequences (`React.Children.forEach` flattens nested arrays), an
  element whose `children` prop is absent or falsy has no children, and
  numbers, booleans and `null` are `Other`.
*/
module CodeBlock {

  datatype Node = Text(text: string) | Element(children: seq<Node>) | Other

  /** The string leaves of a list of children, left to right, depth first. */
  function Leaves(nodes: seq<Node>): seq<string>
    decreases nodes, 1
  {
    if nodes == [] then [] else LeavesOf(nodes[0]) + Leaves(nodes[1..])
  }

  function LeavesOf(n: Node): seq<string>
    decreases n, 0
  {
    match n
    case Text(s) => [s]
    case Element(cs) => Leaves(cs)
    case Other => []
  }

  /** The strings joined end to end. */
  function Concat(ss: seq<string>): string {
    if ss == [] then [] else ss[0] + Concat(ss[1..])
  }

  /** Total length of the strings. */
  function SumLengths(ss: seq<string>): nat {
    if ss == [] then 0 else |ss[0]| + SumLengths(ss[1..])
  }

  lemma {:induction false} ConcatAppend(a: seq<string>, b: seq<string>)
    ensures Concat(a + b) == Concat(a) + Concat(b)
  {
    if a == [] {
      assert a + b == b;
    } else {
      assert (a + b)[0] == a[0];
      assert (a + b)[1..] == a[1..] + b;
      ConcatAppend(a[1..], b);
    }
  }

  lemma {:induction false} LeavesAppend(a: seq<Node>, b: seq<Node>)
    ensures Leaves(a + b) == Leaves(a) + Leaves(b)
  {
    if a == [] {
      assert a + b == b;
    } else {
      assert (a + b)[0] == a[0];
      assert (a + b)[1..] == a[1..] + b;
      LeavesAppend(a[1..], b);
    }
  }

  /** The text of a children list: its leaves joined. */
  function TextOf(nodes: seq<Node>): string {
    Concat(Leaves(nodes))
  }

  /** `getTextFromChildren`: the `forEach` loop appending each string child and the text of each element with children. */
  method GetTextFromChildren(children: seq<Node>) returns (text: string)
    ensures text == TextOf(children)
    decreases children
  {
    text := "";
    var i := 0;
    while i < |children|
      invariant 0 <= i <= |children|
      invariant text == TextOf(children[..i])
    {
      var child := children[i];
      LeavesAppend(children[..i], [child]);
      ConcatAppend(Leaves(children[..i]), LeavesOf(child));
      assert children[..i + 1] == children[..i] + [child];
      assert Leaves([child]) == LeavesOf(child);
      match child {
        case Text(s) =>
          text := text + s;
        case Element(cs) =>
          if cs != [] {
            var inner := GetTextFromChildren(cs);
            text := text + inner;
          }
        case Other =>
      }
      i := i + 1;
    }
    assert children[..i] == children;
  }

  lemma {:induction false} ConcatLength(ss: seq<string>)
    ensures |Concat(ss)| == SumLengths(ss)
  {
    if ss != [] {
      ConcatLength(ss[1..]);
    }
  }

  /** The result is as long as all string leaves together. */
  lemma TextLength(nodes: seq<Node>)
    ensures |TextOf(nodes)| == SumLengths(Leaves(nodes))
  {
    ConcatLength(Leaves(nodes));
  }

  /** A lone string child is returned unchanged. */
  lemma LoneString(s: string)
    ensures TextOf([Text(s)]) == s
  {
    assert Leaves([Text(s)]) == [s];
    assert [s][1..] == [];
    assert Concat([s]) == s + Concat([]);
  }

  /** Numbers, booleans, `null` and elements without children add nothing. */
  lemma NothingFromOthers(nodes: seq<Node>)
    ensures TextOf(nodes + [Other]) == TextOf(nodes)
    ensures TextOf(nodes + [Element([])]) == TextOf(nodes)
  {
    LeavesAppend(nodes, [Other]);
    LeavesAppend(nodes, [Element([])]);
    assert Leaves(nodes) + [] == Leaves(nodes);
  }

  /** Wrapping children in an element does not change the text. */
  lemma ElementIsTransparent(nodes: seq<Node>)
    ensures TextOf([Element(nodes)]) == TextOf(nodes)
  {
    assert Leaves([Element(nodes)]) == Leaves(nodes) + Leaves([]);
    assert Leaves(nodes) + [] == Leaves(nodes);
  }
}
