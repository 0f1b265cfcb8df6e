/** The JUnit-report scanner script: it prints the root element of the parsed
    report once, then, for every `failure` element of the document in
    document order, the root element again and the failure's text. The
    parsed tree is given; what is printed is modelled as a sequence of lines,
    with the printed form of the root an opaque line of its own. */
module ReportScanner {
  import opened Wrappers

  /** An element of the parsed document: its tag, its text (None when the
      element has none) and its child elements in document order. */
  datatype Element = Element(tag: string, text: Option<string>, children: seq<Element>)

  /** One printed line: the printed form of the root element, or the text of
      a failure element (None is printed as Python's `None`). */
  datatype Line = RootRepr | Text(text: Option<string>)

  /** The tag the scanner looks for. */
  const FailureTag := "failure"

  /** Every element of the tree rooted at `e`, in document (pre-)order: the
      element itself, then its children's subtrees from first to last. */
  function PreOrder(e: Element): (r: seq<Element>)
    ensures |r| >= 1 && r[0] == e
    decreases e, 1
  {
    [e] + PreOrderAll(e.children)
  }

  function PreOrderAll(es: seq<Element>): seq<Element>
    decreases es, 0
  {
    if es == [] then [] else PreOrder(es[0]) + PreOrderAll(es[1..])
  }

  /** The elements of `xs` whose tag is exactly `tag`, in their order. */
  function WithTag(xs: seq<Element>, tag: string): (r: seq<Element>)
    ensures forall j :: 0 <= j < |r| ==> r[j].tag == tag
    ensures forall i :: 0 <= i < |xs| && xs[i].tag == tag ==> xs[i] in r
    ensures r == [] <==> forall i :: 0 <= i < |xs| ==> xs[i].tag != tag
    decreases |xs|
  {
    if xs == [] then []
    else (if xs[0].tag == tag then [xs[0]] else []) + WithTag(xs[1..], tag)
  }

  lemma {:induction false} WithTagAppend(a: seq<Element>, b: seq<Element>, tag: string)
    ensures WithTag(a + b, tag) == WithTag(a, tag) + WithTag(b, tag)
    decreases |a|
  {
    if a != [] {
      assert (a + b)[0] == a[0];
      assert (a + b)[1..] == a[1..] + b;
      WithTagAppend(a[1..], b, tag);
    } else {
      assert a + b == b;
    }
  }

  /** `Element.iter(tag)`: the element itself when its tag matches, then the
      matching elements of each child's subtree in turn. */
  function Iter(e: Element, tag: string): seq<Element>
    decreases e, 1
  {
    (if e.tag == tag then [e] else []) + IterAll(e.children, tag)
  }

  function IterAll(es: seq<Element>, tag: string): seq<Element>
    decreases es, 0
  {
    if es == [] then [] else Iter(es[0], tag) + IterAll(es[1..], tag)
  }

  /** `iter(tag)` visits the whole tree, root included, in document order and
      yields exactly the elements whose tag equals `tag`. */
  lemma {:induction false} IterIsPreOrderWithTag(e: Element, tag: string)
    ensures Iter(e, tag) == WithTag(PreOrder(e), tag)
    decreases e, 1
  {
    IterAllIsPreOrderAllWithTag(e.children, tag);
    WithTagAppend([e], PreOrderAll(e.children), tag);
  }

  lemma {:induction false} IterAllIsPreOrderAllWithTag(es: seq<Element>, tag: string)
    ensures IterAll(es, tag) == WithTag(PreOrderAll(es), tag)
    decreases es, 0
  {
    if es != [] {
      IterIsPreOrderWithTag(es[0], tag);
      IterAllIsPreOrderAllWithTag(es[1..], tag);
      WithTagAppend(PreOrder(es[0]), PreOrderAll(es[1..]), tag);
    }
  }

  /** The failure elements of the document rooted at `root`, in document order. */
  function Failures(root: Element): seq<Element> {
    WithTag(PreOrder(root), FailureTag)
  }

  /** The script: print the root, then for each failure element the root
      again and the failure's text. `newsItems` is declared and never used,
      as in the script. */
  method Scan(root: Element) returns (out: seq<Line>)
    ensures |out| == 1 + 2 * |Failures(root)|
    ensures out[0] == RootRepr
    ensures forall j :: 0 <= j < |Failures(root)| ==>
      out[2 * j + 1] == RootRepr && out[2 * j + 2] == Text(Failures(root)[j].text)
  {
    out := [RootRepr];
    var newsItems: seq<Element> := [];
    var failures := Iter(root, FailureTag);
    IterIsPreOrderWithTag(root, FailureTag);
    for i := 0 to |failures|
      invariant |out| == 1 + 2 * i
      invariant out[0] == RootRepr
      invariant forall j :: 0 <= j < i ==>
        out[2 * j + 1] == RootRepr && out[2 * j + 2] == Text(failures[j].text)
    {
      out := out + [RootRepr];
      out := out + [Text(failures[i].text)];
    }
  }
}
