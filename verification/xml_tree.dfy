/**
 * The parsed XML document as an immutable tree, the start/end event stream
 * lxml's `iterparse` produces for it, and the reference semantics of the
 * leaf walker: the non-blank own texts of the nodes in post-order.
 */
module XmlTree {
  import opened Wrappers
  import opened PyStr

  /** An XML element: its tag, its own leading text (lxml's `.text`) and its child elements. */
  datatype Node = Node(tag: string, text: Option<string>, children: seq<Node>)

  /** An `iterparse` event: the parser entered or left an element. */
  datatype Event = Start(node: Node) | End(node: Node)

  /** The number of elements in a subtree. */
  function Size(t: Node): (n: nat)
  {
    1 + SizeAll(t.children)
  }

  function SizeAll(ts: seq<Node>): (n: nat)
  {
    if ts == [] then 0 else Size(ts[0]) + SizeAll(ts[1..])
  }

  /** The event stream of one element: its start, its children's streams in order, its end. */
  function Events(t: Node): (es: seq<Event>)
    ensures |es| == 2 * Size(t)
    ensures es[0] == Start(t) && es[|es| - 1] == End(t)
  {
    [Start(t)] + EventsAll(t.children) + [End(t)]
  }

  function EventsAll(ts: seq<Node>): (es: seq<Event>)
    ensures |es| == 2 * SizeAll(ts)
  {
    if ts == [] then [] else Events(ts[0]) + EventsAll(ts[1..])
  }

  /** The elements of a subtree in post-order: the children's subtrees left to right, then the element. */
  function PostOrder(t: Node): (ns: seq<Node>)
    ensures |ns| == Size(t)
    ensures ns[|ns| - 1] == t
  {
    PostOrderAll(t.children) + [t]
  }

  function PostOrderAll(ts: seq<Node>): (ns: seq<Node>)
    ensures |ns| == SizeAll(ts)
  {
    if ts == [] then [] else PostOrder(ts[0]) + PostOrderAll(ts[1..])
  }

  /** The elements whose end is reported, in the order the events report them. */
  function Ends(es: seq<Event>): (ns: seq<Node>)
    ensures |ns| <= |es|
  {
    if es == [] then []
    else Ends(es[..|es| - 1]) + (if es[|es| - 1].End? then [es[|es| - 1].node] else [])
  }

  /** The walker's test on an element: its `.text` is not `None` and `.text.strip()` is truthy. */
  predicate Contributes(n: Node) {
    n.text.Some? && HasContent(n.text.value)
  }

  /** What one element contributes at its end event: its own text, unchanged, or nothing. */
  function Yielded(n: Node): (out: seq<string>) {
    if Contributes(n) then [n.text.value] else []
  }

  /** The own texts of the contributing elements of `ns`, in the order of `ns`. */
  function OwnTexts(ns: seq<Node>): (out: seq<string>)
    ensures |out| <= |ns|
    ensures forall k :: 0 <= k < |out| ==> !IsBlank(out[k])
  {
    if ns == [] then [] else OwnTexts(ns[..|ns| - 1]) + Yielded(ns[|ns| - 1])
  }

  /** The texts the walker yields for a whole document. */
  function LeafTexts(t: Node): (out: seq<string>) {
    OwnTexts(PostOrder(t))
  }

  /** The texts the walker yields for a sequence of sibling subtrees. */
  function LeafTextsAll(ts: seq<Node>): (out: seq<string>) {
    OwnTexts(PostOrderAll(ts))
  }

  // ---------------------------------------------------------------------------
  // The event stream reports ends in post-order
  // ---------------------------------------------------------------------------

  lemma {:induction false} EndsAppend(a: seq<Event>, b: seq<Event>)
    ensures Ends(a + b) == Ends(a) + Ends(b)
    decreases |b|
  {
    if b == [] {
      assert a + b == a;
    } else {
      var b' := b[..|b| - 1];
      assert (a + b)[..|a + b| - 1] == a + b';
      EndsAppend(a, b');
    }
  }

  /** The end events of an element's stream list its subtree in post-order. */
  lemma {:induction false} EndsOfEvents(t: Node)
    ensures Ends(Events(t)) == PostOrder(t)
    decreases t
  {
    var inner := EventsAll(t.children);
    EndsAppend([Start(t)] + inner, [End(t)]);
    EndsAppend([Start(t)], inner);
    assert Ends([Start(t)]) == [] by {
      assert [Start(t)][..0] == [];
    }
    assert Ends([End(t)]) == [t] by {
      assert [End(t)][..0] == [];
    }
    EndsOfEventsAll(t.children);
  }

  lemma {:induction false} EndsOfEventsAll(ts: seq<Node>)
    ensures Ends(EventsAll(ts)) == PostOrderAll(ts)
    decreases ts
  {
    if ts != [] {
      EndsAppend(Events(ts[0]), EventsAll(ts[1..]));
      EndsOfEvents(ts[0]);
      EndsOfEventsAll(ts[1..]);
    }
  }

  // ---------------------------------------------------------------------------
  // OwnTexts is an order-preserving filter
  // ---------------------------------------------------------------------------

  /** Filtering distributes over concatenation. */
  lemma {:induction false} OwnTextsAppend(a: seq<Node>, b: seq<Node>)
    ensures OwnTexts(a + b) == OwnTexts(a) + OwnTexts(b)
    decreases |b|
  {
    if b == [] {
      assert a + b == a;
    } else {
      var b' := b[..|b| - 1];
      assert (a + b)[..|a + b| - 1] == a + b';
      OwnTextsAppend(a, b');
    }
  }

  /** Appending one event adds its node to the ends exactly when it is an end event. */
  lemma EndsSnoc(es: seq<Event>, e: Event)
    ensures Ends(es + [e]) == Ends(es) + (if e.End? then [e.node] else [])
  {
    assert (es + [e])[..|es|] == es;
  }

  /** Appending one node adds exactly what it yields. */
  lemma OwnTextsSnoc(ns: seq<Node>, n: Node)
    ensures OwnTexts(ns + [n]) == OwnTexts(ns) + Yielded(n)
  {
    assert (ns + [n])[..|ns|] == ns;
  }

  /** `s` is, unchanged, the own text of a contributing element of `ns`. */
  predicate TextOfSome(ns: seq<Node>, s: string) {
    exists j :: 0 <= j < |ns| && Contributes(ns[j]) && ns[j].text == Some(s)
  }

  /** The position in `ns` of the element whose own text is the `k`-th yielded string. */
  lemma {:induction false} OwnTextSource(ns: seq<Node>, k: int) returns (j: int)
    requires 0 <= k < |OwnTexts(ns)|
    ensures 0 <= j < |ns| && Contributes(ns[j]) && ns[j].text == Some(OwnTexts(ns)[k])
    decreases |ns|
  {
    var w := |ns| - 1;
    var init := ns[..w];
    var before := OwnTexts(init);
    assert OwnTexts(ns) == before + Yielded(ns[w]);
    if k < |before| {
      j := OwnTextSource(init, k);
      assert ns[j] == init[j];
      assert OwnTexts(ns)[k] == before[k];
    } else {
      j := w;
      assert Yielded(ns[w]) != [];
    }
  }

  /** Every yielded string is, unchanged, the own text of a contributing element of `ns`. */
  lemma OwnTextsSound(ns: seq<Node>)
    ensures forall k :: 0 <= k < |OwnTexts(ns)| ==> TextOfSome(ns, OwnTexts(ns)[k])
  {
    forall k | 0 <= k < |OwnTexts(ns)| ensures TextOfSome(ns, OwnTexts(ns)[k]) {
      var j := OwnTextSource(ns, k);
    }
  }

  /** The element at position `j` of `ns`, when it contributes, yields its text at output position |OwnTexts(ns[..j])|. */
  lemma {:induction false} FilterPosition(ns: seq<Node>, j: int)
    requires 0 <= j < |ns| && Contributes(ns[j])
    ensures |OwnTexts(ns[..j])| < |OwnTexts(ns)|
    ensures OwnTexts(ns)[|OwnTexts(ns[..j])|] == ns[j].text.value
  {
    assert ns == ns[..j + 1] + ns[j + 1..];
    OwnTextsAppend(ns[..j + 1], ns[j + 1..]);
    assert ns[..j + 1][..j] == ns[..j];
  }

  /** A contributing element adds to the output whatever follows it. */
  lemma {:induction false} ContributorGrows(a: seq<Node>, n: Node, b: seq<Node>)
    requires Contributes(n)
    ensures |OwnTexts(a)| < |OwnTexts(a + [n] + b)|
  {
    OwnTextsSnoc(a, n);
    OwnTextsAppend(a + [n], b);
  }

  /** Output positions grow with input positions: the filter keeps the order of `ns`. */
  lemma {:induction false} FilterMonotone(ns: seq<Node>, i: int, j: int)
    requires 0 <= i < j <= |ns| && Contributes(ns[i])
    ensures |OwnTexts(ns[..i])| < |OwnTexts(ns[..j])|
  {
    assert ns[..j] == ns[..i] + [ns[i]] + ns[i + 1..j];
    ContributorGrows(ns[..i], ns[i], ns[i + 1..j]);
  }

  /** The positions of the contributing elements of `ns`. */
  function Contributors(ns: seq<Node>): (js: set<int>) {
    set j | 0 <= j < |ns| && Contributes(ns[j])
  }

  lemma ContributorsSnoc(ns: seq<Node>)
    requires ns != []
    ensures var last := |ns| - 1;
            Contributors(ns) == Contributors(ns[..last]) + (if Contributes(ns[last]) then {last} else {})
  {
    var last := |ns| - 1;
    var init := ns[..last];
    forall j ensures j in Contributors(ns) <==> j in Contributors(init) || (j == last && Contributes(ns[last])) {
      if 0 <= j < last {
        assert ns[j] == init[j];
      }
    }
  }

  /** One string per contributing element and nothing else: the output counts the contributors. */
  lemma {:induction false} OwnTextsCount(ns: seq<Node>)
    ensures |OwnTexts(ns)| == |Contributors(ns)|
    decreases |ns|
  {
    if ns != [] {
      var last := |ns| - 1;
      OwnTextsCount(ns[..last]);
      ContributorsSnoc(ns);
      assert last !in Contributors(ns[..last]);
    }
  }

  /** Each contributing element's text is in the output: nothing the walker's test accepts is lost. */
  lemma OwnTextsComplete(ns: seq<Node>)
    ensures forall j :: 0 <= j < |ns| && Contributes(ns[j]) ==> ns[j].text.value in OwnTexts(ns)
  {
    forall j | 0 <= j < |ns| && Contributes(ns[j]) ensures ns[j].text.value in OwnTexts(ns) {
      FilterPosition(ns, j);
    }
  }

  /** The output depends only on the own texts of `ns`: children of the listed elements contribute nothing. */
  lemma {:induction false} OwnTextsIgnoreChildren(ns: seq<Node>, ms: seq<Node>)
    requires |ns| == |ms|
    requires forall i :: 0 <= i < |ns| ==> ns[i].text == ms[i].text
    ensures OwnTexts(ns) == OwnTexts(ms)
    decreases |ns|
  {
    if ns != [] {
      OwnTextsIgnoreChildren(ns[..|ns| - 1], ms[..|ms| - 1]);
    }
  }

  // ---------------------------------------------------------------------------
  // Document order of the walker's output
  // ---------------------------------------------------------------------------

  lemma {:induction false} PostOrderAllAppend(a: seq<Node>, b: seq<Node>)
    ensures PostOrderAll(a + b) == PostOrderAll(a) + PostOrderAll(b)
    decreases |a|
  {
    if a == [] {
      assert a + b == b;
    } else {
      assert (a + b)[0] == a[0];
      assert (a + b)[1..] == a[1..] + b;
      PostOrderAllAppend(a[1..], b);
    }
  }

  /** An element's descendants' texts all come before its own text, which comes last. */
  lemma DescendantsFirst(t: Node)
    ensures LeafTexts(t) == LeafTextsAll(t.children) + Yielded(t)
  {
    OwnTextsAppend(PostOrderAll(t.children), [t]);
    assert OwnTexts([t]) == Yielded(t) by {
      assert [t][..0] == [];
    }
  }

  /** Among siblings, the subtrees before `ts[i]`, then `ts[i]`'s subtree, then those after it. */
  lemma SiblingsInOrder(ts: seq<Node>, i: int)
    requires 0 <= i < |ts|
    ensures LeafTextsAll(ts) == LeafTextsAll(ts[..i]) + LeafTexts(ts[i]) + LeafTextsAll(ts[i + 1..])
  {
    assert ts == ts[..i] + ([ts[i]] + ts[i + 1..]);
    PostOrderAllAppend(ts[..i], [ts[i]] + ts[i + 1..]);
    assert ([ts[i]] + ts[i + 1..])[1..] == ts[i + 1..];
    OwnTextsAppend(PostOrderAll(ts[..i]), PostOrder(ts[i]) + PostOrderAll(ts[i + 1..]));
    OwnTextsAppend(PostOrder(ts[i]), PostOrderAll(ts[i + 1..]));
  }

  /** When every element of `ns` contributes, the output has one string per element. */
  lemma {:induction false} OwnTextsAllContribute(ns: seq<Node>)
    requires forall j :: 0 <= j < |ns| ==> Contributes(ns[j])
    ensures |OwnTexts(ns)| == |ns|
    decreases |ns|
  {
    if ns != [] {
      OwnTextsAllContribute(ns[..|ns| - 1]);
    }
  }

  /** At most one string per element; exactly one per element when every element contributes. */
  lemma LeafTextsCount(t: Node)
    ensures |LeafTexts(t)| == |Contributors(PostOrder(t))| <= Size(t)
    ensures (forall j :: 0 <= j < Size(t) ==> Contributes(PostOrder(t)[j])) ==> |LeafTexts(t)| == Size(t)
  {
    var ns := PostOrder(t);
    OwnTextsCount(ns);
    if forall j :: 0 <= j < Size(t) ==> Contributes(ns[j]) {
      OwnTextsAllContribute(ns);
    }
  }
}
