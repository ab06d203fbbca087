/** Loading the children of one element into nodes (`loadNodesFromElement`)
    and the entry point that picks the document body (`_loadNodes`). */
module Loader {
  import opened Wrappers
  import opened Nodes
  import opened Lists

  /** The tag dispatch: `w:tbl` builds a table, `w:p` a paragraph, any other
      child (text, section properties, bookmarks, …) builds nothing. */
  function Classify(tagName: string): (k: Option<Kind>)
    ensures k == Some(Table) <==> tagName == "w:tbl"
    ensures k == Some(Para) <==> tagName == "w:p"
    ensures k.None? <==> tagName != "w:tbl" && tagName != "w:p"
  {
    if tagName == "w:tbl" then Some(Table)
    else if tagName == "w:p" then Some(Para)
    else None
  }

  predicate Recognized(e: Element) {
    Classify(e.tagName).Some?
  }

  /** The node built for a recognized child. */
  function Build(e: Element): Node
    requires Recognized(e)
  {
    MakeNode(Classify(e.tagName).value, e)
  }

  /** The nodes collected by the loop, before post-processing: one fresh node
      per recognized child. */
  function Collect(children: seq<Element>): (ns: seq<Node>)
    ensures |ns| <= |children|
    ensures Fresh(ns)
  {
    if |children| == 0 then []
    else
      var rest := Collect(children[..|children| - 1]);
      var e := children[|children| - 1];
      if Recognized(e) then rest + [Build(e)] else rest
  }

  /** The positions of the recognized children, in increasing order. */
  function Positions(children: seq<Element>): (ps: seq<nat>)
    ensures forall k :: 0 <= k < |ps| ==> ps[k] < |children| && Recognized(children[ps[k]])
    ensures forall k, k' :: 0 <= k < k' < |ps| ==> ps[k] < ps[k']
    ensures forall j :: 0 <= j < |children| && Recognized(children[j]) ==> j in ps
  {
    if |children| == 0 then []
    else
      var n := |children| - 1;
      var rest := Positions(children[..n]);
      assert forall j :: 0 <= j < n ==> children[..n][j] == children[j];
      if Recognized(children[n]) then rest + [n] else rest
  }

  /** The loop keeps exactly the recognized children, in source order: the
      `k`-th collected node is the node built for the `k`-th recognized
      child. */
  lemma {:induction false} CollectKeepsRecognizedInOrder(children: seq<Element>)
    ensures var ns := Collect(children);
            var ps := Positions(children);
            && |ns| == |ps|
            && forall k :: 0 <= k < |ns| ==> ns[k] == Build(children[ps[k]])
    decreases |children|
  {
    if |children| > 0 {
      var n := |children| - 1;
      var c' := children[..n];
      CollectKeepsRecognizedInOrder(c');
      var ns', ps' := Collect(c'), Positions(c');
      var ns, ps := Collect(children), Positions(children);
      if Recognized(children[n]) {
        assert ns == ns' + [Build(children[n])];
        assert ps == ps' + [n];
        forall k | 0 <= k < |ns|
          ensures ns[k] == Build(children[ps[k]])
        {
          if k < |ns'| {
            assert ns[k] == ns'[k] && ps[k] == ps'[k];
            assert c'[ps'[k]] == children[ps'[k]];
          }
        }
      } else {
        assert ns == ns' && ps == ps';
        forall k | 0 <= k < |ns|
          ensures ns[k] == Build(children[ps[k]])
        {
          assert c'[ps'[k]] == children[ps'[k]];
        }
      }
    }
  }

  /** Children are handled one at a time: loading a concatenation loads each
      part and concatenates the results. */
  lemma {:induction false} CollectConcat(a: seq<Element>, b: seq<Element>)
    ensures Collect(a + b) == Collect(a) + Collect(b)
    decreases |b|
  {
    if |b| == 0 {
      assert a + b == a;
    } else {
      var b' := b[..|b| - 1];
      assert (a + b)[..|a + b| - 1] == a + b';
      CollectConcat(a, b');
    }
  }

  /** Nodes without fragments open and close no `<ul>`. */
  lemma {:induction false} FreshDepth(ns: seq<Node>)
    requires Fresh(ns)
    ensures UlDepth(ns) == 0
    decreases |ns|
  {
    if |ns| > 0 {
      FreshDepth(ns[..|ns| - 1]);
    }
  }

  /** `loadNodesFromElement`: the collected nodes passed through the list
      post-processor. One node per recognized child; the `<ul>` left open
      equal the list level of the last node. */
  function LoadNodesFromElement(children: seq<Element>): (out: seq<Node>)
    ensures |out| == |Positions(children)|
    ensures UlDepth(out) == LastLevel(Collect(children))
  {
    CollectKeepsRecognizedInOrder(children);
    UlBalance(Collect(children));
    FreshDepth(Collect(children));
    ListPostProcessor(Collect(children))
  }

  /** The node loaded for the `k`-th recognized child keeps that child's level
      and style; it is a list item inside a list and otherwise the kind its tag
      names. */
  lemma LoadedNodeShape(children: seq<Element>, k: nat)
    requires k < |Positions(children)|
    ensures var e := children[Positions(children)[k]];
            var n := LoadNodesFromElement(children)[k];
            && n.listLevel == e.listLevel
            && n.htmlClass == e.htmlClass
            && n.kind == (if e.listLevel > 0 then ListItem
                          else if e.tagName == "w:tbl" then Table else Para)
  {
    CollectKeepsRecognizedInOrder(children);
  }

  datatype LoadError = NoBodyElement

  /** `_loadNodes` after parsing: `bodies` are the `w:body` elements found,
      each given by its children. The first one is loaded; none is an error. */
  function LoadBody(bodies: seq<seq<Element>>): (r: Result<seq<Node>, LoadError>)
    ensures r.Failure? <==> |bodies| == 0
    ensures r.Failure? ==> r.error == NoBodyElement
    ensures r.Success? ==> r.value == LoadNodesFromElement(bodies[0])
    ensures r.Success? ==> |r.value| == |Positions(bodies[0])|
  {
    if |bodies| > 0 then Success(LoadNodesFromElement(bodies[0]))
    else Failure(NoBodyElement)
  }
}
