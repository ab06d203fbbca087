/** The list post-processor of `Docx::_listPostProcessor`: one left-to-right
    pass over the siblings just loaded from an element, carrying the current
    list level. Every step between two consecutive list levels becomes
    `<ul><li…>` / `<li…>` fragments put in front of the current node and
    `</li></ul>` / `</li>` fragments put after the previous node; nodes inside
    a list are retyped as list items. */
module Lists {
  import opened Wrappers
  import opened Nodes

  const UlClose: string := "</li></ul>"
  const LiClose: string := "</li>"

  /** The ` class="X"` attribute of the node's style, or "" when the node has
      no style or its html class is empty. */
  function ClassAttr(n: Node): (cls: string)
    ensures cls == "" <==> (n.htmlClass.None? || n.htmlClass.value == "")
    ensures cls != "" ==> cls == " class=\"" + n.htmlClass.value + "\""
  {
    match n.htmlClass
    case None => ""
    case Some(c) => if c != "" then " class=\"" + c + "\"" else ""
  }

  function UlLiOpen(cls: string): string { "<ul><li" + cls + ">" }

  function LiOpen(cls: string): string { "<li" + cls + ">" }

  /** `k` copies of the fragment `f`. */
  function Repeat(k: nat, f: string): seq<string> {
    seq(k, _ => f)
  }

  /** Fragments put in front of a node at level `l` when the level before it is `c`. */
  function Opens(c: nat, l: nat, cls: string): seq<string> {
    if c < l then Repeat(l - c, UlLiOpen(cls))
    else if c > 0 then [LiOpen(cls)]
    else []
  }

  /** Fragments put after the previous node when the level goes from `c` to `l`.
      They are only ever produced inside a list, which is why the previous
      node always exists. */
  function Closes(c: nat, l: nat): (r: seq<string>)
    ensures r != [] ==> c > 0
  {
    if c > l then Repeat(c - l, UlClose)
    else if c > 0 && c == l then [LiClose]
    else []
  }

  /** The type a node has after post-processing. */
  function Retype(n: Node): Kind {
    if n.listLevel > 0 then ListItem else n.kind
  }

  /** The level of the last node, 0 for no nodes: the level the pass carries
      after processing `ns`. */
  function LastLevel(ns: seq<Node>): nat {
    if |ns| == 0 then 0 else ns[|ns| - 1].listLevel
  }

  function AddPrepend(n: Node, frags: seq<string>): Node {
    n.(prepend := frags + n.prepend)
  }

  function AddAppend(n: Node, frags: seq<string>): Node {
    n.(append := n.append + frags)
  }

  /** What the pass carries: the nodes processed so far and `currentListLevel`. */
  datatype State = State(nodes: seq<Node>, currentListLevel: nat)

  /** One iteration of the pass over node `n`. */
  function Step(s: State, n: Node): State
    requires s.currentListLevel > 0 ==> |s.nodes| > 0
  {
    var c := s.currentListLevel;
    var closes := Closes(c, n.listLevel);
    var done :=
      if closes == [] then s.nodes
      else s.nodes[..|s.nodes| - 1] + [AddAppend(s.nodes[|s.nodes| - 1], closes)];
    var cur := AddPrepend(n.(kind := Retype(n)), Opens(c, n.listLevel, ClassAttr(n)));
    State(done + [cur], n.listLevel)
  }

  /** The pass as a left fold over `ns`. */
  function Run(ns: seq<Node>): (s: State)
    ensures |s.nodes| == |ns|
    ensures s.currentListLevel == LastLevel(ns)
    decreases |ns|
  {
    if |ns| == 0 then State([], 0)
    else Step(Run(ns[..|ns| - 1]), ns[|ns| - 1])
  }

  /** `_listPostProcessor`: the same nodes in the same order, list members
      retyped, with list markup attached. */
  function ListPostProcessor(ns: seq<Node>): (out: seq<Node>)
    ensures |out| == |ns|
    ensures forall i :: 0 <= i < |ns| ==>
              && out[i].listLevel == ns[i].listLevel
              && out[i].htmlClass == ns[i].htmlClass
              && out[i].kind == (if ns[i].listLevel > 0 then ListItem else ns[i].kind)
  {
    PostProcessorPointwise(ns);
    Run(ns).nodes
  }

  // ---------------------------------------------------------------------
  // An independent, position-wise description of the pass.

  /** The level in force before node `i`: the previous node's, 0 for the first. */
  function PrevLevel(ns: seq<Node>, i: nat): nat
    requires i < |ns|
  {
    if i == 0 then 0 else ns[i - 1].listLevel
  }

  /** The level of node `i + 1`, if there is one. */
  function NextLevel(ns: seq<Node>, i: nat): Option<nat>
    requires i < |ns|
  {
    if i + 1 < |ns| then Some(ns[i + 1].listLevel) else None
  }

  /** A node after the pass, given the level before it and the level of the
      node after it (none for the last node). */
  function Annotate(n: Node, prev: nat, next: Option<nat>): Node {
    Node(Retype(n), n.listLevel, n.htmlClass,
         Opens(prev, n.listLevel, ClassAttr(n)) + n.prepend,
         if next.Some? then n.append + Closes(n.listLevel, next.value) else n.append)
  }

  /** Node `i` as it should look after the pass, computed from its two
      neighbours only. */
  function Annotated(ns: seq<Node>, i: nat): Node
    requires i < |ns|
  {
    Annotate(ns[i], PrevLevel(ns, i), NextLevel(ns, i))
  }

  /** One step leaves nodes two or more places back untouched. */
  lemma StepKeeps(s: State, n: Node, i: nat)
    requires s.currentListLevel > 0 ==> |s.nodes| > 0
    requires i + 1 < |s.nodes|
    ensures Step(s, n).nodes[i] == s.nodes[i]
  {
  }

  /** One step appends its closing fragments to the previous node. */
  lemma StepCloses(s: State, n: Node)
    requires |s.nodes| > 0
    ensures Step(s, n).nodes[|s.nodes| - 1]
         == AddAppend(s.nodes[|s.nodes| - 1], Closes(s.currentListLevel, n.listLevel))
  {
    var x := s.nodes[|s.nodes| - 1];
    if Closes(s.currentListLevel, n.listLevel) == [] {
      assert x.append + [] == x.append;
    }
  }

  /** One step adds the new node with its opening fragments. */
  lemma StepOpens(s: State, n: Node)
    requires s.currentListLevel > 0 ==> |s.nodes| > 0
    ensures |Step(s, n).nodes| == |s.nodes| + 1
    ensures Step(s, n).nodes[|s.nodes|]
         == AddPrepend(n.(kind := Retype(n)), Opens(s.currentListLevel, n.listLevel, ClassAttr(n)))
  {
  }

  /** Node `i` after one more step, from what it was before that step. */
  lemma PointwiseSnoc(ns: seq<Node>, i: nat)
    requires 0 < |ns| && i < |ns|
    requires i < |ns| - 1 ==> Run(ns[..|ns| - 1]).nodes[i] == Annotated(ns[..|ns| - 1], i)
    ensures Run(ns).nodes[i] == Annotated(ns, i)
  {
    var k := |ns| - 1;
    if i + 1 < k {
      PointwiseKept(ns, i);
    } else if i + 1 == k {
      PointwisePrevious(ns, i);
    } else {
      PointwiseOpened(ns, i);
    }
  }

  /** Nodes two or more places back are untouched by the last step, and so
      is their description. */
  lemma PointwiseKept(ns: seq<Node>, i: nat)
    requires i + 2 < |ns|
    requires Run(ns[..|ns| - 1]).nodes[i] == Annotated(ns[..|ns| - 1], i)
    ensures Run(ns).nodes[i] == Annotated(ns, i)
  {
    var ns' := ns[..|ns| - 1];
    var a := Run(ns).nodes[i];
    var b := Run(ns').nodes[i];
    assert a == b by { PointwiseEarlier(ns, i); }
    assert Annotated(ns', i) == Annotated(ns, i) by { AnnotatedEarlier(ns, i); }
  }

  /** The node before the last: what it was, plus the last step's closing
      fragments. */
  lemma PointwisePrevious(ns: seq<Node>, i: nat)
    requires i + 2 == |ns|
    requires Run(ns[..|ns| - 1]).nodes[i] == Annotated(ns[..|ns| - 1], i)
    ensures Run(ns).nodes[i] == Annotated(ns, i)
  {
    var ns' := ns[..|ns| - 1];
    var closes := Closes(ns[i].listLevel, ns[i + 1].listLevel);
    var a := Run(ns).nodes[i];
    var b := Run(ns').nodes[i];
    var x := Annotated(ns', i);
    var y := Annotated(ns, i);
    assert a == AddAppend(b, closes) by { RunPrevious(ns, i); }
    assert AddAppend(x, closes) == y by { PointwiseClosed(ns, ns', i); }
    assert b == x;
    AppendChain(a, b, x, y, closes);
  }

  /** Equal nodes stay equal after the same fragments are appended. A
      separate lemma so that the solver chains the three equalities without
      expanding `Node` equality field by field next to the fold's terms. */
  lemma AppendChain(a: Node, b: Node, x: Node, y: Node, closes: seq<string>)
    requires a == AddAppend(b, closes) && b == x && AddAppend(x, closes) == y
    ensures a == y
  {
  }

  /** The node before the last, after the last step: the node it was, plus
      that step's closing fragments. */
  lemma RunPrevious(ns: seq<Node>, i: nat)
    requires i + 2 == |ns|
    ensures Run(ns).nodes[i]
         == AddAppend(Run(ns[..|ns| - 1]).nodes[i], Closes(ns[i].listLevel, ns[i + 1].listLevel))
  {
    var s := Run(ns[..|ns| - 1]);
    var a := Run(ns).nodes[i];
    RunStepAt(ns, i);
    assert s.currentListLevel == ns[i].listLevel;
    StepClosesAt(s, ns[i + 1], a, ns[i].listLevel, ns[i + 1].listLevel);
  }

  /** Node `i` of the fold, `i` second to last, is node `i` of its last step.
      Kept apart from its caller so that unfolding `Run` happens in a context
      without the closing-fragment terms, where it stays cheap. */
  lemma RunStepAt(ns: seq<Node>, i: nat)
    requires i + 2 == |ns|
    ensures Run(ns).nodes[i] == Step(Run(ns[..|ns| - 1]), ns[i + 1]).nodes[i]
  {
    assert ns[|ns| - 1] == ns[i + 1];
  }

  /** `StepCloses`, with the carried and the new level named, so that the
      caller can match `Closes(c, l)` syntactically instead of through
      arithmetic on the levels. */
  lemma StepClosesAt(s: State, n: Node, a: Node, c: nat, l: nat)
    requires |s.nodes| > 0 && s.currentListLevel == c && n.listLevel == l
    requires a == Step(s, n).nodes[|s.nodes| - 1]
    ensures a == AddAppend(s.nodes[|s.nodes| - 1], Closes(c, l))
  {
    StepCloses(s, n);
  }

  /** The fold leaves nodes two or more places back as they were. */
  lemma PointwiseEarlier(ns: seq<Node>, i: nat)
    requires i + 2 < |ns|
    ensures Run(ns).nodes[i] == Run(ns[..|ns| - 1]).nodes[i]
  {
    StepKeeps(Run(ns[..|ns| - 1]), ns[|ns| - 1], i);
  }

  /** The description of a node two or more places back does not depend on
      the last node. */
  lemma AnnotatedEarlier(ns: seq<Node>, i: nat)
    requires i + 2 < |ns|
    ensures Annotated(ns[..|ns| - 1], i) == Annotated(ns, i)
  {
    var ns' := ns[..|ns| - 1];
    assert ns'[i] == ns[i] && PrevLevel(ns', i) == PrevLevel(ns, i) && NextLevel(ns', i) == NextLevel(ns, i);
  }

  /** The last node: its opening fragments, and no closing ones yet. */
  lemma PointwiseOpened(ns: seq<Node>, i: nat)
    requires i + 1 == |ns|
    ensures Run(ns).nodes[i] == Annotated(ns, i)
  {
    var s := Run(ns[..|ns| - 1]);
    assert ns[|ns| - 1] == ns[i];
    StepOpens(s, ns[|ns| - 1]);
    assert s.currentListLevel == PrevLevel(ns, i);
  }

  /** The node before the last gets the last step's closing fragments. */
  lemma PointwiseClosed(ns: seq<Node>, ns': seq<Node>, i: nat)
    requires i + 2 == |ns| && ns' == ns[..|ns| - 1]
    ensures AddAppend(Annotated(ns', i), Closes(ns[i].listLevel, ns[i + 1].listLevel))
         == Annotated(ns, i)
  {
    assert ns'[i] == ns[i] && PrevLevel(ns', i) == PrevLevel(ns, i);
  }

  /** The fold agrees with the position-wise description at every index. */
  lemma {:induction false} PostProcessorPointwise(ns: seq<Node>)
    ensures forall i :: 0 <= i < |ns| ==> Run(ns).nodes[i] == Annotated(ns, i)
    decreases |ns|
  {
    if |ns| > 0 {
      PostProcessorPointwise(ns[..|ns| - 1]);
      forall i | 0 <= i < |ns|
        ensures Run(ns).nodes[i] == Annotated(ns, i)
      {
        PointwiseSnoc(ns, i);
      }
    }
  }

  /** Node `i` of the output is node `i` of the position-wise description. */
  lemma OutputAt(ns: seq<Node>, i: nat)
    requires i < |ns|
    ensures i < |ListPostProcessor(ns)| && ListPostProcessor(ns)[i] == Annotated(ns, i)
  {
    PostProcessorPointwise(ns);
  }

  /** Opening fragments: entering node `i` from level `c` to level `l`, the
      node gets `l - c` fragments `<ul><li CLS>` when the level rises, one
      `<li CLS>` when it does not rise inside a list (this includes a level-0
      node right after a list), and nothing otherwise. */
  lemma PrependFragments(ns: seq<Node>, i: nat)
    requires i < |ns|
    ensures var out := ListPostProcessor(ns);
            var c := PrevLevel(ns, i);
            var l := ns[i].listLevel;
            var cls := ClassAttr(ns[i]);
            && (c < l ==> out[i].prepend == Repeat(l - c, "<ul><li" + cls + ">") + ns[i].prepend)
            && (l <= c && c > 0 ==> out[i].prepend == ["<li" + cls + ">"] + ns[i].prepend)
            && (c == 0 && l == 0 ==> out[i].prepend == ns[i].prepend)
  {
    OutputAt(ns, i);
  }

  /** Closing fragments: stepping from node `i` (level `c`) to node `i + 1`
      (level `l`) leaves `c - l` separate `</li></ul>` entries after node `i`
      when the level falls, one `</li>` when it stays at the same positive
      level, and nothing otherwise; the last node never gets any, so a list
      still open at the end stays open. */
  lemma AppendFragments(ns: seq<Node>, i: nat)
    requires i < |ns|
    ensures var out := ListPostProcessor(ns);
            var c := ns[i].listLevel;
            && (i + 1 == |ns| ==> out[i].append == ns[i].append)
            && (i + 1 < |ns| ==>
                  var l := ns[i + 1].listLevel;
                  && (c > l ==> out[i].append == ns[i].append + Repeat(c - l, "</li></ul>"))
                  && (c == l && c > 0 ==> out[i].append == ns[i].append + ["</li>"])
                  && (c < l || c == l == 0 ==> out[i].append == ns[i].append))
  {
    OutputAt(ns, i);
  }

  // ---------------------------------------------------------------------
  // Balance of `<ul>` opened and closed.

  /** The fragment opens a `<ul>`. */
  predicate OpensUl(f: string) {
    |f| >= 4 && f[..4] == "<ul>"
  }

  /** The fragment closes a `<ul>`. */
  predicate ClosesUl(f: string) {
    f == UlClose
  }

  /** Number of fragments of `fs` satisfying `p`. */
  function Count(fs: seq<string>, p: string -> bool): nat {
    if |fs| == 0 then 0
    else Count(fs[..|fs| - 1], p) + (if p(fs[|fs| - 1]) then 1 else 0)
  }

  /** `<ul>` opened minus `<ul>` closed by the fragments of one node. */
  function NodeDepth(n: Node): int {
    Count(n.prepend, OpensUl) - Count(n.append, ClosesUl)
  }

  /** `<ul>` opened minus `<ul>` closed by the fragments of all nodes of `ns`. */
  function UlDepth(ns: seq<Node>): int {
    if |ns| == 0 then 0 else UlDepth(ns[..|ns| - 1]) + NodeDepth(ns[|ns| - 1])
  }

  lemma {:induction false} CountConcat(a: seq<string>, b: seq<string>, p: string -> bool)
    ensures Count(a + b, p) == Count(a, p) + Count(b, p)
    decreases |b|
  {
    if |b| > 0 {
      var b' := b[..|b| - 1];
      assert (a + b)[..|a + b| - 1] == a + b';
      CountConcat(a, b', p);
    } else {
      assert a + b == a;
    }
  }

  lemma {:induction false} CountRepeat(k: nat, f: string, p: string -> bool)
    ensures Count(Repeat(k, f), p) == if p(f) then k else 0
  {
    if k > 0 {
      assert Repeat(k, f)[..k - 1] == Repeat(k - 1, f);
      CountRepeat(k - 1, f, p);
    }
  }

  lemma UlDepthSnoc(ns: seq<Node>, n: Node)
    ensures UlDepth(ns + [n]) == UlDepth(ns) + NodeDepth(n)
  {
    assert (ns + [n])[..|ns|] == ns;
  }

  /** Each step opens exactly as many `<ul>` as the level rises and closes
      exactly as many as it falls. */
  lemma TransitionBalance(c: nat, l: nat, cls: string)
    ensures Count(Opens(c, l, cls), OpensUl) - Count(Closes(c, l), ClosesUl) == l - c
  {
    assert OpensUl(UlLiOpen(cls));
    assert !OpensUl(LiOpen(cls)) by {
      if |LiOpen(cls)| >= 4 { assert LiOpen(cls)[..4][1] == 'l'; }
    }
    assert !ClosesUl(LiClose);
    if c < l {
      CountRepeat(l - c, UlLiOpen(cls), OpensUl);
    }
    if c > l {
      CountRepeat(c - l, UlClose, ClosesUl);
    }
    assert Count([LiOpen(cls)], OpensUl) == Count([], OpensUl) + 0 by {
      assert [LiOpen(cls)][..0] == [];
    }
    assert Count([LiClose], ClosesUl) == Count([], ClosesUl) + 0 by {
      assert [LiClose][..0] == [];
    }
  }

  /** Appending closing fragments to the last node of `xs` removes as many
      `<ul>` from the balance as the fragments close. */
  lemma DepthAfterClosing(xs: seq<Node>, closes: seq<string>)
    requires |xs| > 0
    ensures UlDepth(xs[..|xs| - 1] + [AddAppend(xs[|xs| - 1], closes)])
         == UlDepth(xs) - Count(closes, ClosesUl)
  {
    var m := |xs| - 1;
    var x := xs[m];
    assert xs == xs[..m] + [x];
    UlDepthSnoc(xs[..m], x);
    UlDepthSnoc(xs[..m], AddAppend(x, closes));
    CountConcat(x.append, closes, ClosesUl);
  }

  /** One step changes the balance by the new node's own fragments plus the
      change of level. */
  lemma StepDepth(s: State, n: Node)
    requires s.currentListLevel > 0 ==> |s.nodes| > 0
    ensures UlDepth(Step(s, n).nodes)
         == UlDepth(s.nodes) + NodeDepth(n) + n.listLevel - s.currentListLevel
  {
    var c := s.currentListLevel;
    var closes := Closes(c, n.listLevel);
    var opens := Opens(c, n.listLevel, ClassAttr(n));
    var done :=
      if closes == [] then s.nodes
      else s.nodes[..|s.nodes| - 1] + [AddAppend(s.nodes[|s.nodes| - 1], closes)];
    var cur := AddPrepend(n.(kind := Retype(n)), opens);
    assert Step(s, n).nodes == done + [cur];
    UlDepthSnoc(done, cur);
    CountConcat(opens, n.prepend, OpensUl);
    assert NodeDepth(cur) == Count(opens, OpensUl) + NodeDepth(n);
    if closes != [] {
      DepthAfterClosing(s.nodes, closes);
    }
    assert UlDepth(done) == UlDepth(s.nodes) - Count(closes, ClosesUl);
    TransitionBalance(c, n.listLevel, ClassAttr(n));
  }

  /** After processing any sequence of nodes, the `<ul>` opened minus the
      `<ul>` closed by the pass equals the level of the last node processed
      (0 for no nodes): a list still open at the end is never closed. */
  lemma {:induction false} UlBalance(ns: seq<Node>)
    ensures UlDepth(ListPostProcessor(ns)) == UlDepth(ns) + LastLevel(ns)
    decreases |ns|
  {
    if |ns| > 0 {
      var k := |ns| - 1;
      var ns' := ns[..k];
      UlBalance(ns');
      assert ns == ns' + [ns[k]];
      UlDepthSnoc(ns', ns[k]);
      StepDepth(Run(ns'), ns[k]);
    }
  }

  // ---------------------------------------------------------------------
  // The pass as the source writes it: index-based, one fragment at a time.

  lemma RepeatSnoc(k: nat, f: string)
    ensures Repeat(k, f) + [f] == Repeat(k + 1, f)
  {
  }

  lemma RepeatCons(k: nat, f: string)
    ensures [f] + Repeat(k, f) == Repeat(k + 1, f)
  {
  }

  /** The closing half of one iteration (source lines 143-151): when the
      level falls, one `</li></ul>` per level crossed is appended to
      `nodeArr[i - 1]`; at the same positive level a single `</li>`. */
  method CloseStep(nodeArr: seq<Node>, i: nat, currentListLevel: nat, level: nat)
    returns (out: seq<Node>)
    requires i < |nodeArr|
    requires currentListLevel > 0 ==> i > 0
    ensures |out| == |nodeArr|
    ensures Closes(currentListLevel, level) == [] ==> out == nodeArr
    ensures Closes(currentListLevel, level) != [] ==>
              out == nodeArr[i - 1 := AddAppend(nodeArr[i - 1], Closes(currentListLevel, level))]
  {
    out := nodeArr;
    if currentListLevel > level {
      var loopI := currentListLevel;
      assert Repeat(0, UlClose) == [];
      assert AddAppend(nodeArr[i - 1], []) == nodeArr[i - 1];
      while loopI > level
        invariant level <= loopI <= currentListLevel
        invariant out == nodeArr[i - 1 := AddAppend(nodeArr[i - 1], Repeat(currentListLevel - loopI, UlClose))]
      {
        RepeatSnoc(currentListLevel - loopI, UlClose);
        assert nodeArr[i - 1].append + Repeat(currentListLevel - loopI, UlClose) + [UlClose]
            == nodeArr[i - 1].append + Repeat(currentListLevel - loopI + 1, UlClose);
        out := out[i - 1 := AddAppend(out[i - 1], [UlClose])];
        loopI := loopI - 1;
      }
    } else if currentListLevel > 0 && currentListLevel == level {
      out := out[i - 1 := AddAppend(out[i - 1], [LiClose])];
    }
  }

  /** The opening half of one iteration (source lines 152-160): when the
      level rises, one `<ul><li CLS>` per level crossed is prepended to the
      node; otherwise, inside a list, a single `<li CLS>`. */
  method OpenStep(node: Node, currentListLevel: nat, liClassStr: string) returns (n: Node)
    ensures n == AddPrepend(node, Opens(currentListLevel, node.listLevel, liClassStr))
  {
    n := node;
    var level := node.listLevel;
    if currentListLevel < level {
      var loopI := currentListLevel;
      while loopI < level
        invariant currentListLevel <= loopI <= level
        invariant n == AddPrepend(node, Repeat(loopI - currentListLevel, UlLiOpen(liClassStr)))
      {
        RepeatCons(loopI - currentListLevel, UlLiOpen(liClassStr));
        n := AddPrepend(n, [UlLiOpen(liClassStr)]);
        loopI := loopI + 1;
      }
    } else if currentListLevel > 0 {
      n := AddPrepend(n, [LiOpen(liClassStr)]);
    }
  }

  /** One iteration of the index-based loop, done on `s.nodes + [n] + rest`,
      leaves `Step(s, n).nodes + rest`. */
  lemma SpliceStep(s: State, n: Node, rest: seq<Node>, a: seq<Node>, cur: Node)
    requires s.currentListLevel > 0 ==> |s.nodes| > 0
    requires a == s.nodes + [n] + rest
    requires cur == AddPrepend(n.(kind := Retype(n)), Opens(s.currentListLevel, n.listLevel, ClassAttr(n)))
    ensures var closes := Closes(s.currentListLevel, n.listLevel);
            var b := if closes == [] then a else a[|s.nodes| - 1 := AddAppend(a[|s.nodes| - 1], closes)];
            b[|s.nodes| := cur] == Step(s, n).nodes + rest
  {
    var closes := Closes(s.currentListLevel, n.listLevel);
    if closes != [] {
      var m := |s.nodes| - 1;
      assert s.nodes == s.nodes[..m] + [s.nodes[m]];
    }
  }

  /** One more node of the loop's input is one more step of the fold. The
      third clause only splits the unprocessed rest at `i`; it is stated here
      so that the loop body does not have to prove sequence equalities in the
      middle of its own, larger, context. */
  lemma RunSnoc(ns: seq<Node>, i: nat)
    requires i < |ns|
    ensures Run(ns[..i + 1]) == Step(Run(ns[..i]), ns[i])
    ensures LastLevel(ns[..i + 1]) == ns[i].listLevel
    ensures Run(ns[..i]).nodes + ns[i..] == Run(ns[..i]).nodes + [ns[i]] + ns[i + 1..]
  {
    assert ns[..i + 1][..i] == ns[..i];
    assert ns[i..] == [ns[i]] + ns[i + 1..];
  }

  /** `_listPostProcessor` as written: a loop carrying `currentListLevel`
      that writes closing fragments into `nodeArr[i - 1]` and opening
      fragments into the current node. The index `i - 1` is in range because
      the carried level is only positive once a node has been processed. It
      computes exactly the fold. */
  method ListPostProcessorLoop(nodeArr: seq<Node>) returns (out: seq<Node>)
    ensures out == ListPostProcessor(nodeArr)
  {
    out := nodeArr;
    var currentListLevel: nat := 0;
    for i := 0 to |nodeArr|
      invariant out == Run(nodeArr[..i]).nodes + nodeArr[i..]
      invariant currentListLevel == LastLevel(nodeArr[..i])
    {
      ghost var s := Run(nodeArr[..i]);
      RunSnoc(nodeArr, i);
      ghost var a := out;
      var node := out[i];
      if node.listLevel > 0 {
        node := node.(kind := ListItem);
      }
      var liClassStr := ClassAttr(node);
      var level := node.listLevel;
      out := CloseStep(out, i, currentListLevel, level);
      node := OpenStep(node, currentListLevel, liClassStr);
      SpliceStep(s, nodeArr[i], nodeArr[i + 1..], a, node);
      out := out[i := node];
      currentListLevel := level;
    }
    assert nodeArr[..|nodeArr|] == nodeArr;
  }
}
