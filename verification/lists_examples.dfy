/** Concrete runs of the list post-processor. */
module ListExamples {
  import opened Wrappers
  import opened Nodes
  import opened Lists

  function Plain(kind: Kind, level: nat): Node {
    Node(kind, level, None, [], [])
  }

  /** Levels 0, 1, 1, 0: one list of two items; the level-0 node after the
      list still gets a stray `<li>`. */
  lemma SameLevelListExample(ns: seq<Node>)
    requires ns == [Plain(Para, 0), Plain(Para, 1), Plain(Para, 1), Plain(Table, 0)]
    ensures ListPostProcessor(ns)
         == [ Node(Para, 0, None, [], []),
              Node(ListItem, 1, None, ["<ul><li>"], ["</li>"]),
              Node(ListItem, 1, None, ["<li>"], ["</li></ul>"]),
              Node(Table, 0, None, ["<li>"], []) ]
  {
    var out := ListPostProcessor(ns);
    assert out[0] == Node(Para, 0, None, [], []) by {
      PrependFragments(ns, 0);
      AppendFragments(ns, 0);
    }
    assert out[1] == Node(ListItem, 1, None, ["<ul><li>"], ["</li>"]) by {
      PrependFragments(ns, 1);
      AppendFragments(ns, 1);
      assert ClassAttr(ns[1]) == "";
      assert "<ul><li" + "" + ">" == "<ul><li>" && "<li" + "" + ">" == "<li>";
      assert Repeat(1, "<ul><li>") == ["<ul><li>"];
    }
    assert out[2] == Node(ListItem, 1, None, ["<li>"], ["</li></ul>"]) by {
      PrependFragments(ns, 2);
      AppendFragments(ns, 2);
      assert ClassAttr(ns[2]) == "";
      assert "<li" + "" + ">" == "<li>";
      assert Repeat(1, "</li></ul>") == ["</li></ul>"];
    }
    assert out[3] == Node(Table, 0, None, ["<li>"], []) by {
      PrependFragments(ns, 3);
      AppendFragments(ns, 3);
      assert ClassAttr(ns[3]) == "";
      assert "<li" + "" + ">" == "<li>";
    }
  }

  /** Levels 0, 1, 2, 0: falling two levels at once leaves two separate
      `</li></ul>` entries on the last list item; the class of a styled node
      goes on the `<ul><li…>` opened for it. */
  lemma NestedListExample(ns: seq<Node>)
    requires ns == [Plain(Para, 0), Plain(Para, 1), Node(Para, 2, Some("x"), [], []), Plain(Para, 0)]
    ensures ListPostProcessor(ns)
         == [ Node(Para, 0, None, [], []),
              Node(ListItem, 1, None, ["<ul><li>"], []),
              Node(ListItem, 2, Some("x"), ["<ul><li class=\"x\">"], ["</li></ul>", "</li></ul>"]),
              Node(Para, 0, None, ["<li>"], []) ]
  {
    var out := ListPostProcessor(ns);
    assert out[0] == Node(Para, 0, None, [], []) by {
      PrependFragments(ns, 0);
      AppendFragments(ns, 0);
    }
    assert out[1] == Node(ListItem, 1, None, ["<ul><li>"], []) by {
      PrependFragments(ns, 1);
      AppendFragments(ns, 1);
      assert ClassAttr(ns[1]) == "";
      assert "<ul><li" + "" + ">" == "<ul><li>" && "<li" + "" + ">" == "<li>";
      assert Repeat(1, "<ul><li>") == ["<ul><li>"];
    }
    NestedListDeepNode(ns);
    assert out[3] == Node(Para, 0, None, ["<li>"], []) by {
      PrependFragments(ns, 3);
      AppendFragments(ns, 3);
      assert ClassAttr(ns[3]) == "";
      assert "<li" + "" + ">" == "<li>";
    }
  }

  /** The level-2 node of `NestedListExample`: its class on the `<ul><li…>`,
      and one `</li></ul>` per level on the way back to 0. */
  lemma NestedListDeepNode(ns: seq<Node>)
    requires ns == [Plain(Para, 0), Plain(Para, 1), Node(Para, 2, Some("x"), [], []), Plain(Para, 0)]
    ensures ListPostProcessor(ns)[2]
         == Node(ListItem, 2, Some("x"), ["<ul><li class=\"x\">"], ["</li></ul>", "</li></ul>"])
  {
    PrependFragments(ns, 2);
    AppendFragments(ns, 2);
    assert ClassAttr(ns[2]) == " class=\"x\"";
    assert "<ul><li" + " class=\"x\"" + ">" == "<ul><li class=\"x\">";
    assert Repeat(1, "<ul><li class=\"x\">") == ["<ul><li class=\"x\">"];
    assert Repeat(2, "</li></ul>") == ["</li></ul>", "</li></ul>"];
  }

  /** A document that starts two levels deep: both `<ul><li…>` carry the
      class, an empty class gives no attribute, and nothing closes the list
      at the end. */
  lemma OpenAtEndExample(ns: seq<Node>)
    requires ns == [Node(Para, 2, Some("toc"), [], []), Node(Para, 2, Some(""), [], [])]
    ensures ListPostProcessor(ns)
         == [ Node(ListItem, 2, Some("toc"), ["<ul><li class=\"toc\">", "<ul><li class=\"toc\">"], ["</li>"]),
              Node(ListItem, 2, Some(""), ["<li>"], []) ]
  {
    var out := ListPostProcessor(ns);
    assert out[0] == Node(ListItem, 2, Some("toc"), ["<ul><li class=\"toc\">", "<ul><li class=\"toc\">"], ["</li>"]) by {
      PrependFragments(ns, 0);
      AppendFragments(ns, 0);
      assert ClassAttr(ns[0]) == " class=\"toc\"";
      assert "<ul><li" + " class=\"toc\"" + ">" == "<ul><li class=\"toc\">";
      assert Repeat(2, "<ul><li class=\"toc\">") == ["<ul><li class=\"toc\">", "<ul><li class=\"toc\">"];
    }
    assert out[1] == Node(ListItem, 2, Some(""), ["<li>"], []) by {
      PrependFragments(ns, 1);
      AppendFragments(ns, 1);
      assert ClassAttr(ns[1]) == "";
      assert "<ul><li" + "" + ">" == "<ul><li>" && "<li" + "" + ">" == "<li>";
    }
  }
}
