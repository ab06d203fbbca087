/** `Docx::getHtmlIdFromString`: turning arbitrary text into a value usable
    as an html `id`. Each PHP string function used is modelled by its own
    function below. */
module HtmlIds {

  const Prefix: string := "docx_"
  const Nbsp: string := "&nbsp;"

  /** `str_replace` of one needle: scan left to right, replacing each
      non-overlapping occurrence of `needle` by `rep`. */
  function ReplaceAll(s: string, needle: string, rep: string): string
    requires |needle| > 0
    decreases |s|
  {
    if |s| == 0 then []
    else if needle <= s then rep + ReplaceAll(s[|needle|..], needle, rep)
    else [s[0]] + ReplaceAll(s[1..], needle, rep)
  }

  /** Drop the rest of a tag: everything up to and including the first `>`,
      or everything when the tag is never closed. */
  function SkipTag(s: string): (r: string)
    ensures |r| <= |s|
  {
    if |s| == 0 then []
    else if s[0] == '>' then s[1..]
    else SkipTag(s[1..])
  }

  /** `strip_tags`, approximated: every `<…>` span is removed, and an
      unclosed `<` removes the rest of the text. */
  function StripTags(s: string): string
    decreases |s|
  {
    if |s| == 0 then []
    else if s[0] == '<' then StripTags(SkipTag(s[1..]))
    else [s[0]] + StripTags(s[1..])
  }

  /** The characters PHP's `trim` removes by default: space, tab, line feed,
      carriage return, NUL and vertical tab. */
  predicate IsTrimmed(c: char) {
    c == ' ' || c == '\t' || c == '\n' || c == '\r' || c as int == 0 || c as int == 11
  }

  function TrimLeft(s: string): string {
    if |s| > 0 && IsTrimmed(s[0]) then TrimLeft(s[1..]) else s
  }

  function TrimRight(s: string): string {
    if |s| > 0 && IsTrimmed(s[|s| - 1]) then TrimRight(s[..|s| - 1]) else s
  }

  /** `trim`. */
  function Trim(s: string): string {
    TrimRight(TrimLeft(s))
  }

  /** The characters the final `preg_replace` keeps: `[A-Za-z0-9_]`. */
  predicate IdChar(c: char) {
    ('A' <= c <= 'Z') || ('a' <= c <= 'z') || ('0' <= c <= '9') || c == '_'
  }

  predicate IsId(s: string) {
    forall i :: 0 <= i < |s| ==> IdChar(s[i])
  }

  /** `preg_replace("/[^A-Za-z0-9_]/", '', s)`: keep only id characters. */
  function Filter(s: string): string {
    if |s| == 0 then []
    else (if IdChar(s[0]) then [s[0]] else []) + Filter(s[1..])
  }

  // ---------------------------------------------------------------------
  // Facts about the individual steps.

  lemma {:induction false} FilterIsId(s: string)
    ensures IsId(Filter(s))
    decreases |s|
  {
    if |s| > 0 {
      FilterIsId(s[1..]);
    }
  }

  lemma {:induction false} FilterConcat(a: string, b: string)
    ensures Filter(a + b) == Filter(a) + Filter(b)
    decreases |a|
  {
    if |a| == 0 {
      assert a + b == b;
    } else {
      var h := if IdChar(a[0]) then [a[0]] else [];
      assert Filter(a + b) == h + Filter(a[1..] + b) by {
        assert (a + b)[0] == a[0];
        assert (a + b)[1..] == a[1..] + b;
      }
      FilterConcat(a[1..], b);
      assert h + (Filter(a[1..]) + Filter(b)) == (h + Filter(a[1..])) + Filter(b);
    }
  }

  lemma {:induction false} FilterKeepsId(s: string)
    requires IsId(s)
    ensures Filter(s) == s
    decreases |s|
  {
    if |s| > 0 {
      FilterKeepsId(s[1..]);
    }
  }

  /** Trimming never changes what the filter keeps. */
  lemma {:induction false} FilterTrimLeft(s: string)
    ensures Filter(TrimLeft(s)) == Filter(s)
    decreases |s|
  {
    if |s| > 0 && IsTrimmed(s[0]) {
      FilterTrimLeft(s[1..]);
    }
  }

  lemma {:induction false} FilterTrimRight(s: string)
    ensures Filter(TrimRight(s)) == Filter(s)
    decreases |s|
  {
    if |s| > 0 && IsTrimmed(s[|s| - 1]) {
      var s' := s[..|s| - 1];
      FilterTrimRight(s');
      assert s == s' + [s[|s| - 1]];
      FilterConcat(s', [s[|s| - 1]]);
    }
  }

  /** A prefix that cannot start the needle is passed through unchanged. */
  lemma {:induction false} ReplaceAllPrefix(p: string, s: string, needle: string, rep: string)
    requires |needle| > 0
    requires forall i :: 0 <= i < |p| ==> p[i] != needle[0]
    ensures ReplaceAll(p + s, needle, rep) == p + ReplaceAll(s, needle, rep)
    decreases |p|
  {
    if |p| == 0 {
      assert p + s == s;
    } else {
      assert (p + s)[0] == p[0];
      assert !(needle <= p + s);
      assert (p + s)[1..] == p[1..] + s;
      ReplaceAllPrefix(p[1..], s, needle, rep);
    }
  }

  /** A prefix without `<` is passed through unchanged by `StripTags`. */
  lemma {:induction false} StripTagsPrefix(p: string, s: string)
    requires forall i :: 0 <= i < |p| ==> p[i] != '<'
    ensures StripTags(p + s) == p + StripTags(s)
    decreases |p|
  {
    if |p| == 0 {
      assert p + s == s;
    } else {
      assert (p + s)[1..] == p[1..] + s;
      StripTagsPrefix(p[1..], s);
    }
  }

  // ---------------------------------------------------------------------
  // The sanitiser.

  /** The steps of `getHtmlIdFromString` after the prefix is added:
      `&nbsp;` removed, then spaces turned into `_`, then tags stripped,
      trimmed and filtered. */
  function Sanitise(s: string): string {
    Filter(Trim(StripTags(ReplaceAll(ReplaceAll(s, Nbsp, ""), " ", "_"))))
  }

  /** `getHtmlIdFromString`: always `docx_` followed by id characters only. */
  function GetHtmlIdFromString(raw: string): (id: string)
    ensures |id| >= |Prefix| && id[..|Prefix|] == Prefix
    ensures IsId(id)
  {
    HtmlIdPipeline(raw);
    FilterIsId(Trim(StripTags(ReplaceAll(ReplaceAll(Prefix + raw, Nbsp, ""), " ", "_"))));
    Sanitise(Prefix + raw)
  }

  /** The prefix is never touched: the id is `docx_` followed by the
      sanitised raw text. */
  lemma HtmlIdPipeline(raw: string)
    ensures Sanitise(Prefix + raw)
         == Prefix + Filter(StripTags(ReplaceAll(ReplaceAll(raw, Nbsp, ""), " ", "_")))
  {
    ReplaceAllPrefix(Prefix, raw, Nbsp, "");
    var a := ReplaceAll(raw, Nbsp, "");
    ReplaceAllPrefix(Prefix, a, " ", "_");
    var b := ReplaceAll(a, " ", "_");
    StripTagsPrefix(Prefix, b);
    var c := Prefix + StripTags(b);
    FilterTrimLeft(c);
    FilterTrimRight(TrimLeft(c));
    FilterConcat(Prefix, StripTags(b));
    FilterKeepsId(Prefix);
    FilterIsId(StripTags(b));
  }

  /** Text that is already a valid id comes back behind the prefix, unchanged. */
  lemma CleanIdUnchanged(raw: string)
    requires IsId(raw)
    ensures GetHtmlIdFromString(raw) == Prefix + raw
  {
    HtmlIdPipeline(raw);
    ReplaceAllPrefix(raw, [], Nbsp, "");
    ReplaceAllPrefix(raw, [], " ", "_");
    StripTagsPrefix(raw, []);
    assert raw + [] == raw;
    FilterKeepsId(raw);
  }

  /** Empty text gives the bare prefix. */
  lemma EmptyIdExample(raw: string)
    requires raw == ""
    ensures GetHtmlIdFromString(raw) == "docx_"
  {
    CleanIdUnchanged(raw);
  }

  /** `&nbsp;` is removed before spaces become `_`, and the tag is stripped:
      `" A&nbsp;B<br>"` gives `docx__AB` (the prefix's `_` and the one from
      the leading space). */
  lemma NbspExample(raw: string)
    requires raw == " A&nbsp;B<br>"
    ensures GetHtmlIdFromString(raw) == "docx__AB"
  {
    HtmlIdPipeline(raw);
    var a := ReplaceAll(raw, Nbsp, "");
    NbspStage(raw, a);
    var b := ReplaceAll(a, " ", "_");
    SpaceStage(a, b);
    var c := StripTags(b);
    TagStage(b, c);
    FilterKeepsId(c);
    assert Prefix + c == "docx__AB";
  }

  lemma NbspStage(raw: string, a: string)
    requires raw == " A&nbsp;B<br>" && a == ReplaceAll(raw, Nbsp, "")
    ensures a == " AB<br>"
  {
    var tail := "&nbsp;B<br>";
    assert a == " A" + ReplaceAll(tail, Nbsp, "") by {
      assert raw == " A" + tail;
      ReplaceAllPrefix(" A", tail, Nbsp, "");
    }
    NbspStageTail(tail);
    assert " A" + "B<br>" == " AB<br>";
  }

  lemma NbspStageTail(tail: string)
    requires tail == "&nbsp;B<br>"
    ensures ReplaceAll(tail, Nbsp, "") == "B<br>"
  {
    assert Nbsp <= tail;
    assert tail[|Nbsp|..] == "B<br>" + [];
    ReplaceAllPrefix("B<br>", [], Nbsp, "");
  }

  lemma SpaceStage(a: string, b: string)
    requires a == " AB<br>" && b == ReplaceAll(a, " ", "_")
    ensures b == "_AB<br>"
  {
    assert " " <= a && a[1..] == "AB<br>" + [];
    ReplaceAllPrefix("AB<br>", [], " ", "_");
  }

  lemma TagStage(b: string, c: string)
    requires b == "_AB<br>" && c == StripTags(b)
    ensures c == "_AB"
  {
    assert b == "_AB" + "<br>";
    StripTagsPrefix("_AB", "<br>");
    assert SkipTag("br>") == [] by {
      assert "br>"[1..] == "r>" && "r>"[1..] == ">" && ">"[1..] == [];
    }
    assert "<br>"[1..] == "br>";
    assert StripTags("<br>") == [];
    assert "_AB" + [] == "_AB";
  }
}
