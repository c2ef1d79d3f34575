/**
 * `convertSVGTextToPath`: the fill-opacity rewrite, the merge of the
 * sanitized copy with the Inkscape-converted tree, and the three Inkscape
 * passes around it.
 *
 * Nodes are values; the text elements the loop visits are a snapshot taken
 * before the first replacement, each entry recording where the element was
 * and what it was. The loop reaches an entry's element through its path. An
 * element inside a text that was already replaced by a group is no longer in
 * the document (the group holds a clone of its ancestor); edits to it are
 * then invisible, but it still consumes its match from the converted tree
 * and still causes its warnings, as the node objects of the source do.
 */
module Reconciler {
  import opened Wrappers
  import opened Dom
  import BinaryResolver
  import ProcessInvoker

  // ---------------------------------------------------------------------
  // setFillOpacity0

  const FillOpacity0: string := "fill-opacity: 0;"

  /** `elem.getAttribute("style") || ""` */
  function StyleOf(elem: Node): string
    requires elem.Element?
  {
    if "style" in elem.attrs then elem.attrs["style"] else ""
  }

  /** The style is empty or its last statement is closed by `;`. */
  predicate EndsWithSeparator(style: string) {
    style == "" || style[|style| - 1] == ';'
  }

  /**
   * The style after `setFillOpacity0`: the old style, a `;` exactly when
   * the old style is non-empty and does not end in one, then the
   * `fill-opacity: 0;` declaration.
   */
  function FillOpacity0Style(style: string): (r: string)
    ensures style == "" ==> r == FillOpacity0
    ensures style <= r
    ensures |r| == |style| + (if EndsWithSeparator(style) then 0 else 1) + |FillOpacity0|
    ensures r[|r| - |FillOpacity0|..] == FillOpacity0
    ensures EndsWithSeparator(r[..|r| - |FillOpacity0|])
  {
    if style != "" && style[|style| - 1] != ';' then style + ";" + FillOpacity0 else style + FillOpacity0
  }

  /**
   * A second rewrite appends only the declaration: the first one leaves a
   * style that ends with a separator.
   */
  lemma FillOpacity0StyleTwice(style: string)
    ensures FillOpacity0Style(FillOpacity0Style(style)) == FillOpacity0Style(style) + FillOpacity0
  {
    var r := FillOpacity0Style(style);
    assert r[|r| - 1] == FillOpacity0[|FillOpacity0| - 1] == ';';
  }

  /** The element after `setFillOpacity0`. */
  function WithFillOpacity0(elem: Node): (r: Node)
    requires elem.Element?
    ensures r.Element? && r.name == elem.name && r.children == elem.children
    ensures r.attrs.Keys == elem.attrs.Keys + {"style"}
    ensures forall a :: a in elem.attrs && a != "style" ==> r.attrs[a] == elem.attrs[a]
    ensures r.attrs["style"] == FillOpacity0Style(StyleOf(elem))
  {
    Element(elem.name, elem.attrs["style" := FillOpacity0Style(StyleOf(elem))], elem.children)
  }

  /** `setFillOpacity0(elem)`: reassigns the local style, then sets the attribute. */
  method SetFillOpacity0(elem: Node) returns (updated: Node)
    requires elem.Element?
    ensures updated == WithFillOpacity0(elem)
    ensures StyleOf(elem) <= StyleOf(updated)
    ensures StyleOf(updated) == StyleOf(elem) + (if EndsWithSeparator(StyleOf(elem)) then "" else ";") + FillOpacity0
  {
    var style := StyleOf(elem);
    if style != "" && style[|style| - 1] != ';' {
      style := style + ";";
    }
    style := style + FillOpacity0;
    updated := Element(elem.name, elem.attrs["style" := style], elem.children);
  }

  // ---------------------------------------------------------------------
  // The merge loop

  datatype Warning = MissingId | NoMatch(id: string)

  /** The text `console.warn` prints. */
  function WarningText(w: Warning): string {
    match w
    case MissingId => "Warning: Text element is missing an ID"
    case NoMatch(id) => "Warning: No corresponding path found for text element with ID '" + id + "'"
  }

  /** A text element as the snapshot found it: its position and its state. */
  datatype Entry = Entry(path: Path, text: Node)

  /**
   * `select(".//svg:text", svgCopy)`: every SVG text element, in document
   * order, with the node at its position.
   */
  function Snapshot(doc: seq<Node>): (entries: seq<Entry>)
    ensures |entries| == |Select(doc, SvgTextElements)|
    ensures forall k :: 0 <= k < |entries| ==>
      entries[k].path == Select(doc, SvgTextElements)[k] &&
      ValidPath(doc, entries[k].path) && entries[k].text == NodeAt(doc, entries[k].path) &&
      Matches(entries[k].text, SvgTextElements)
  {
    SelectSound(doc, SvgTextElements, 0);
    var paths := Select(doc, SvgTextElements);
    seq(|paths|, k requires 0 <= k < |paths| => Entry(paths[k], NodeAt(doc, paths[k])))
  }

  /** The snapshot holds every SVG text element, once, in document order. */
  lemma SnapshotSpec(doc: seq<Node>)
    ensures forall p :: ValidPath(doc, p) && Matches(NodeAt(doc, p), SvgTextElements) ==>
      exists k :: 0 <= k < |Snapshot(doc)| && Snapshot(doc)[k].path == p
    ensures forall a, b :: 0 <= a < b < |Snapshot(doc)| ==>
      Before(Snapshot(doc)[a].path, Snapshot(doc)[b].path)
  {
    SelectOrdered(doc, SvgTextElements, 0);
    forall p | ValidPath(doc, p) && Matches(NodeAt(doc, p), SvgTextElements)
      ensures exists k :: 0 <= k < |Snapshot(doc)| && Snapshot(doc)[k].path == p
    {
      SelectComplete(doc, SvgTextElements, 0, p);
      var k :| 0 <= k < |Select(doc, SvgTextElements)| && Select(doc, SvgTextElements)[k] == p;
      assert Snapshot(doc)[k].path == p;
    }
  }

  /** Two snapshot entries, in the order the snapshot lists them, are in document order. */
  lemma SnapshotBefore(doc: seq<Node>, a: nat, b: nat)
    requires a < b < |Snapshot(doc)|
    ensures Before(Snapshot(doc)[a].path, Snapshot(doc)[b].path)
  {
    SnapshotSpec(doc);
  }

  /**
   * The loop's state: the sanitized copy, the converted tree, the positions
   * of the texts replaced by a group so far, the warnings printed, and
   * whether `parent.replaceChild` threw on a null parent.
   */
  datatype MergeState = MergeState(
    doc: seq<Node>, converted: seq<Node>, replaced: seq<Path>, warnings: seq<Warning>, crashed: bool)

  function Initial(doc: seq<Node>, converted: seq<Node>): MergeState {
    MergeState(doc, converted, [], [], false)
  }

  /** The element at `p` is still in the document: no ancestor of it was replaced by a group. */
  predicate Attached(p: Path, replaced: seq<Path>) {
    forall m :: m in replaced ==> !IsProperPrefix(m, p)
  }

  /** `svgCopy.createElement("g")` holding the clone of the text, then the moved match. */
  function Group(text: Node, match_: Node): Node {
    Element(Name(None, "g"), map[], [text, match_])
  }

  /** One iteration of the loop, for one snapshot entry. */
  function Step(s: MergeState, e: Entry): (t: MergeState)
    requires e.text.Element?
    ensures s.crashed ==> t == s
    ensures t.replaced == s.replaced || t.replaced == s.replaced + [e.path]
    ensures s.warnings <= t.warnings && |t.warnings| <= |s.warnings| + 1
  {
    if s.crashed then s
    else
      var text := WithFillOpacity0(e.text);
      var live := Attached(e.path, s.replaced);
      var doc := if live then ReplaceAt(s.doc, e.path, text) else s.doc;
      if "id" !in e.text.attrs then
        s.(doc := doc, warnings := s.warnings + [MissingId])
      else
        var id := e.text.attrs["id"];
        FirstMatchSpec(s.converted, ElementsWithId(id));
        match FirstMatch(s.converted, ElementsWithId(id))
        case None => s.(doc := doc, warnings := s.warnings + [NoMatch(id)])
        case Some(q) =>
          if |e.path| == 1 then s.(doc := doc, crashed := true)
          else
            var g := Group(text, NodeAt(s.converted, q));
            s.(doc := if live then ReplaceAt(doc, e.path, g) else doc,
               converted := RemoveAt(s.converted, q),
               replaced := s.replaced + [e.path])
  }

  predicate AllElements(entries: seq<Entry>) {
    forall k :: 0 <= k < |entries| ==> entries[k].text.Element?
  }

  /** The state after the iterations for `entries`, in order. */
  function Merge(s: MergeState, entries: seq<Entry>): MergeState
    requires AllElements(entries)
    decreases |entries|
  {
    if entries == [] then s
    else Step(Merge(s, entries[..|entries| - 1]), entries[|entries| - 1])
  }

  /** The merge of `convertSVGTextToPath` over the sanitized copy and the converted tree. */
  function MergeSpec(svgCopy: seq<Node>, converted: seq<Node>): MergeState {
    Merge(Initial(svgCopy, converted), Snapshot(svgCopy))
  }

  lemma {:induction false} CrashIsFinal(s: MergeState, entries: seq<Entry>, i: nat)
    requires AllElements(entries) && i <= |entries| && Merge(s, entries[..i]).crashed
    ensures Merge(s, entries) == Merge(s, entries[..i])
    decreases |entries| - i
  {
    if i < |entries| {
      assert entries[..i + 1][..i] == entries[..i];
      CrashIsFinal(s, entries, i + 1);
    } else {
      assert entries[..i] == entries;
    }
  }

  /** The iterations for the first `i + 1` entries: those for the first `i`, then one more. */
  lemma MergeOneMore(s: MergeState, entries: seq<Entry>, i: nat)
    requires AllElements(entries) && i < |entries|
    ensures Merge(s, entries[..i + 1]) == Step(Merge(s, entries[..i]), entries[i])
  {
    assert entries[..i + 1][..i] == entries[..i];
  }

  /** The `for` loop of `convertSVGTextToPath` over the snapshot of text elements. */
  method MergeTexts(svgCopy: seq<Node>, converted: seq<Node>) returns (out: MergeState)
    ensures out == MergeSpec(svgCopy, converted)
  {
    var texts := Snapshot(svgCopy);
    ghost var init := Initial(svgCopy, converted);
    var doc, conv, replaced, warnings := svgCopy, converted, [], [];
    var i := 0;
    while i < |texts|
      invariant 0 <= i <= |texts|
      invariant MergeState(doc, conv, replaced, warnings, false) == Merge(init, texts[..i])
    {
      ghost var before := MergeState(doc, conv, replaced, warnings, false);
      MergeOneMore(init, texts, i);
      var path, textElem := texts[i].path, texts[i].text;
      var faded := SetFillOpacity0(textElem);
      var live := Attached(path, replaced);
      if live {
        doc := ReplaceAt(doc, path, faded);
      }
      if "id" !in textElem.attrs {
        warnings := warnings + [MissingId];
        assert MergeState(doc, conv, replaced, warnings, false) == Step(before, texts[i]);
      } else {
        var id := textElem.attrs["id"];
        FirstMatchSpec(conv, ElementsWithId(id));
        var found := FirstMatch(conv, ElementsWithId(id));
        if found.None? {
          warnings := warnings + [NoMatch(id)];
          assert MergeState(doc, conv, replaced, warnings, false) == Step(before, texts[i]);
        } else {
          var pathElem := NodeAt(conv, found.value);
          if |path| == 1 {
            out := MergeState(doc, conv, replaced, warnings, true);
            assert out == Step(before, texts[i]);
            CrashIsFinal(init, texts, i + 1);
            return;
          }
          var g := Group(faded, pathElem);
          conv := RemoveAt(conv, found.value);
          if live {
            doc := ReplaceAt(doc, path, g);
          }
          replaced := replaced + [path];
          assert MergeState(doc, conv, replaced, warnings, false) == Step(before, texts[i]);
        }
      }
      i := i + 1;
    }
    assert texts[..|texts|] == texts;
    out := MergeState(doc, conv, replaced, warnings, false);
  }

  // ---------------------------------------------------------------------
  // Properties of the merge

  /**
   * Every snapshot entry from index `i` on whose element is still in the
   * document sits where the snapshot found it, unchanged.
   */
  predicate InPlace(s: MergeState, entries: seq<Entry>, i: nat)
    requires i <= |entries|
  {
    forall j :: i <= j < |entries| && Attached(entries[j].path, s.replaced) ==>
      ValidPath(s.doc, entries[j].path) && NodeAt(s.doc, entries[j].path) == entries[j].text
  }

  /** One iteration leaves a later text (in document order) where it was. */
  lemma StepKeepsLaterText(s: MergeState, e: Entry, f: Entry)
    requires e.text.Element? && !Step(s, e).crashed && |e.path| > 0 && Before(e.path, f.path)
    requires Attached(e.path, s.replaced) ==> ValidPath(s.doc, e.path) && NodeAt(s.doc, e.path) == e.text
    requires Attached(f.path, s.replaced) ==> ValidPath(s.doc, f.path) && NodeAt(s.doc, f.path) == f.text
    ensures Attached(f.path, Step(s, e).replaced) ==>
      ValidPath(Step(s, e).doc, f.path) && NodeAt(Step(s, e).doc, f.path) == f.text
  {
    var t := Step(s, e);
    if Attached(f.path, t.replaced) {
      assert Attached(f.path, s.replaced);
      BeforeCases(e.path, f.path);
      if Attached(e.path, s.replaced) {
        var text := WithFillOpacity0(e.text);
        var doc := ReplaceAt(s.doc, e.path, text);
        if IsProperPrefix(e.path, f.path) {
          ReplaceAtKeepsSubtree(s.doc, e.path, f.path, text);
        } else {
          ReplaceAtDisjoint(s.doc, e.path, f.path, text);
        }
        if "id" in e.text.attrs {
          var id := e.text.attrs["id"];
          FirstMatchSpec(s.converted, ElementsWithId(id));
          var m := FirstMatch(s.converted, ElementsWithId(id));
          if m.Some? {
            assert e.path in t.replaced;
            ReplaceAtSelf(s.doc, e.path, text);
            ReplaceAtDisjoint(doc, e.path, f.path, Group(text, NodeAt(s.converted, m.value)));
          }
        }
      }
    }
  }

  /** The iteration for entry `i` leaves every later entry that is still in the document in place. */
  lemma StepKeepsInPlace(s: MergeState, entries: seq<Entry>, i: nat)
    requires AllElements(entries) && i < |entries| && |entries[i].path| > 0
    requires !Step(s, entries[i]).crashed && InPlace(s, entries, i)
    requires forall j :: i < j < |entries| ==> Before(entries[i].path, entries[j].path)
    ensures InPlace(Step(s, entries[i]), entries, i + 1)
  {
    var t := Step(s, entries[i]);
    forall j | i + 1 <= j < |entries| && Attached(entries[j].path, t.replaced)
      ensures ValidPath(t.doc, entries[j].path) && NodeAt(t.doc, entries[j].path) == entries[j].text
    {
      StepKeepsLaterText(s, entries[i], entries[j]);
    }
  }

  /**
   * Before the iteration for snapshot entry `i`, every text not yet visited
   * whose element is still in the document is exactly where and what the
   * snapshot recorded: replacing earlier texts by groups never moves a later one.
   */
  lemma {:induction false} UnvisitedTextsStayInPlace(doc: seq<Node>, converted: seq<Node>, i: nat)
    requires i <= |Snapshot(doc)|
    ensures !Merge(Initial(doc, converted), Snapshot(doc)[..i]).crashed ==>
      InPlace(Merge(Initial(doc, converted), Snapshot(doc)[..i]), Snapshot(doc), i)
  {
    var entries := Snapshot(doc);
    var s0 := Initial(doc, converted);
    if i == 0 {
      assert entries[..0] == [];
    } else {
      UnvisitedTextsStayInPlace(doc, converted, i - 1);
      MergeOneMore(s0, entries, i - 1);
      var s := Merge(s0, entries[..i - 1]);
      if !Step(s, entries[i - 1]).crashed {
        forall j | i - 1 < j < |entries|
          ensures Before(entries[i - 1].path, entries[j].path)
        {
          SnapshotBefore(doc, i - 1, j);
        }
        StepKeepsInPlace(s, entries, i - 1);
      }
    }
  }

  /**
   * A text without an id, or whose id matches nothing in the converted tree,
   * only gets its fill opacity set, and one warning is printed for it.
   */
  lemma UnmatchedTextWarns(s: MergeState, e: Entry)
    requires e.text.Element? && !s.crashed
    requires "id" !in e.text.attrs || FirstMatch(s.converted, ElementsWithId(e.text.attrs["id"])).None?
    requires Attached(e.path, s.replaced) ==> ValidPath(s.doc, e.path)
    ensures !Step(s, e).crashed
    ensures Step(s, e).converted == s.converted && Step(s, e).replaced == s.replaced
    ensures Step(s, e).warnings ==
      s.warnings + [if "id" in e.text.attrs then NoMatch(e.text.attrs["id"]) else MissingId]
    ensures Attached(e.path, s.replaced) ==>
      ValidPath(Step(s, e).doc, e.path) && NodeAt(Step(s, e).doc, e.path) == WithFillOpacity0(e.text)
    ensures !Attached(e.path, s.replaced) ==> Step(s, e).doc == s.doc
    ensures forall q :: ValidPath(s.doc, q) && Disjoint(e.path, q) ==>
      ValidPath(Step(s, e).doc, q) && NodeAt(Step(s, e).doc, q) == NodeAt(s.doc, q)
  {
    if Attached(e.path, s.replaced) {
      var text := WithFillOpacity0(e.text);
      ReplaceAtSelf(s.doc, e.path, text);
      forall q | ValidPath(s.doc, q) && Disjoint(e.path, q)
        ensures ValidPath(Step(s, e).doc, q) && NodeAt(Step(s, e).doc, q) == NodeAt(s.doc, q)
      {
        ReplaceAtDisjoint(s.doc, e.path, q, text);
      }
    }
  }

  /**
   * A text below the top level whose id matches is replaced by a group of
   * its fill-opacity-zero clone and the first element with that id in the
   * converted tree, which is moved out of that tree; nothing is printed.
   */
  lemma MatchedTextGrouped(s: MergeState, e: Entry)
    requires e.text.Element? && !s.crashed && "id" in e.text.attrs && |e.path| > 1
    requires FirstMatch(s.converted, ElementsWithId(e.text.attrs["id"])).Some?
    requires Attached(e.path, s.replaced) ==> ValidPath(s.doc, e.path)
    ensures var id := e.text.attrs["id"];
      var q := FirstMatch(s.converted, ElementsWithId(id)).value;
      ValidPath(s.converted, q) && Matches(NodeAt(s.converted, q), ElementsWithId(id)) &&
      (forall p :: ValidPath(s.converted, p) && Matches(NodeAt(s.converted, p), ElementsWithId(id)) ==>
        p == q || Before(q, p)) &&
      !Step(s, e).crashed && Step(s, e).warnings == s.warnings &&
      Step(s, e).replaced == s.replaced + [e.path] &&
      Step(s, e).converted == RemoveAt(s.converted, q) &&
      |Select(Step(s, e).converted, ElementsWithId(id))| < |Select(s.converted, ElementsWithId(id))| &&
      (Attached(e.path, s.replaced) ==>
        ValidPath(Step(s, e).doc, e.path) &&
        NodeAt(Step(s, e).doc, e.path) == Group(WithFillOpacity0(e.text), NodeAt(s.converted, q)))
    ensures !Attached(e.path, s.replaced) ==> Step(s, e).doc == s.doc
    ensures forall q :: ValidPath(s.doc, q) && Disjoint(e.path, q) ==>
      ValidPath(Step(s, e).doc, q) && NodeAt(Step(s, e).doc, q) == NodeAt(s.doc, q)
  {
    var id := e.text.attrs["id"];
    FirstMatchSpec(s.converted, ElementsWithId(id));
    var q := FirstMatch(s.converted, ElementsWithId(id)).value;
    MoveOutLeavesFewerMatches(s.converted, q, ElementsWithId(id));
    if Attached(e.path, s.replaced) {
      var text := WithFillOpacity0(e.text);
      var g := Group(text, NodeAt(s.converted, q));
      var mid := ReplaceAt(s.doc, e.path, text);
      ReplaceAtSelf(s.doc, e.path, text);
      ReplaceAtSelf(mid, e.path, g);
      forall o | ValidPath(s.doc, o) && Disjoint(e.path, o)
        ensures ValidPath(Step(s, e).doc, o) && NodeAt(Step(s, e).doc, o) == NodeAt(s.doc, o)
      {
        ReplaceAtDisjoint(s.doc, e.path, o, text);
        ReplaceAtDisjoint(mid, e.path, o, g);
      }
    }
  }

  /**
   * A top-level text whose id matches has no parent element: the
   * conversion stops there, and no later iteration runs.
   */
  lemma TopLevelMatchedTextCrashes(s: MergeState, entries: seq<Entry>, i: nat)
    requires AllElements(entries) && i < |entries|
    requires var e := entries[i]; var t := Merge(s, entries[..i]);
      !t.crashed && |e.path| == 1 && "id" in e.text.attrs &&
      FirstMatch(t.converted, ElementsWithId(e.text.attrs["id"])).Some?
    ensures Merge(s, entries).crashed
    ensures Merge(s, entries) == Merge(s, entries[..i + 1])
  {
    assert entries[..i + 1][..i] == entries[..i];
    CrashIsFinal(s, entries, i + 1);
  }

  /** Without a crash, every text visited is either grouped or warned about, exactly once. */
  lemma {:induction false} EveryTextAccountedFor(s: MergeState, entries: seq<Entry>)
    requires AllElements(entries)
    ensures !Merge(s, entries).crashed ==>
      |Merge(s, entries).warnings| + |Merge(s, entries).replaced| == |s.warnings| + |s.replaced| + |entries|
    ensures s.warnings <= Merge(s, entries).warnings
    decreases |entries|
  {
    if entries != [] {
      EveryTextAccountedFor(s, entries[..|entries| - 1]);
    }
  }

  /** Without a text on the top level, the iterations never crash. */
  lemma {:induction false} NoCrashBelowTopLevel(s: MergeState, entries: seq<Entry>)
    requires AllElements(entries) && !s.crashed
    requires forall k :: 0 <= k < |entries| ==> |entries[k].path| != 1
    ensures !Merge(s, entries).crashed
    decreases |entries|
  {
    if entries != [] {
      NoCrashBelowTopLevel(s, entries[..|entries| - 1]);
    }
  }

  /** No SVG text element sits at the top level of the document. */
  predicate NoTopLevelText(doc: seq<Node>) {
    forall i :: 0 <= i < |doc| ==> !Matches(doc[i], SvgTextElements)
  }

  /**
   * When every text has a parent element, the merge never crashes: each text
   * of the sanitized copy is grouped or warned about, and warnings never stop
   * the conversion.
   */
  lemma MergeCompletes(svgCopy: seq<Node>, converted: seq<Node>)
    requires NoTopLevelText(svgCopy)
    ensures !MergeSpec(svgCopy, converted).crashed
    ensures |MergeSpec(svgCopy, converted).warnings| + |MergeSpec(svgCopy, converted).replaced| ==
      |Select(svgCopy, SvgTextElements)|
  {
    var entries := Snapshot(svgCopy);
    NoCrashBelowTopLevel(Initial(svgCopy, converted), entries);
    EveryTextAccountedFor(Initial(svgCopy, converted), entries);
  }

  // ---------------------------------------------------------------------
  // What the merged copy holds

  /**
   * What the iteration for `e` leaves at its position: a group of the
   * faded clone and an element with the text's id when `grouped`, the
   * text's own element with its style faded otherwise. Later iterations may
   * still edit the subtree of an ungrouped text.
   */
  predicate Settles(n: Node, e: Entry, grouped: bool)
    requires e.text.Element?
  {
    if grouped then
      n.Element? && n.name == Name(None, "g") && n.attrs == map[] && |n.children| == 2 &&
      n.children[0] == WithFillOpacity0(e.text) &&
      "id" in e.text.attrs && Matches(n.children[1], ElementsWithId(e.text.attrs["id"]))
    else
      n.Element? && n.name == e.text.name && n.attrs == WithFillOpacity0(e.text).attrs
  }

  /** The node at `e`'s position, when it is still in the document, is what its iteration left there. */
  predicate Settled(s: MergeState, e: Entry)
    requires e.text.Element?
  {
    Attached(e.path, s.replaced) ==>
      ValidPath(s.doc, e.path) && Settles(NodeAt(s.doc, e.path), e, e.path in s.replaced)
  }

  /** The iteration for a text not yet replaced, found in place, settles it. */
  lemma StepSettles(s: MergeState, e: Entry)
    requires e.text.Element? && !Step(s, e).crashed && e.path !in s.replaced
    requires Attached(e.path, s.replaced) ==> ValidPath(s.doc, e.path)
    ensures Settled(Step(s, e), e)
  {
    var t := Step(s, e);
    if Attached(e.path, t.replaced) {
      assert Attached(e.path, s.replaced);
      if "id" !in e.text.attrs || FirstMatch(s.converted, ElementsWithId(e.text.attrs["id"])).None? {
        UnmatchedTextWarns(s, e);
      } else {
        MatchedTextGrouped(s, e);
      }
    }
  }

  /** Replacing the node at a position later in document order keeps what was settled at `p`. */
  lemma ReplaceKeepsSettles(doc: seq<Node>, p: Path, q: Path, n: Node, e: Entry, grouped: bool)
    requires e.text.Element? && |p| > 0 && Before(p, q)
    requires ValidPath(doc, p) && Settles(NodeAt(doc, p), e, grouped)
    requires grouped ==> !IsProperPrefix(p, q)
    ensures ValidPath(ReplaceAt(doc, q, n), p) && Settles(NodeAt(ReplaceAt(doc, q, n), p), e, grouped)
  {
    BeforeCases(p, q);
    if ValidPath(doc, q) {
      if IsProperPrefix(p, q) {
        ReplaceAtBelow(doc, p, q, n);
      } else {
        DisjointSymmetric(p, q);
        ReplaceAtDisjoint(doc, q, p, n);
      }
    }
  }

  /**
   * What one iteration that does not crash changes: it may record its own
   * position as replaced, and, when its text is still in the document, it
   * writes the faded clone there and may then write a group over it.
   */
  lemma StepShape(s: MergeState, f: Entry) returns (g: Node)
    requires f.text.Element? && !Step(s, f).crashed
    ensures Step(s, f).replaced == s.replaced || Step(s, f).replaced == s.replaced + [f.path]
    ensures !Attached(f.path, s.replaced) ==> Step(s, f).doc == s.doc
    ensures Attached(f.path, s.replaced) ==>
      var mid := ReplaceAt(s.doc, f.path, WithFillOpacity0(f.text));
      Step(s, f).doc == mid || Step(s, f).doc == ReplaceAt(mid, f.path, g)
  {
    g := f.text;
    if "id" in f.text.attrs {
      var m := FirstMatch(s.converted, ElementsWithId(f.text.attrs["id"]));
      if m.Some? {
        FirstMatchSpec(s.converted, ElementsWithId(f.text.attrs["id"]));
        g := Group(WithFillOpacity0(f.text), NodeAt(s.converted, m.value));
      }
    }
  }

  /** Edits of the shape `StepShape` describes, at a later position, keep an earlier text settled. */
  lemma EditKeepsSettled(s: MergeState, t: MergeState, e: Entry, f: Entry, g: Node)
    requires e.text.Element? && f.text.Element?
    requires |e.path| > 0 && Before(e.path, f.path) && Settled(s, e)
    requires t.replaced == s.replaced || t.replaced == s.replaced + [f.path]
    requires !Attached(f.path, s.replaced) ==> t.doc == s.doc
    requires Attached(f.path, s.replaced) ==>
      var mid := ReplaceAt(s.doc, f.path, WithFillOpacity0(f.text));
      t.doc == mid || t.doc == ReplaceAt(mid, f.path, g)
    ensures Settled(t, e)
  {
    BeforeCases(e.path, f.path);
    if Attached(e.path, t.replaced) {
      assert Attached(e.path, s.replaced);
      var grouped := e.path in s.replaced;
      assert (e.path in t.replaced) == grouped;
      if Attached(f.path, s.replaced) {
        assert grouped ==> !IsProperPrefix(e.path, f.path);
        var mid := ReplaceAt(s.doc, f.path, WithFillOpacity0(f.text));
        ReplaceKeepsSettles(s.doc, e.path, f.path, WithFillOpacity0(f.text), e, grouped);
        ReplaceKeepsSettles(mid, e.path, f.path, g, e, grouped);
      }
    }
  }

  /** A later iteration keeps an earlier text settled. */
  lemma StepKeepsSettled(s: MergeState, e: Entry, f: Entry)
    requires e.text.Element? && f.text.Element? && !Step(s, f).crashed
    requires |e.path| > 0 && Before(e.path, f.path) && Settled(s, e)
    ensures Settled(Step(s, f), e)
  {
    var g := StepShape(s, f);
    EditKeepsSettled(s, Step(s, f), e, f, g);
  }

  /** Every position replaced before the iteration for entry `i` precedes every entry from `i` on. */
  lemma {:induction false} ReplacedPrecede(doc: seq<Node>, converted: seq<Node>, i: nat)
    requires i <= |Snapshot(doc)|
    ensures var t := Merge(Initial(doc, converted), Snapshot(doc)[..i]);
      forall m, j :: m in t.replaced && i <= j < |Snapshot(doc)| ==> Before(m, Snapshot(doc)[j].path)
  {
    var entries := Snapshot(doc);
    var s0 := Initial(doc, converted);
    if i == 0 {
      assert entries[..0] == [];
    } else {
      ReplacedPrecede(doc, converted, i - 1);
      MergeOneMore(s0, entries, i - 1);
      var s := Merge(s0, entries[..i - 1]);
      var t := Step(s, entries[i - 1]);
      forall m, j | m in t.replaced && i <= j < |entries|
        ensures Before(m, entries[j].path)
      {
        if m !in s.replaced {
          assert m == entries[i - 1].path;
          SnapshotBefore(doc, i - 1, j);
        }
      }
    }
  }

  /** Once entry `k` is visited, it stays settled through every later iteration that does not crash. */
  lemma {:induction false} SettledFrom(doc: seq<Node>, converted: seq<Node>, k: nat, i: nat)
    requires k < i <= |Snapshot(doc)|
    ensures var t := Merge(Initial(doc, converted), Snapshot(doc)[..i]);
      !t.crashed ==> Settled(t, Snapshot(doc)[k])
    decreases i
  {
    var entries := Snapshot(doc);
    var s0 := Initial(doc, converted);
    MergeOneMore(s0, entries, i - 1);
    var s := Merge(s0, entries[..i - 1]);
    if !Step(s, entries[i - 1]).crashed {
      if i == k + 1 {
        UnvisitedTextsStayInPlace(doc, converted, k);
        ReplacedPrecede(doc, converted, k);
        if entries[k].path in s.replaced {
          BeforeAsymmetric(entries[k].path, entries[k].path);
        }
        StepSettles(s, entries[k]);
      } else {
        SettledFrom(doc, converted, k, i - 1);
        SnapshotBefore(doc, k, i - 1);
        StepKeepsSettled(s, entries[k], entries[i - 1]);
      }
    }
  }

  /**
   * After a merge that completes, every text of the sanitized copy that is
   * still in the document is either a `g` element without attributes
   * holding its fill-opacity-zero clone and then an element with its id
   * (when it was matched), or the text element itself with its attributes
   * kept and its style ending in `fill-opacity: 0;`.
   */
  lemma MergeOutcome(svgCopy: seq<Node>, converted: seq<Node>, k: nat)
    requires k < |Snapshot(svgCopy)|
    ensures var s := MergeSpec(svgCopy, converted); var e := Snapshot(svgCopy)[k];
      !s.crashed && Attached(e.path, s.replaced) ==>
        ValidPath(s.doc, e.path) &&
        var n := NodeAt(s.doc, e.path);
        (e.path in s.replaced ==>
          n.Element? && n.name == Name(None, "g") && n.attrs == map[] && |n.children| == 2 &&
          n.children[0] == WithFillOpacity0(e.text) &&
          "id" in e.text.attrs && Matches(n.children[1], ElementsWithId(e.text.attrs["id"]))) &&
        (e.path !in s.replaced ==>
          n.Element? && n.name == Name(Some(SvgNamespace), "text") &&
          n.attrs == e.text.attrs["style" := FillOpacity0Style(StyleOf(e.text))])
  {
    var entries := Snapshot(svgCopy);
    SettledFrom(svgCopy, converted, k, |entries|);
    assert entries[..|entries|] == entries;
  }

  // ---------------------------------------------------------------------
  // convertSVGTextToPath

  const SanitizeArgs: seq<string> := ["--pipe", "--export-filename", "-"]
  const ExportArgs: seq<string> := ["--pipe", "--export-text-to-path", "--export-filename", "-"]

  /**
   * An Inkscape process fed with a serialized document, followed by the
   * parse of its output: the parsed document, or the message of the error
   * `invokeInkscape` rejected with.
   */
  type Runner = (string, seq<string>, seq<Node>) -> Result<seq<Node>, string>

  /** `LaunchRefused`: `invokeInkscape` rejected before spawning (no binary, or an empty one). */
  datatype ConvertError = LaunchRefused(reason: ProcessInvoker.Reason) | PassFailed(message: string) | NullParentElement

  /** One spawned Inkscape process: binary, arguments and the document on its stdin. */
  datatype Call = Call(bin: string, args: seq<string>, input: seq<Node>)

  datatype Conversion = Conversion(result: Result<seq<Node>, ConvertError>, warnings: seq<Warning>, calls: seq<Call>)

  /** The binary a pass spawns with the option `inkscape`, or why it spawns nothing. */
  function Target(inkscape: Option<string>, env: BinaryResolver.Env, platform: string,
                  fs: BinaryResolver.FileSystem): (t: Result<string, ProcessInvoker.Reason>)
    ensures t.Success? ==> t.value != "" && Some(t.value) == ProcessInvoker.ChooseBin(inkscape, env, platform, fs)
  {
    ProcessInvoker.SpawnTarget(ProcessInvoker.ChooseBin(inkscape, env, platform, fs))
  }

  /**
   * The passes after a first sanitize pass `first` that produced `svgCopy`:
   * export text to path with binary `target`, merge, sanitize again.
   */
  function LaterPasses(first: Call, svgCopy: seq<Node>, target: Result<string, ProcessInvoker.Reason>,
                       run: Runner): (r: Conversion)
    ensures 1 <= |r.calls| <= 3 && r.calls[0] == first
    ensures r.result.Success? ==> |r.calls| == 3
    ensures target.Failure? ==> r == Conversion(Failure(LaunchRefused(target.error)), [], [first])
    ensures r.result.Failure? && r.result.error.LaunchRefused? <==> target.Failure?
    ensures forall k :: 0 < k < |r.calls| ==> target.Success? && r.calls[k].bin == target.value
    ensures |r.calls| > 1 ==> r.calls[1].args == ExportArgs && r.calls[1].input == svgCopy
    ensures |r.calls| > 2 ==> r.calls[2].args == SanitizeArgs
  {
    if target.Failure? then Conversion(Failure(LaunchRefused(target.error)), [], [first])
    else
      var c2 := Call(target.value, ExportArgs, svgCopy);
      match run(target.value, ExportArgs, svgCopy)
      case Failure(m) => Conversion(Failure(PassFailed(m)), [], [first, c2])
      case Success(converted) =>
        var merged := MergeSpec(svgCopy, converted);
        if merged.crashed then Conversion(Failure(NullParentElement), merged.warnings, [first, c2])
        else
          var c3 := Call(target.value, SanitizeArgs, merged.doc);
          match run(target.value, SanitizeArgs, merged.doc)
          case Failure(m) => Conversion(Failure(PassFailed(m)), merged.warnings, [first, c2, c3])
          case Success(out) => Conversion(Success(out), merged.warnings, [first, c2, c3])
  }

  /**
   * The three passes: sanitize (binary option `firstBin`), export text to
   * path (option `bin`), merge, sanitize again (option `bin`). A pass whose
   * binary is undefined or empty rejects before spawning anything.
   */
  function ConvertWith(svg: seq<Node>, firstBin: Option<string>, bin: Option<string>,
                       env: BinaryResolver.Env, platform: string, fs: BinaryResolver.FileSystem,
                       run: Runner): (r: Conversion)
    ensures |r.calls| <= 3
    ensures Target(firstBin, env, platform, fs).Success? ==> |r.calls| > 0
    ensures r.result.Success? ==> |r.calls| == 3
    ensures forall k :: 0 <= k < |r.calls| ==> r.calls[k].bin != ""
    ensures |r.calls| > 0 ==> Some(r.calls[0].bin) == ProcessInvoker.ChooseBin(firstBin, env, platform, fs)
    ensures forall k :: 0 < k < |r.calls| ==> Some(r.calls[k].bin) == ProcessInvoker.ChooseBin(bin, env, platform, fs)
    ensures |r.calls| > 0 ==> r.calls[0].args == SanitizeArgs && r.calls[0].input == svg
    ensures |r.calls| > 1 ==> r.calls[1].args == ExportArgs
    ensures |r.calls| > 2 ==> r.calls[2].args == SanitizeArgs
    ensures r.result.Failure? && r.result.error.LaunchRefused? <==>
      Target(firstBin, env, platform, fs).Failure? ||
      (Target(bin, env, platform, fs).Failure? &&
       run(Target(firstBin, env, platform, fs).value, SanitizeArgs, svg).Success?)
  {
    var t1 := Target(firstBin, env, platform, fs);
    if t1.Failure? then Conversion(Failure(LaunchRefused(t1.error)), [], [])
    else
      var c1 := Call(t1.value, SanitizeArgs, svg);
      match run(t1.value, SanitizeArgs, svg)
      case Failure(m) => Conversion(Failure(PassFailed(m)), [], [c1])
      case Success(svgCopy) => LaterPasses(c1, svgCopy, Target(bin, env, platform, fs), run)
  }

  /**
   * A refused launch is never an exit error: its reason is an undefined
   * binary, or an empty one, for the first pass or, once that pass ran,
   * for the others.
   */
  lemma LaunchRefusedReason(svg: seq<Node>, firstBin: Option<string>, bin: Option<string>,
                            env: BinaryResolver.Env, platform: string, fs: BinaryResolver.FileSystem,
                            run: Runner)
    ensures var r := ConvertWith(svg, firstBin, bin, env, platform, fs, run);
      r.result.Failure? && r.result.error.LaunchRefused? ==>
        !r.result.error.reason.ExitedWith? &&
        (r.result.error.reason == ProcessInvoker.FileArgumentEmpty <==>
         ProcessInvoker.ChooseBin(firstBin, env, platform, fs) == Some("") ||
         (|r.calls| > 0 && ProcessInvoker.ChooseBin(bin, env, platform, fs) == Some("")))
  {
  }

  /** `convertSVGTextToPath` with the binary option passed to every pass. */
  function ConvertSVGTextToPath(svg: seq<Node>, inkscape: Option<string>,
                                env: BinaryResolver.Env, platform: string, fs: BinaryResolver.FileSystem,
                                run: Runner): (r: Conversion)
    ensures forall k :: 0 <= k < |r.calls| ==> Some(r.calls[k].bin) == ProcessInvoker.ChooseBin(inkscape, env, platform, fs)
    ensures inkscape.Some? ==> forall k :: 0 <= k < |r.calls| ==> r.calls[k].bin == inkscape.value
    ensures r.result.Failure? && r.result.error.LaunchRefused? <==> Target(inkscape, env, platform, fs).Failure?
    ensures Target(inkscape, env, platform, fs).Failure? ==>
      r.calls == [] && r.result == Failure(LaunchRefused(Target(inkscape, env, platform, fs).error))
    ensures inkscape == Some("") ==> r.result == Failure(LaunchRefused(ProcessInvoker.FileArgumentEmpty))
  {
    ConvertWith(svg, inkscape, inkscape, env, platform, fs, run)
  }

  /** `convertSVGTextToPath` as written: the first sanitize pass gets no binary option. */
  function ConvertSVGTextToPathAsWritten(svg: seq<Node>, inkscape: Option<string>,
                                         env: BinaryResolver.Env, platform: string, fs: BinaryResolver.FileSystem,
                                         run: Runner): (r: Conversion)
    ensures |r.calls| > 0 ==> Some(r.calls[0].bin) == ProcessInvoker.ChooseBin(None, env, platform, fs)
    ensures forall k :: 0 < k < |r.calls| ==> Some(r.calls[k].bin) == ProcessInvoker.ChooseBin(inkscape, env, platform, fs)
  {
    ConvertWith(svg, None, inkscape, env, platform, fs, run)
  }

  /**
   * A successful conversion sanitizes the input, exports text to path from
   * the sanitized copy, and sanitizes the merged copy, in that order; its
   * warnings are those of the merge.
   */
  lemma ConvertPassOrder(svg: seq<Node>, inkscape: Option<string>,
                         env: BinaryResolver.Env, platform: string, fs: BinaryResolver.FileSystem, run: Runner)
    requires ConvertSVGTextToPath(svg, inkscape, env, platform, fs, run).result.Success?
    ensures var r := ConvertSVGTextToPath(svg, inkscape, env, platform, fs, run);
      |r.calls| == 3 &&
      r.calls[0].args == SanitizeArgs && r.calls[0].input == svg &&
      run(r.calls[0].bin, SanitizeArgs, svg) == Success(r.calls[1].input) &&
      r.calls[1].args == ExportArgs &&
      run(r.calls[1].bin, ExportArgs, r.calls[1].input).Success? &&
      var merged := MergeSpec(r.calls[1].input, run(r.calls[1].bin, ExportArgs, r.calls[1].input).value);
      !merged.crashed && r.warnings == merged.warnings &&
      r.calls[2].args == SanitizeArgs && r.calls[2].input == merged.doc &&
      run(r.calls[2].bin, SanitizeArgs, merged.doc) == Success(r.result.value)
  {
  }

  /**
   * Texts that cannot be matched never make the conversion fail: when the
   * binary can be chosen, every pass succeeds and the sanitized copy has no
   * text at its top level, the conversion succeeds.
   */
  lemma WarningsAreNotFatal(svg: seq<Node>, inkscape: Option<string>,
                            env: BinaryResolver.Env, platform: string, fs: BinaryResolver.FileSystem, run: Runner)
    requires Target(inkscape, env, platform, fs).Success?
    requires forall args, doc :: run(Target(inkscape, env, platform, fs).value, args, doc).Success?
    requires NoTopLevelText(run(Target(inkscape, env, platform, fs).value, SanitizeArgs, svg).value)
    ensures ConvertSVGTextToPath(svg, inkscape, env, platform, fs, run).result.Success?
  {
    var b := Target(inkscape, env, platform, fs).value;
    var svgCopy := run(b, SanitizeArgs, svg).value;
    MergeCompletes(svgCopy, run(b, ExportArgs, svgCopy).value);
  }

  // ---------------------------------------------------------------------
  // The first sanitize pass as written

  /**
   * As written, the first pass runs the first Inkscape found on PATH even
   * when a binary was given explicitly; the other two passes run the given one.
   */
  lemma AsWrittenFirstPassIgnoresBinary(svg: seq<Node>, inkscape: Option<string>,
                                        env: BinaryResolver.Env, platform: string, fs: BinaryResolver.FileSystem,
                                        run: Runner)
    requires inkscape.Some?
    ensures var r := ConvertSVGTextToPathAsWritten(svg, inkscape, env, platform, fs, run);
      var found := BinaryResolver.FindInkscapeBinaries(env, platform, fs);
      (found == [] ==> r.result == Failure(LaunchRefused(ProcessInvoker.FileArgumentUndefined)) && r.calls == []) &&
      (found != [] ==>
        (|r.calls| > 0 && r.calls[0].bin == found[0] &&
         forall k :: 0 < k < |r.calls| ==> r.calls[k].bin == inkscape.value))
  {
    var found := BinaryResolver.FindInkscapeBinaries(env, platform, fs);
    if found != [] {
      BinaryResolver.FoundAreNonEmpty(env, platform, fs);
      assert found[0] in found;
      assert Target(None, env, platform, fs) == Success(found[0]);
    }
  }

  /** The identity pass: Inkscape hands back the document it was given. */
  function Echo(bin: string, args: seq<string>, doc: seq<Node>): Result<seq<Node>, string> {
    Success(doc)
  }

  /**
   * With an Inkscape on PATH other than the one given, the as-written first
   * pass spawns the one on PATH; the corrected conversion spawns the given one.
   */
  lemma AsWrittenSpawnsBinaryFromPath()
    ensures var env := BinaryResolver.Env(Some("/usr/bin"), None);
      var fs := map["/usr/bin/inkscape" := BinaryResolver.RegularFile];
      var given := Some("/opt/inkscape/bin/inkscape");
      |ConvertSVGTextToPathAsWritten([], given, env, "linux", fs, Echo).calls| > 0 &&
      ConvertSVGTextToPathAsWritten([], given, env, "linux", fs, Echo).calls[0].bin == "/usr/bin/inkscape" &&
      |ConvertSVGTextToPath([], given, env, "linux", fs, Echo).calls| > 0 &&
      ConvertSVGTextToPath([], given, env, "linux", fs, Echo).calls[0].bin == "/opt/inkscape/bin/inkscape"
  {
    BinaryResolver.FindsUsrBinInkscape();
  }

  /**
   * Without PATH, the as-written conversion fails before spawning anything
   * although a binary was given; the corrected one succeeds.
   */
  lemma AsWrittenFailsWithoutPath()
    ensures var env := BinaryResolver.Env(None, None);
      var given := Some("/opt/inkscape/bin/inkscape");
      ConvertSVGTextToPathAsWritten([], given, env, "linux", map[], Echo).result ==
        Failure(LaunchRefused(ProcessInvoker.FileArgumentUndefined)) &&
      ConvertSVGTextToPath([], given, env, "linux", map[], Echo).result == Success([])
  {
    var env := BinaryResolver.Env(None, None);
    assert BinaryResolver.FindInkscapeBinaries(env, "linux", map[]) == [];
    assert Snapshot([]) == [];
  }

  // ---------------------------------------------------------------------
  // A worked example

  function SvgName(local: string): Name {
    Name(Some(SvgNamespace), local)
  }

  /**
   * One text `t1` inside the root `svg`, matched by the path `t1` of the
   * converted tree: the text is replaced by a group of its transparent clone
   * and the path, and the path leaves the converted tree.
   */
  lemma MergeExample()
    ensures var text := Element(SvgName("text"), map["id" := "t1"], [CharData("Hi")]);
      var path := Element(SvgName("path"), map["id" := "t1", "d" := "M0 0"], []);
      var faded := Element(SvgName("text"), map["id" := "t1", "style" := "fill-opacity: 0;"], [CharData("Hi")]);
      MergeSpec([Element(SvgName("svg"), map[], [text])], [Element(SvgName("svg"), map[], [path])]) ==
      MergeState([Element(SvgName("svg"), map[], [Group(faded, path)])],
                 [Element(SvgName("svg"), map[], [])], [[0, 0]], [], false)
  {
    var text := Element(SvgName("text"), map["id" := "t1"], [CharData("Hi")]);
    var path := Element(SvgName("path"), map["id" := "t1", "d" := "M0 0"], []);
    var doc := [Element(SvgName("svg"), map[], [text])];
    var conv := [Element(SvgName("svg"), map[], [path])];
    assert SelectFrom([text], SvgTextElements, 1) == [];
    assert SelectFrom(text.children, SvgTextElements, 1) == [];
    assert SelectFrom(text.children, SvgTextElements, 0) == [];
    assert SelectFrom([text], SvgTextElements, 0) == [[0]];
    assert SelectFrom(doc, SvgTextElements, 1) == [];
    var under := Under(0, [[0]]);
    assert |under| == 1 && under[0] == [0] + [0] == [0, 0];
    assert under == [[0, 0]];
    assert Select(doc, SvgTextElements) == [[0, 0]];
    assert Snapshot(doc) == [Entry([0, 0], text)];
    assert SelectFrom([path], ElementsWithId("t1"), 1) == [];
    assert SelectFrom([path], ElementsWithId("t1"), 0) == [[0]];
    assert SelectFrom(conv, ElementsWithId("t1"), 1) == [];
    assert !Matches(conv[0], ElementsWithId("t1"));
    assert Select(conv, ElementsWithId("t1")) == [[0, 0]];
    var faded := Element(SvgName("text"), map["id" := "t1", "style" := "fill-opacity: 0;"], [CharData("Hi")]);
    assert WithFillOpacity0(text) == faded;
    var svg := SvgName("svg");
    assert [0, 0][1..] == [0];
    assert ReplaceAt([text], [0], faded) == [faded];
    var doc1 := ReplaceAt(doc, [0, 0], faded);
    assert doc1 == [Element(svg, map[], [faded])];
    assert NodeAt(conv, [0, 0]) == path;
    assert ReplaceAt([faded], [0], Group(faded, path)) == [Group(faded, path)];
    assert ReplaceAt(doc1, [0, 0], Group(faded, path)) == [Element(svg, map[], [Group(faded, path)])];
    assert [path][..0] + [path][1..] == [];
    assert RemoveAt(conv, [0, 0]) == [Element(svg, map[], [])];
    assert [Entry([0, 0], text)][..0] == [];
  }
}
