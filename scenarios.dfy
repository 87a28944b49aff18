/**
 Concrete runs of the cursor and of the editing operations on small buffers, as
 the driver program uses them: load and save, the walk of `find`, `add` before a
 found element and `erase` of it, and the two places where the cursor does not
 do what its names suggest.
 */
module Scenarios {
  import opened StdString
  import opened TagScan
  import opened XmlResources

  /** Saving right after loading writes back exactly the text loaded. */
  method LoadThenSave(text: string) returns (written: Option<string>)
    ensures written == Some(text)
  {
    var resource := new XmlResource();
    var loaded := resource.Load(Some(text));
    var saved;
    saved, written := resource.Save(true);
  }

  /** A failed load reports the error and keeps the text loaded before. */
  method FailedLoadKeepsText(text: string) returns (r: Outcome, kept: string)
    ensures r == Error("Error while loading XML") && kept == text
  {
    var resource := new XmlResource();
    var loaded := resource.Load(Some(text));
    r := resource.Load(None);
    kept := resource.data;
  }

  /** Over an empty buffer the cursor locates nothing and can move neither way. */
  method EmptyBuffer() returns (hasNext: bool, hasPrevious: bool, element: string)
    ensures !hasNext && !hasPrevious && element == []
  {
    var resource := new XmlResource();
    var it := new Iterator(resource);
    hasNext := it.HasNext();
    hasPrevious := it.HasPrevious();
    element := it.GetCurrentElement();
  }

  /** The forward step from 0 over `<a><b>`, then the backward step from where it lands. */
  lemma ForwardThenBack(d: string)
    requires d == "<a><b>"
    ensures NextState(d, 0) == Cursor(3, "<a>")
    ensures PrevState(d, 3) == Cursor(0, "<a><b>")
  {
    assert IndexOfChar(d, '<', 0) == Some(0);
    assert IndexOfChar(d, '>', 2) == Some(2);
    assert IndexOfChar(d, '>', 1) == Some(2);
    assert IndexOfChar(d, '>', 0) == Some(2);
    assert Span(d, 0, 2) == "<a>";
    assert ToSizeT(3 - 1) == 2;
    assert LastIndexOfChar(d, '<', 0) == Some(0);
    assert LastIndexOfChar(d, '<', 1) == Some(0);
    assert LastIndexOfChar(d, '<', 2) == Some(0);
    assert IndexOfChar(d, '>', 5) == Some(5);
    assert IndexOfChar(d, '>', 4) == Some(5);
    assert IndexOfChar(d, '>', 3) == Some(5);
    assert Span(d, 0, 5) == "<a><b>";
  }

  /**
   Backward steps from position 0, where both `pos - 1` and the count of the `substr`
   wrap: over `x>y<z` the count `1 - 3 + 1` becomes `npos` and the element is the
   whole tail `<z`, which ends in no `>`; over `><` the count is 0, so the step
   moves the position to 1 and yet clears the element.
   */
  lemma PrevFromStartWrapsCount(d: string, d2: string)
    requires d == "x>y<z" && d2 == "><"
    ensures PrevState(d, 0) == Cursor(3, "<z")
    ensures PrevState(d2, 0) == Cursor(1, [])
  {
    assert ToSizeT(0 - 1) == Npos;
    assert LastIndexOfChar(d, '<', 3) == Some(3);
    assert LastIndexOfChar(d, '<', 4) == Some(3);
    assert LastIndexOfChar(d, '<', Npos) == Some(3);
    assert IndexOfChar(d, '>', 1) == Some(1);
    assert IndexOfChar(d, '>', 0) == Some(1);
    assert ToSizeT(1 - 3 + 1) == Npos;
    assert Span(d, 3, 1) == d[3..] == "<z";
    assert LastIndexOfChar(d2, '<', 1) == Some(1);
    assert LastIndexOfChar(d2, '<', Npos) == Some(1);
    assert IndexOfChar(d2, '>', 0) == Some(0);
    assert ToSizeT(0 - 1 + 1) == 0;
  }

  /**
   A backward step right after the constructor's forward step does not give back
   the first span: it ends at the next `>`, and lands on the `<` it starts with.
   */
  method PreviousAfterNext() returns (first: string, back: string, pos: nat)
    ensures first == "<a>" && back == "<a><b>" && pos == 0
  {
    var resource := new XmlResource();
    var loaded := resource.Load(Some("<a><b>"));
    ForwardThenBack(resource.data);
    var it := new Iterator(resource);
    first := it.GetCurrentElement();
    it.Previous();
    back := it.GetCurrentElement();
    pos := it.pos;
  }

  /** `t` does not occur at `j` in `s` when the two differ at offset `k`. */
  lemma Mismatch(s: string, t: string, j: nat, k: nat)
    requires k < |t| && (j + |t| <= |s| ==> s[j + k] != t[k])
    ensures !OccursAt(s, t, j)
  {
    if j + |t| <= |s| {
      assert s[j..j + |t|][k] == s[j + k];
    }
  }

  /** An occurrence with none before it is the one `IndexOfSub` finds. */
  lemma FirstOccurrence(s: string, t: string, p: nat)
    requires OccursAt(s, t, p) && forall j :: 0 <= j < p ==> !OccursAt(s, t, j)
    ensures IndexOfSub(s, t) == Some(p)
  {
  }

  /** The walk of `find("li")` over `<list>x</list><li>y</li>` stops at its first cursor. */
  lemma LooseMatchWalk(d: string)
    requires d == "<list>x</list><li>y</li>"
    ensures FindLoopEnds(d, "<li", 0) && FirstStopFrom(d, "<li", 0) == 0
    ensures Walk(d, 0) == Cursor(6, "<list>")
  {
    assert IndexOfChar(d, '<', 0) == Some(0);
    assert IndexOfChar(d, '>', 5) == Some(5);
    assert IndexOfChar(d, '>', 4) == Some(5);
    assert IndexOfChar(d, '>', 3) == Some(5);
    assert IndexOfChar(d, '>', 2) == Some(5);
    assert IndexOfChar(d, '>', 1) == Some(5);
    assert IndexOfChar(d, '>', 0) == Some(5);
    assert Span(d, 0, 5) == "<list>";
    assert OccursAt("<list>", "<li", 0);
  }

  /**
   The name test is a plain substring test on `"<" + name`: looking for `li`
   stops at `<list>`, the first span that starts with `<li`.
   */
  method LooseNameMatch() returns (found: string)
    ensures found == "<list>"
  {
    var resource := new XmlResource();
    var loaded := resource.Load(Some("<list>x</list><li>y</li>"));
    LooseMatchWalk(resource.data);
    assert "<" + "li" == "<li";
    var it := resource.Find("li");
    found := it.GetCurrentElement();
  }

  /** The walk of `find("b")` over `<a><b>x</b>` passes `<a>` and stops at `<b>`. */
  lemma ElementWalk(d: string)
    requires d == "<a><b>x</b>"
    ensures FindLoopEnds(d, "<b", 0) && FirstStopFrom(d, "<b", 0) == 1
    ensures Walk(d, 1) == Cursor(6, "<b>")
  {
    assert IndexOfChar(d, '<', 0) == Some(0);
    assert IndexOfChar(d, '>', 2) == Some(2);
    assert IndexOfChar(d, '>', 1) == Some(2);
    assert IndexOfChar(d, '>', 0) == Some(2);
    assert Span(d, 0, 2) == "<a>";
    assert Walk(d, 0) == Cursor(3, "<a>");
    assert IndexOfChar(d, '<', 3) == Some(3);
    assert IndexOfChar(d, '>', 5) == Some(5);
    assert IndexOfChar(d, '>', 4) == Some(5);
    assert IndexOfChar(d, '>', 3) == Some(5);
    assert Span(d, 3, 5) == "<b>";
    Mismatch("<a>", "<b", 0, 1);
    Mismatch("<a>", "<b", 1, 0);
    assert !FindStops(d, "<b", 0);
    assert OccursAt("<b>", "<b", 0);
  }

  lemma ElementIndexBefore(d: string, t: string)
    requires d == "<a><b>x</b>" && t == "<b>"
    ensures IndexOfSub(d, t) == Some(3)
  {
    assert d[3..6] == t;
    Mismatch(d, t, 0, 1);
    Mismatch(d, t, 1, 0);
    Mismatch(d, t, 2, 0);
    FirstOccurrence(d, t, 3);
  }

  lemma AddedText(d: string)
    requires d == "<a><b>x</b>"
    ensures InsertAt(d, 3, "<c>") == "<a><c><b>x</b>"
  {
    assert d[..3] == "<a>" && d[3..] == "<b>x</b>";
  }

  lemma ElementIndexAfter(e: string, t: string)
    requires e == "<a><c><b>x</b>" && t == "<b>"
    ensures IndexOfSub(e, t) == Some(6)
  {
    assert e[6..9] == t;
    Mismatch(e, t, 0, 1);
    Mismatch(e, t, 1, 0);
    Mismatch(e, t, 2, 0);
    Mismatch(e, t, 3, 1);
    Mismatch(e, t, 4, 0);
    Mismatch(e, t, 5, 0);
    FirstOccurrence(e, t, 6);
  }

  lemma ErasedText(e: string)
    requires e == "<a><c><b>x</b>"
    ensures RemoveAt(e, 6, 3) == "<a><c>x</b>"
  {
    assert e[..6] == "<a><c>" && e[9..] == "x</b>";
  }

  /**
   What the driver does with a found element: `find("b")`, then `add` before it,
   then `erase` through the same iterator, which removes only the span text `<b>`
   and leaves its content and closing tag in place.
   */
  method InsertThenErase() returns (found: string, added: string, erased: string)
    ensures found == "<b>"
    ensures added == "<a><c><b>x</b>"
    ensures erased == "<a><c>x</b>"
  {
    var resource := new XmlResource();
    var loaded := resource.Load(Some("<a><b>x</b>"));
    ElementWalk(resource.data);
    assert "<" + "b" == "<b";
    var it := resource.Find("b");
    found := it.GetCurrentElement();
    ElementIndexBefore(resource.data, found);
    AddedText(resource.data);
    var ok := resource.Add("<c>", it);
    added := resource.data;
    ElementIndexAfter(added, found);
    ErasedText(added);
    ok := resource.Erase(it);
    erased := resource.data;
  }

  /**
   `find("b")` over `<a>` followed by a line break never ends: the second step finds
   no `<`, clears the element and keeps the position 3, one short of the end, so
   `hasNext()` stays true and the loop repeats the same failed step forever.
   */
  lemma FindLoopsOnTrailingText(d: string)
    requires d == "<a>\n"
    ensures forall n :: !FindStops(d, "<b", n)
    ensures !FindLoopEnds(d, "<b", 0)
  {
    assert IndexOfChar(d, '<', 0) == Some(0);
    assert IndexOfChar(d, '>', 2) == Some(2);
    assert IndexOfChar(d, '>', 1) == Some(2);
    assert IndexOfChar(d, '>', 0) == Some(2);
    assert Span(d, 0, 2) == "<a>";
    assert Walk(d, 0) == Cursor(3, "<a>");
    assert IndexOfChar(d, '<', 4) == None;
    assert IndexOfChar(d, '<', 3) == None;
    assert Walk(d, 1) == Cursor(3, []);
    Mismatch("<a>", "<b", 0, 1);
    Mismatch("<a>", "<b", 1, 0);
    assert !FindStops(d, "<b", 0);
    FindNeverStops(d, "<b", 1);
    FindLoopEndsIffStops(d, "<b", 0);
  }

  /** The corrected search over the same text ends, at the cleared element. */
  lemma CorrectedFindEnds(d: string)
    requires d == "<a>\n"
    ensures FirstSearchStopFrom(d, "<b", 0) == 1 && Walk(d, 1) == Cursor(3, [])
  {
    assert IndexOfChar(d, '<', 0) == Some(0);
    assert IndexOfChar(d, '>', 2) == Some(2);
    assert IndexOfChar(d, '>', 1) == Some(2);
    assert IndexOfChar(d, '>', 0) == Some(2);
    assert Span(d, 0, 2) == "<a>";
    assert Walk(d, 0) == Cursor(3, "<a>");
    assert IndexOfChar(d, '<', 4) == None;
    assert IndexOfChar(d, '<', 3) == None;
    Mismatch("<a>", "<b", 0, 1);
    Mismatch("<a>", "<b", 1, 0);
    assert !SearchStops(d, "<b", 0);
  }

  /**
   The corrected `find` returns on that text, with the cleared element and the
   position one short of the end.
   */
  method CorrectedFindOnTrailingText() returns (found: string, pos: nat)
    ensures found == [] && pos == 3
  {
    var resource := new XmlResource();
    var loaded := resource.Load(Some("<a>\n"));
    CorrectedFindEnds(resource.data);
    assert "<" + "b" == "<b";
    var it := resource.FindFirstOrUnlocated("b");
    found := it.GetCurrentElement();
    pos := it.pos;
  }
}
