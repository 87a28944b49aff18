/**
 What the tag cursor of `XMLResource::Iterator` computes, as pure functions of the
 buffer text: one forward step (`findNextElement`), one backward step
 (`findPreviousElement`), and the sequence of cursors that `XMLResource::find`
 walks through. The iterator class in module XmlResources is proved against
 these functions; the lemmas here say what the steps mean.
 */
module TagScan {
  import opened StdString

  /** The observable state of a cursor: its scan position and its current element. */
  datatype Cursor = Cursor(pos: nat, elem: string)

  /** `substr(start, end - start + 1)`, with the count computed in `size_t`. */
  function Span(data: string, start: nat, end: nat): (span: string)
    requires start <= |data|
  {
    Substr(data, start, ToSizeT(end - start + 1))
  }

  /**
   `findNextElement` from position `pos`: the first `<` at or after `pos`, then the
   first `>` at or after that `<` (a failed first search hands `npos` to the second).
   On success the element is the span between them and the position moves past
   the `>`; otherwise the element is cleared and the position stays.
   */
  function NextState(data: string, pos: nat): (r: Cursor)
    ensures pos <= r.pos
  {
    var start := IndexOfChar(data, '<', pos);
    var end := IndexOfChar(data, '>', OrNpos(start));
    if start.Some? && end.Some? then Cursor(end.value + 1, Span(data, start.value, end.value))
    else Cursor(pos, [])
  }

  /**
   `findPreviousElement` from position `pos`: the last `<` at or before `pos - 1`
   (computed in `size_t`, so `pos == 0` searches the whole buffer), and the first
   `>` at or after `pos` itself. On success the element is the span between them and
   the position moves to the `<`; otherwise the element is cleared and the position
   stays.
   */
  function PrevState(data: string, pos: nat): (r: Cursor)
    ensures r.pos == pos || r.pos < |data|
  {
    var start := LastIndexOfChar(data, '<', ToSizeT(pos - 1));
    var end := IndexOfChar(data, '>', pos);
    if start.Some? && end.Some? then Cursor(start.value, Span(data, start.value, end.value))
    else Cursor(pos, [])
  }

  /** Some `<` at or after `from` is followed, later on, by a `>`. */
  ghost predicate HasSpanFrom(data: string, from: nat)
  {
    exists s, e :: from <= s < e < |data| && data[s] == '<' && data[e] == '>'
  }

  /** A tag-like span: starts with `<`, ends with `>`, and holds no `>` before its end. */
  ghost predicate IsTag(t: string)
  {
    |t| >= 2 && t[0] == '<' && t[|t| - 1] == '>' && forall k :: 0 <= k < |t| - 1 ==> t[k] != '>'
  }

  /**
   A forward step succeeds exactly when a `<` at or after `pos` has a `>` after it.
   It then yields the span from the first such `<` to the first `>` after it, which
   is a tag, and moves the position past it, strictly forward and at most to the end
   of the buffer. A failed step leaves the position where it was.
   */
  lemma NextFindsFirstSpan(data: string, pos: nat)
    requires |data| < Npos
    ensures var r := NextState(data, pos);
      && (r.elem != [] <==> HasSpanFrom(data, pos))
      && (r.elem == [] ==> r.pos == pos)
      && (r.elem != [] ==>
            && pos < r.pos <= |data|
            && FirstFrom(data, '<', pos, r.pos - |r.elem|)
            && FirstFrom(data, '>', r.pos - |r.elem|, r.pos - 1)
            && r.elem == data[r.pos - |r.elem|..r.pos]
            && IsTag(r.elem))
  {
    var start := IndexOfChar(data, '<', pos);
    var end := IndexOfChar(data, '>', OrNpos(start));
    if start.Some? && end.Some? {
      var s, e := start.value, end.value;
      assert s < e by { assert data[s] != data[e]; }
      assert ToSizeT(e - s + 1) == e - s + 1;
      assert NextState(data, pos).elem == data[s..e + 1];
    } else if start.Some? {
      assert !HasSpanFrom(data, pos);
    }
  }

  /**
   A backward step from `pos > 0` succeeds exactly when there is a `<` before `pos`
   and a `>` at or after `pos`. It then moves the position back to the last `<`
   before `pos` and yields the text from there to the first `>` at or after `pos`:
   the `>` search starts at `pos`, not at the `<` just found. A failed step leaves
   the position where it was.
   */
  lemma PrevFindsEnclosingSpan(data: string, pos: nat)
    requires 0 < pos < SizeTModulus && |data| < Npos
    ensures var r := PrevState(data, pos);
      && (r.elem != [] <==>
            (exists s :: 0 <= s < pos && s < |data| && data[s] == '<') &&
            (exists e :: pos <= e < |data| && data[e] == '>'))
      && (r.elem == [] ==> r.pos == pos)
      && (r.elem != [] ==>
            && r.pos < pos
            && LastUpTo(data, '<', pos - 1, r.pos)
            && FirstFrom(data, '>', pos, r.pos + |r.elem| - 1)
            && r.elem == data[r.pos..r.pos + |r.elem|]
            && r.elem[0] == '<' && r.elem[|r.elem| - 1] == '>')
  {
    PrevSpanShape(data, pos);
    var r := PrevState(data, pos);
    if r.elem != [] {
      assert data[r.pos] == '<' && data[r.pos + |r.elem| - 1] == '>';
    } else {
      PrevFailsWithoutSpan(data, pos);
    }
  }

  /** The shape of the result of a backward step from `pos > 0`. */
  lemma PrevSpanShape(data: string, pos: nat)
    requires 0 < pos < SizeTModulus && |data| < Npos
    ensures var r := PrevState(data, pos);
      && (r.elem == [] ==> r.pos == pos)
      && (r.elem != [] ==>
            && r.pos < pos
            && LastUpTo(data, '<', pos - 1, r.pos)
            && FirstFrom(data, '>', pos, r.pos + |r.elem| - 1)
            && r.elem == data[r.pos..r.pos + |r.elem|])
  {
    assert ToSizeT(pos - 1) == pos - 1;
    var start := LastIndexOfChar(data, '<', pos - 1);
    var end := IndexOfChar(data, '>', pos);
    if start.Some? && end.Some? {
      var s, e := start.value, end.value;
      assert ToSizeT(e - s + 1) == e - s + 1;
      assert PrevState(data, pos).elem == data[s..e + 1];
    }
  }

  /** A backward step from `pos > 0` that fails has no `<` before `pos` or no `>` after. */
  lemma PrevFailsWithoutSpan(data: string, pos: nat)
    requires 0 < pos < SizeTModulus && |data| < Npos
    requires PrevState(data, pos).elem == []
    ensures (forall s :: 0 <= s < pos && s < |data| ==> data[s] != '<') ||
            (forall e :: pos <= e < |data| ==> data[e] != '>')
  {
    assert ToSizeT(pos - 1) == pos - 1;
    var start := LastIndexOfChar(data, '<', pos - 1);
    var end := IndexOfChar(data, '>', pos);
    if start.Some? && end.Some? {
      assert false;
    }
  }

  /**
   A backward step from just past a `>` never yields a tag: the `>` search starts
   past that `>`, so any text found holds it before its own end.
   */
  lemma PrevPastCloseIsNoTag(data: string, e: nat)
    requires e < |data| < Npos && data[e] == '>'
    ensures var p := PrevState(data, e + 1); p.elem == [] || !IsTag(p.elem)
  {
    assert ToSizeT(e + 1 - 1) == e;
    var start := LastIndexOfChar(data, '<', e);
    var end := IndexOfChar(data, '>', e + 1);
    if start.Some? && end.Some? {
      var s, last := start.value, end.value;
      assert ToSizeT(last - s + 1) == last - s + 1;
      var p := data[s..last + 1];
      assert PrevState(data, e + 1).elem == p;
      assert p[e - s] == '>';
    }
  }

  /**
   A backward step taken right after a successful forward step never gives back
   the span the forward step found.
   */
  lemma PrevAfterNextDiffers(data: string, pos: nat)
    requires |data| < Npos
    ensures var n := NextState(data, pos);
      n.elem != [] ==> PrevState(data, n.pos).elem != n.elem
  {
    var n := NextState(data, pos);
    if n.elem != [] {
      assert 0 < n.pos <= |data| && data[n.pos - 1] == '>' && IsTag(n.elem) by {
        NextFindsFirstSpan(data, pos);
      }
      PrevPastCloseIsNoTag(data, n.pos - 1);
    }
  }

  /** A backward step from the end of the buffer (or beyond) always fails. */
  lemma PrevAtEndFails(data: string, pos: nat)
    requires |data| <= pos
    ensures PrevState(data, pos) == Cursor(pos, [])
  {
  }

  /**
   A backward step from position 0 wraps `pos - 1` around to `npos`: it takes the
   last `<` of the whole buffer and the first `>` of the whole buffer, and the
   element is `Span` between them, whose count wraps as well when that `>` comes
   before that `<`.
   */
  lemma PrevAtStartWraps(data: string)
    requires |data| < Npos
    ensures var r := PrevState(data, 0);
      r.pos != 0 || r.elem != [] ==>
        && LastUpTo(data, '<', |data|, r.pos)
        && exists e :: FirstFrom(data, '>', 0, e) && r.elem == Span(data, r.pos, e)
  {
    assert ToSizeT(0 - 1) == Npos;
    var end := IndexOfChar(data, '>', 0);
    if end.Some? {
      assert FirstFrom(data, '>', 0, end.value);
    }
  }

  /**
   The cursors `find` walks through: the one its constructor produces from
   position 0, then one forward step after another.
   */
  function Walk(data: string, k: nat): (c: Cursor)
    ensures c.pos <= |data|
  {
    if k == 0 then NextState(data, 0) else NextState(data, Walk(data, k - 1).pos)
  }

  /**
   `find`'s loop leaves at the `k`-th cursor of the walk: either `hasNext()` is false
   there, or its element contains the pattern.
   */
  ghost predicate FindStops(data: string, pattern: string, k: nat)
  {
    Walk(data, k).pos >= |data| || Contains(Walk(data, k).elem, pattern)
  }

  /**
   `find`'s loop ends when started at the `k`-th cursor of the walk: it stops there,
   or the next forward step moves the position on and the loop ends from there.
   */
  ghost predicate FindLoopEnds(data: string, pattern: string, k: nat)
    decreases |data| - Walk(data, k).pos
  {
    FindStops(data, pattern, k) ||
    (Walk(data, k).pos < Walk(data, k + 1).pos && FindLoopEnds(data, pattern, k + 1))
  }

  /**
   The index of the cursor at which `find`'s loop, started at the `k`-th cursor of
   the walk, leaves: the first one at or after `k` that stops it.
   */
  ghost function FirstStopFrom(data: string, pattern: string, k: nat): (n: nat)
    requires FindLoopEnds(data, pattern, k)
    ensures k <= n && FindStops(data, pattern, n)
    ensures forall j :: k <= j < n ==> !FindStops(data, pattern, j)
    decreases |data| - Walk(data, k).pos
  {
    if FindStops(data, pattern, k) then k
    else
      assert Walk(data, k).pos < Walk(data, k + 1).pos && FindLoopEnds(data, pattern, k + 1);
      var n := FirstStopFrom(data, pattern, k + 1);
      NoStopExtends(data, pattern, k, n);
      n
  }

  /** A cursor that does not stop the loop, followed by a run of such cursors. */
  lemma NoStopExtends(data: string, pattern: string, k: nat, n: nat)
    requires !FindStops(data, pattern, k)
    requires forall j :: k + 1 <= j < n ==> !FindStops(data, pattern, j)
    ensures forall j :: k <= j < n ==> !FindStops(data, pattern, j)
  {
  }

  /** Once a step of the walk fails, every later cursor of the walk is the same one. */
  lemma {:induction false} WalkStaysAfterFailure(data: string, k: nat, m: nat)
    requires |data| < Npos
    requires Walk(data, k).elem == [] && k <= m
    ensures Walk(data, m) == Walk(data, k)
    decreases m - k
  {
    if m > k {
      var before := if k == 0 then 0 else Walk(data, k - 1).pos;
      assert Walk(data, k) == NextState(data, before);
      assert Walk(data, k).pos == before by {
        NextFindsFirstSpan(data, before);
      }
      assert Walk(data, k + 1) == NextState(data, before) == Walk(data, k);
      WalkStaysAfterFailure(data, k + 1, m);
      assert Walk(data, m) == Walk(data, k + 1);
    }
  }

  /**
   `find`'s loop never ends when a step of the walk fails before the end of the
   buffer and no earlier cursor matched: the failed step leaves the position, so
   `hasNext()` stays true and the cleared element never matches.
   */
  lemma FindNeverStops(data: string, pattern: string, k: nat)
    requires |data| < Npos && pattern != []
    requires Walk(data, k).elem == [] && Walk(data, k).pos < |data|
    requires forall j :: 0 <= j < k ==> !FindStops(data, pattern, j)
    ensures forall n :: !FindStops(data, pattern, n)
  {
    assert !Contains([], pattern);
    forall n | k <= n ensures !FindStops(data, pattern, n) {
      WalkStaysAfterFailure(data, k, n);
    }
  }

  /**
   The corrected loop of `find` leaves at the `k`-th cursor when the original loop
   does, or when its element is empty (a failed step: nothing more to find).
   */
  ghost predicate SearchStops(data: string, pattern: string, k: nat)
  {
    FindStops(data, pattern, k) || Walk(data, k).elem == []
  }

  /**
   The index of the cursor at which the corrected loop, started at the `k`-th cursor
   of the walk, leaves. It always exists: while the loop goes on, each forward step
   either moves the position on or clears the element.
   */
  ghost function FirstSearchStopFrom(data: string, pattern: string, k: nat): (n: nat)
    ensures k <= n && SearchStops(data, pattern, n)
    ensures forall j :: k <= j < n ==> !SearchStops(data, pattern, j)
    decreases |data| - Walk(data, k).pos + (if Walk(data, k).elem == [] then 0 else 1)
  {
    if SearchStops(data, pattern, k) then k
    else
      var n := FirstSearchStopFrom(data, pattern, k + 1);
      NoSearchStopExtends(data, pattern, k, n);
      n
  }

  /** A cursor that does not stop the corrected loop, followed by a run of such cursors. */
  lemma NoSearchStopExtends(data: string, pattern: string, k: nat, n: nat)
    requires !SearchStops(data, pattern, k)
    requires forall j :: k + 1 <= j < n ==> !SearchStops(data, pattern, j)
    ensures forall j :: k <= j < n ==> !SearchStops(data, pattern, j)
  {
  }

  /**
   The corrected loop changes nothing where `find`'s loop ends: it leaves at the same
   cursor. And it leaves at a cleared element short of the end of the buffer exactly
   when `find`'s loop would never end.
   */
  lemma {:induction false} CorrectionAgrees(data: string, pattern: string, k: nat)
    requires |data| < Npos && pattern != []
    ensures FindLoopEnds(data, pattern, k) ==>
      FirstSearchStopFrom(data, pattern, k) == FirstStopFrom(data, pattern, k)
    ensures var c := Walk(data, FirstSearchStopFrom(data, pattern, k));
      FindLoopEnds(data, pattern, k) <==> !(c.pos < |data| && c.elem == [])
    decreases |data| - Walk(data, k).pos
  {
    assert !Contains([], pattern);
    if FindStops(data, pattern, k) {
    } else if Walk(data, k).elem == [] {
      WalkStaysAfterFailure(data, k, k + 1);
    } else {
      var next := Walk(data, k + 1);
      assert next == NextState(data, Walk(data, k).pos);
      NextFindsFirstSpan(data, Walk(data, k).pos);
      if next.elem == [] {
        assert FirstSearchStopFrom(data, pattern, k) == k + 1;
      } else {
        CorrectionAgrees(data, pattern, k + 1);
      }
    }
  }

  /**
   `FindLoopEnds` says exactly that some later cursor of the walk stops `find`'s
   loop: a step that does not move the position has failed, and the walk never
   moves again after it.
   */
  lemma {:induction false} FindLoopEndsIffStops(data: string, pattern: string, k: nat)
    requires |data| < Npos && pattern != []
    ensures FindLoopEnds(data, pattern, k) <==> exists n: nat :: k <= n && FindStops(data, pattern, n)
  {
    if FindLoopEnds(data, pattern, k) {
      EndsThenStops(data, pattern, k);
    }
    if n: nat :| k <= n && FindStops(data, pattern, n) {
      StopsThenEnds(data, pattern, k, n);
    }
  }

  lemma {:induction false} EndsThenStops(data: string, pattern: string, k: nat)
    requires FindLoopEnds(data, pattern, k)
    ensures exists n: nat :: k <= n && FindStops(data, pattern, n)
    decreases |data| - Walk(data, k).pos
  {
    if !FindStops(data, pattern, k) {
      EndsThenStops(data, pattern, k + 1);
    }
  }

  lemma {:induction false} StopsThenEnds(data: string, pattern: string, k: nat, n: nat)
    requires |data| < Npos && pattern != []
    requires k <= n && FindStops(data, pattern, n)
    ensures FindLoopEnds(data, pattern, k)
    decreases n - k
  {
    if !FindStops(data, pattern, k) {
      assert k < n;
      NextFindsFirstSpan(data, Walk(data, k).pos);
      if Walk(data, k + 1).pos <= Walk(data, k).pos {
        assert Walk(data, k + 1).elem == [];
        WalkStaysAfterFailure(data, k + 1, n);
        assert false;
      }
      StopsThenEnds(data, pattern, k + 1, n);
    }
  }
}
