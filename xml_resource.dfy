/**
 `XMLResource`, a buffer of XML text edited in place, and its `Iterator`, a cursor
 over the `<...>` spans of that buffer. The iterator does not own the buffer: it
 holds a reference to it, and reads whatever text the buffer holds when it moves.
 Both steps of the iterator and the walk of `find` are proved against the pure
 functions of module TagScan.
 */
module XmlResources {
  import opened StdString
  import opened TagScan

  /** The outcome of a load or save: done, or the message of the exception thrown. */
  datatype Outcome = Done | Error(message: string)

  class XmlResource {
    /** The whole XML text; no other structure is kept beside it. */
    var data: string

    /** A resource starts out with an empty buffer. */
    constructor ()
      ensures data == []
    {
      data := [];
    }

    /**
     Replaces the buffer with the contents of a file. `file` is what opening and
     reading the file gives: `None` when it cannot be opened, in which case the
     exception is reported and the buffer keeps its text.
     */
    method Load(file: Option<string>) returns (r: Outcome)
      modifies this`data
      ensures file.Some? ==> r == Done && data == file.value
      ensures file.None? ==> r == Error("Error while loading XML") && data == old(data)
    {
      if file.Some? {
        data := file.value;
        r := Done;
      } else {
        r := Error("Error while loading XML");
      }
    }

    /**
     Writes the whole buffer to a file. The flag says whether the file could be
     opened for writing (`canOpen`); `written` is what ends up in it.
     */
    method Save(canOpen: bool) returns (r: Outcome, written: Option<string>)
      ensures canOpen ==> r == Done && written == Some(data)
      ensures !canOpen ==> r == Error("Error while saving XML") && written == None
    {
      if canOpen {
        written := Some(data);
        r := Done;
      } else {
        written := None;
        r := Error("Error while saving XML");
      }
    }

    /**
     A fresh iterator over this buffer, advanced with `next()` while `hasNext()`
     holds, until its element contains `"<" + name`. The loop only ends at such an
     element or at the end of the buffer: a step that fails before the end leaves
     the position where it was, and the loop then goes on forever. The precondition
     says that the loop ends (see `FindLoopEndsIffStops`). When the iterator
     returned has `hasNext()` true its element holds the first match; when it is
     false the element is whatever the last step produced, matching or not.
     */
    method Find(name: string) returns (it: Iterator)
      requires FindLoopEnds(data, "<" + name, 0)
      ensures fresh(it) && it.resource == this
      ensures it.State() == Walk(data, FirstStopFrom(data, "<" + name, 0))
      ensures it.pos < |data| ==> Contains(it.elem, "<" + name)
    {
      var pattern, text := "<" + name, data;
      ghost var n := FirstStopFrom(text, pattern, 0);
      it := new Iterator(this);
      ghost var i: nat := 0;
      var more := it.HasNext();
      var e := it.GetCurrentElement();
      while more && IndexOfSub(e, pattern).None?
        invariant it.resource == this && fresh(it) && data == text
        invariant it.State() == Walk(text, i)
        invariant more <==> it.pos < |text|
        invariant e == it.elem
        invariant i <= n && FindLoopEnds(text, pattern, i) && FirstStopFrom(text, pattern, i) == n
        decreases n - i
      {
        assert !FindStops(text, pattern, i);
        it.Next();
        i := i + 1;
        more := it.HasNext();
        e := it.GetCurrentElement();
      }
    }

    /**
     Corrected `find`: the loop also ends when a step clears the element. It always
     ends (see `FirstSearchStopFrom`). Wherever `find` returns, it returns the same
     iterator; it returns a cleared element short of the end of the buffer exactly
     where `find` would loop forever.
     */
    method FindFirstOrUnlocated(name: string) returns (it: Iterator)
      ensures fresh(it) && it.resource == this
      ensures it.State() == Walk(data, FirstSearchStopFrom(data, "<" + name, 0))
      ensures it.pos < |data| ==> it.elem == [] || Contains(it.elem, "<" + name)
      ensures |data| < Npos && FindLoopEnds(data, "<" + name, 0) ==>
        it.State() == Walk(data, FirstStopFrom(data, "<" + name, 0))
      ensures |data| < Npos ==>
        (FindLoopEnds(data, "<" + name, 0) <==> !(it.pos < |data| && it.elem == []))
    {
      var pattern, text := "<" + name, data;
      ghost var n := FirstSearchStopFrom(text, pattern, 0);
      it := new Iterator(this);
      ghost var i: nat := 0;
      var more := it.HasNext();
      var e := it.GetCurrentElement();
      while more && e != [] && IndexOfSub(e, pattern).None?
        invariant it.resource == this && fresh(it) && data == text
        invariant it.State() == Walk(text, i)
        invariant more <==> it.pos < |text|
        invariant e == it.elem
        invariant i <= n && FirstSearchStopFrom(text, pattern, i) == n
        decreases n - i
      {
        assert !SearchStops(text, pattern, i);
        it.Next();
        i := i + 1;
        more := it.HasNext();
        e := it.GetCurrentElement();
      }
      if |text| < Npos {
        CorrectionAgrees(text, pattern, 0);
      }
    }

    /**
     Inserts `element` just before the first occurrence in the buffer of the
     iterator's current element, found by text search rather than by the iterator's
     position. An empty current element occurs at index 0, so it inserts at the
     front. The iterator, passed by value, is left as it was.
     */
    method Add(element: string, position: Iterator) returns (ok: bool)
      modifies this`data
      ensures ok <==> IndexOfSub(old(data), position.elem).Some?
      ensures ok ==> var p := IndexOfSub(old(data), position.elem).value;
        && data == InsertAt(old(data), p, element)
        && |data| == |old(data)| + |element|
        && OccursAt(data, position.elem, p + |element|)
      ensures !ok ==> data == old(data)
      ensures position.elem == [] ==> ok && data == element + old(data)
      ensures position.pos == old(position.pos) && position.elem == old(position.elem)
    {
      var anchor := position.GetCurrentElement();
      EmptyFoundAtStart(data);
      var p := IndexOfSub(data, anchor);
      if p.Some? {
        data := InsertAt(data, p.value, element);
        ok := true;
      } else {
        ok := false;
      }
    }

    /**
     Removes the first occurrence in the buffer of the iterator's current element.
     Putting the element back at the same index gives the old buffer again. An
     empty current element "occurs" at index 0 and removing it changes nothing.
     The iterator, passed by value, is left as it was.
     */
    method Erase(position: Iterator) returns (ok: bool)
      modifies this`data
      ensures ok <==> IndexOfSub(old(data), position.elem).Some?
      ensures ok ==> var p := IndexOfSub(old(data), position.elem).value;
        && old(data)[p..p + |position.elem|] == position.elem
        && data == RemoveAt(old(data), p, |position.elem|)
        && |data| == |old(data)| - |position.elem|
        && old(data) == InsertAt(data, p, position.elem)
      ensures !ok ==> data == old(data)
      ensures position.elem == [] ==> ok && data == old(data)
      ensures position.pos == old(position.pos) && position.elem == old(position.elem)
    {
      var anchor := position.GetCurrentElement();
      EmptyFoundAtStart(data);
      var p := IndexOfSub(data, anchor);
      if p.Some? {
        ghost var before := data;
        data := RemoveAt(data, p.value, |anchor|);
        InsertRemoveRoundTrip(before, p.value, anchor);
        ok := true;
      } else {
        ok := false;
      }
    }
  }

  class Iterator {
    /** The buffer this iterator reads; it is borrowed, not owned. */
    const resource: XmlResource
    /** Where the next forward scan starts. */
    var pos: nat
    /** The last span located, or empty when the last scan found none. */
    var elem: string

    function State(): (c: Cursor)
      reads this
    {
      Cursor(pos, elem)
    }

    /** Starts at position 0 and immediately locates the first span. */
    constructor (resource: XmlResource)
      ensures this.resource == resource
      ensures State() == NextState(resource.data, 0)
    {
      this.resource := resource;
      pos := 0;
      elem := [];
      new;
      FindNextElement();
    }

    /** There is buffer left to scan; says nothing about whether a span is there. */
    method HasNext() returns (b: bool)
      ensures b <==> pos < |resource.data|
    {
      b := pos < |resource.data|;
    }

    method HasPrevious() returns (b: bool)
      ensures b <==> pos > 0
    {
      b := pos > 0;
    }

    method Next()
      modifies this
      ensures State() == NextState(resource.data, old(pos))
      ensures |resource.data| < Npos ==>
        if elem == [] then pos == old(pos)
        else old(pos) < pos <= |resource.data| && IsTag(elem)
    {
      FindNextElement();
    }

    method Previous()
      modifies this
      ensures State() == PrevState(resource.data, old(pos))
      ensures 0 < old(pos) < SizeTModulus && |resource.data| < Npos ==>
        if elem == [] then pos == old(pos) else pos < old(pos)
    {
      FindPreviousElement();
    }

    method GetCurrentElement() returns (e: string)
      ensures e == elem
    {
      e := elem;
    }

    method FindNextElement()
      modifies this
      ensures State() == NextState(resource.data, old(pos))
      ensures |resource.data| < Npos ==>
        if elem == [] then pos == old(pos)
        else old(pos) < pos <= |resource.data| && IsTag(elem)
    {
      var data := resource.data;
      var start := IndexOfChar(data, '<', pos);
      var end := IndexOfChar(data, '>', OrNpos(start));
      if start.Some? && end.Some? {
        elem := Substr(data, start.value, ToSizeT(end.value - start.value + 1));
        pos := end.value + 1;
      } else {
        elem := [];
      }
      if |data| < Npos {
        NextFindsFirstSpan(data, old(pos));
      }
    }

    method FindPreviousElement()
      modifies this
      ensures State() == PrevState(resource.data, old(pos))
      ensures 0 < old(pos) < SizeTModulus && |resource.data| < Npos ==>
        if elem == [] then pos == old(pos) else pos < old(pos)
    {
      var data := resource.data;
      var start := LastIndexOfChar(data, '<', ToSizeT(pos - 1));
      var end := IndexOfChar(data, '>', pos);
      if start.Some? && end.Some? {
        elem := Substr(data, start.value, ToSizeT(end.value - start.value + 1));
        pos := start.value;
      } else {
        elem := [];
      }
      if 0 < old(pos) < SizeTModulus && |data| < Npos {
        PrevFindsEnclosingSpan(data, old(pos));
      }
    }
  }
}
