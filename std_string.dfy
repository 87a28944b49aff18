/**
 The few `std::string` operations the XML cursor is built on, as pure functions over
 `seq<char>`: character search forwards (`find(char, pos)`) and backwards
 (`rfind(char, pos)`), substring search (`find(str)`), `substr`, `insert` and `erase`.
 A search that fails returns `None` where the library returns `npos`; `size_t`
 arithmetic, which the cursor relies on in two places, is written out with `ToSizeT`.
 */
module StdString {

  datatype Option<T> = None | Some(value: T)

  /** Number of values of a 64-bit `size_t`. */
  const SizeTModulus: nat := 0x1_0000_0000_0000_0000

  /** `std::string::npos`, the largest `size_t`. Every string is shorter than this. */
  const Npos: nat := SizeTModulus - 1

  /** An integer computed in `size_t` arithmetic: wraps around modulo 2^64. */
  function ToSizeT(x: int): (r: nat)
    ensures r < SizeTModulus
    ensures 0 <= x < SizeTModulus ==> r == x
    ensures x < 0 && 0 <= x + SizeTModulus ==> r == x + SizeTModulus
  {
    x % SizeTModulus
  }

  /** The `size_t` a search returns: the index found, or `npos`. */
  function OrNpos(r: Option<nat>): (n: nat)
  {
    if r.Some? then r.value else Npos
  }

  /** `i` is the first index at or after `from` holding `c`. */
  ghost predicate FirstFrom(s: string, c: char, from: nat, i: nat)
  {
    from <= i < |s| && s[i] == c && forall k :: from <= k < i ==> s[k] != c
  }

  /** `i` is the last index at or before `upTo` holding `c`. */
  ghost predicate LastUpTo(s: string, c: char, upTo: nat, i: nat)
  {
    i <= upTo && i < |s| && s[i] == c && forall k :: i < k <= upTo && k < |s| ==> s[k] != c
  }

  /** `s.find(c, from)`: the first index at or after `from` holding `c`. */
  function IndexOfChar(s: string, c: char, from: nat): (r: Option<nat>)
    ensures r.Some? ==> FirstFrom(s, c, from, r.value)
    ensures r.None? ==> forall j :: from <= j < |s| ==> s[j] != c
    decreases |s| - from
  {
    if from >= |s| then None
    else if s[from] == c then Some(from)
    else IndexOfChar(s, c, from + 1)
  }

  /**
   `s.rfind(c, upTo)`: the last index at or before `upTo` holding `c`; an `upTo`
   past the end of `s` searches the whole string.
   */
  function LastIndexOfChar(s: string, c: char, upTo: nat): (r: Option<nat>)
    ensures r.Some? ==> LastUpTo(s, c, upTo, r.value)
    ensures r.None? ==> forall j :: 0 <= j <= upTo && j < |s| ==> s[j] != c
    decreases upTo
  {
    if upTo >= |s| then
      (if |s| == 0 then None else LastIndexOfChar(s, c, |s| - 1))
    else if s[upTo] == c then Some(upTo)
    else if upTo == 0 then None
    else LastIndexOfChar(s, c, upTo - 1)
  }

  /** `t` occurs in `s` starting at index `i`. */
  predicate OccursAt(s: string, t: string, i: int)
  {
    0 <= i && i + |t| <= |s| && s[i..i + |t|] == t
  }

  lemma OccursAtShift(s: string, t: string, i: nat)
    requires |s| > 0
    ensures OccursAt(s[1..], t, i) <==> OccursAt(s, t, i + 1)
  {
    if i + |t| <= |s[1..]| {
      assert s[1..][i..i + |t|] == s[i + 1..i + 1 + |t|];
    }
  }

  /** `s.find(t)`: the first index where `t` occurs in `s`; the empty `t` occurs at 0. */
  function IndexOfSub(s: string, t: string): (r: Option<nat>)
    ensures r.Some? ==> OccursAt(s, t, r.value)
    ensures r.Some? ==> forall j :: 0 <= j < r.value ==> !OccursAt(s, t, j)
    ensures r.None? ==> forall j :: !OccursAt(s, t, j)
    decreases |s|
  {
    if |t| > |s| then None
    else if s[..|t|] == t then Some(0)
    else
      match IndexOfSub(s[1..], t)
      case None =>
        assert forall j :: !OccursAt(s, t, j) by {
          forall j | OccursAt(s, t, j) ensures false {
            if j > 0 { OccursAtShift(s, t, j - 1); }
          }
        }
        None
      case Some(i) =>
        assert forall j :: 0 <= j < i + 1 ==> !OccursAt(s, t, j) by {
          forall j | 0 <= j < i + 1 && OccursAt(s, t, j) ensures false {
            if j > 0 { OccursAtShift(s, t, j - 1); }
          }
        }
        OccursAtShift(s, t, i);
        Some(i + 1)
  }

  /** `t` occurs somewhere in `s`: what `s.find(t) != npos` tests. */
  ghost predicate Contains(s: string, t: string)
  {
    exists j :: OccursAt(s, t, j)
  }

  /**
   `s.substr(pos, count)`: the longest slice of `s` that starts at `pos` and has at
   most `count` characters. The library throws when `pos > |s|`; the cursor only
   asks for slices that start at an index of `s`.
   */
  function Substr(s: string, pos: nat, count: nat): (r: string)
    requires pos <= |s|
    ensures |r| <= count && pos + |r| <= |s| && r == s[pos..pos + |r|]
    ensures |r| < count ==> pos + |r| == |s|
  {
    if count <= |s| - pos then s[pos..pos + count] else s[pos..]
  }

  /** `s.insert(pos, t)`. */
  function InsertAt(s: string, pos: nat, t: string): (r: string)
    requires pos <= |s|
    ensures |r| == |s| + |t|
    ensures r[..pos] == s[..pos] && r[pos..pos + |t|] == t && r[pos + |t|..] == s[pos..]
  {
    s[..pos] + t + s[pos..]
  }

  /** `s.erase(pos, count)`: drops at most `count` characters from `pos` on. */
  function RemoveAt(s: string, pos: nat, count: nat): (r: string)
    requires pos <= |s|
    ensures count <= |s| - pos ==> |r| == |s| - count && r[pos..] == s[pos + count..]
    ensures count > |s| - pos ==> r == s[..pos]
    ensures r[..pos] == s[..pos]
  {
    if count <= |s| - pos then s[..pos] + s[pos + count..] else s[..pos]
  }

  /** Erasing what was just inserted gives back the original string. */
  lemma RemoveInsertRoundTrip(s: string, pos: nat, t: string)
    requires pos <= |s|
    ensures RemoveAt(InsertAt(s, pos, t), pos, |t|) == s
  {
    var ins := InsertAt(s, pos, t);
    var r := RemoveAt(ins, pos, |t|);
    assert r[..pos] == s[..pos];
    assert r[pos..] == s[pos..];
    assert s == s[..pos] + s[pos..];
    assert r == r[..pos] + r[pos..];
  }

  /** Putting back an erased occurrence of `t` gives back the original string. */
  lemma InsertRemoveRoundTrip(s: string, pos: nat, t: string)
    requires OccursAt(s, t, pos)
    ensures InsertAt(RemoveAt(s, pos, |t|), pos, t) == s
  {
    var rem := RemoveAt(s, pos, |t|);
    var r := InsertAt(rem, pos, t);
    assert r[..pos] == s[..pos];
    assert r[pos..pos + |t|] == s[pos..pos + |t|];
    assert r[pos + |t|..] == s[pos + |t|..];
    assert s == s[..pos] + s[pos..pos + |t|] + s[pos + |t|..];
    assert r == r[..pos] + r[pos..pos + |t|] + r[pos + |t|..];
  }

  /** The empty string is found at index 0 of every string. */
  lemma EmptyFoundAtStart(s: string)
    ensures IndexOfSub(s, []) == Some(0)
  {
    assert s[..0] == [];
  }
}
