/**
 Positional edits on sequences that the slide editor is built from: removing
 and inserting one element, the one-element `splice` of JavaScript arrays,
 and the `arrayMove` reorder primitive used after a drag.
 */
module Sequences {

  /** `s` with the element at position `k` taken out; later elements shift left. */
  function RemoveAt<T>(s: seq<T>, k: nat): (r: seq<T>)
    requires k < |s|
    ensures |r| == |s| - 1
    ensures forall j :: 0 <= j < k ==> r[j] == s[j]
    ensures forall j :: k <= j < |r| ==> r[j] == s[j + 1]
  {
    s[..k] + s[k + 1..]
  }

  /** `s` with `x` placed at position `k`; elements from `k` on shift right. */
  function InsertAt<T>(s: seq<T>, k: nat, x: T): (r: seq<T>)
    requires k <= |s|
    ensures |r| == |s| + 1
    ensures r[k] == x
    ensures forall j :: 0 <= j < k ==> r[j] == s[j]
    ensures forall j :: k < j < |r| ==> r[j] == s[j - 1]
  {
    s[..k] + [x] + s[k..]
  }

  /** Removing one element takes exactly that element out of the multiset. */
  lemma RemoveAtMultiset<T>(s: seq<T>, k: nat)
    requires k < |s|
    ensures multiset(RemoveAt(s, k)) + multiset{s[k]} == multiset(s)
  {
    assert s == s[..k] + [s[k]] + s[k + 1..];
  }

  /** Inserting one element adds exactly that element to the multiset. */
  lemma InsertAtMultiset<T>(s: seq<T>, k: nat, x: T)
    requires k <= |s|
    ensures multiset(InsertAt(s, k, x)) == multiset(s) + multiset{x}
  {
    assert s == s[..k] + s[k..];
  }

  /** Removing the element just inserted restores the sequence. */
  lemma RemoveAtInsertAt<T>(s: seq<T>, k: nat, x: T)
    requires k <= |s|
    ensures RemoveAt(InsertAt(s, k, x), k) == s
  {
  }

  /**
   The position JavaScript's `Array.prototype.splice` starts at when asked to
   start at `i` in an array of length `len`: a negative `i` counts back from
   the end, and the result is clamped into `[0, len]`.
   */
  function SpliceStart(i: int, len: nat): (k: nat)
    ensures k <= len
  {
    if i < 0 then (if len + i < 0 then 0 else len + i)
    else if i > len then len
    else i
  }

  /**
   The array left behind by `s.splice(i, 1)` in JavaScript: the element at the
   normalised start is removed, and nothing happens when that start is past
   the last element.
   */
  function SpliceOne<T>(s: seq<T>, i: int): (r: seq<T>)
    ensures 0 <= i < |s| ==> r == RemoveAt(s, i)
    ensures i >= |s| ==> r == s
    ensures i < 0 && 0 <= |s| + i ==> r == RemoveAt(s, |s| + i)
    ensures 0 < |s| && |s| + i < 0 ==> r == RemoveAt(s, 0)
    ensures |r| == |s| || |r| == |s| - 1
    ensures multiset(r) <= multiset(s)
    ensures forall k :: 0 <= k < |r| ==> r[k] in s
  {
    var k := SpliceStart(i, |s|);
    if k < |s| then
      RemoveAtMultiset(s, k);
      RemoveAt(s, k)
    else
      s
  }

  /**
   Model of `arrayMove(items, from, to)` from the `@dnd-kit/sortable` package.
   ASSUMPTION: that library is not part of this model; it is taken to remove
   the element at `from` and insert it at position `to` of what remains.
   */
  function ArrayMove<T>(s: seq<T>, from: nat, to: nat): (r: seq<T>)
    requires from < |s| && to < |s|
    ensures |r| == |s|
    ensures r[to] == s[from]
    ensures multiset(r) == multiset(s)
    ensures from <= to ==>
              && (forall j :: 0 <= j < from ==> r[j] == s[j])
              && (forall j :: from <= j < to ==> r[j] == s[j + 1])
              && (forall j :: to < j < |s| ==> r[j] == s[j])
    ensures to <= from ==>
              && (forall j :: 0 <= j < to ==> r[j] == s[j])
              && (forall j :: to < j <= from ==> r[j] == s[j - 1])
              && (forall j :: from < j < |s| ==> r[j] == s[j])
  {
    RemoveAtMultiset(s, from);
    InsertAtMultiset(RemoveAt(s, from), to, s[from]);
    InsertAt(RemoveAt(s, from), to, s[from])
  }

  /** Moving an element from `to` back to `from` undoes the move. */
  lemma ArrayMoveInverse<T>(s: seq<T>, from: nat, to: nat)
    requires from < |s| && to < |s|
    ensures ArrayMove(ArrayMove(s, from, to), to, from) == s
  {
    var m := ArrayMove(s, from, to);
    var back := ArrayMove(m, to, from);
    assert |back| == |s|;
    forall j | 0 <= j < |s|
      ensures back[j] == s[j]
    {
      if from <= to {
        if j < from || to < j {
        } else if j == from {
        } else {
          assert back[j] == m[j - 1];
        }
      } else {
        if j < to || from < j {
        } else if j == from {
        } else {
          assert back[j] == m[j + 1];
        }
      }
    }
  }
}
