/** The few JavaScript built-ins the tree component leans on, with their
    ECMAScript semantics written out: Array.prototype.indexOf and splice,
    String.prototype.indexOf, and truthiness of node values. */
module Js {

  datatype Option<+T> = None | Some(value: T)

  datatype Result<+T> = Ok(value: T) | TypeError

  /** Array.prototype.indexOf: the first position holding `x` (strict
      equality, i.e. reference identity for objects), or -1. */
  function IndexOf<T(==)>(s: seq<T>, x: T): (r: int)
    ensures -1 <= r < |s|
    ensures r == -1 <==> x !in s
    ensures 0 <= r ==> s[r] == x && x !in s[..r]
  {
    if |s| == 0 then -1
    else if s[0] == x then 0
    else
      var k := IndexOf(s[1..], x);
      if k == -1 then -1
      else
        assert s[1..][..k] == s[1..k + 1];
        k + 1
  }

  /** indexOf finds the first occurrence. */
  lemma IndexOfFirst<T>(s: seq<T>, x: T, k: nat)
    requires k < |s| && s[k] == x
    requires forall q :: 0 <= q < k ==> s[q] != x
    ensures IndexOf(s, x) == k
  {
    var r := IndexOf(s, x);
    assert s[k] in s;
    assert forall q :: 0 <= q < r ==> s[..r][q] == s[q];
  }

  /** The position a splice starts at: a negative start counts from the
      end, and the result is clamped to 0..len. */
  function SpliceStart(len: nat, start: int): (k: nat)
    ensures k <= len
    ensures 0 <= start <= len ==> k == start
    ensures start < 0 && -start <= len ==> k == len + start
    ensures start < 0 && -start > len ==> k == 0
    ensures start > len ==> k == len
  {
    if start < 0 then (if len + start < 0 then 0 else len + start)
    else if start > len then len
    else start
  }

  /** `s.splice(start, 1)`: the array after removing one element. */
  function SpliceRemove<T>(s: seq<T>, start: int): seq<T>
  {
    var k := SpliceStart(|s|, start);
    if k < |s| then s[..k] + s[k + 1..] else s
  }

  lemma SpliceRemoveAt<T>(s: seq<T>, k: nat)
    requires k < |s|
    ensures SpliceRemove(s, k) == s[..k] + s[k + 1..]
  {
  }

  /** `s.splice(start, 0, x)`: the array after inserting `x`. */
  function SpliceInsert<T>(s: seq<T>, start: int, x: T): seq<T>
  {
    var k := SpliceStart(|s|, start);
    s[..k] + [x] + s[k..]
  }

  lemma SpliceInsertAt<T>(s: seq<T>, k: nat, x: T)
    requires k <= |s|
    ensures SpliceInsert(s, k, x) == s[..k] + [x] + s[k..]
  {
  }

  /** With a broken correspondence indexOf yields -1, and `splice(-1, 1)`
      then drops the LAST element instead of nothing. */
  lemma SpliceRemoveOfMissing<T>(s: seq<T>, x: T)
    requires x !in s && |s| > 0
    ensures SpliceRemove(s, IndexOf(s, x)) == s[..|s| - 1]
  {
  }

  /** `sub` occurs in `s` starting at position `k`. */
  predicate OccursAt(s: string, sub: string, k: int)
  {
    0 <= k && k + |sub| <= |s| && s[k..k + |sub|] == sub
  }

  /** String.prototype.indexOf(sub, from): the first occurrence of `sub`
      at or after `from`, or -1. */
  function StringIndexOf(s: string, sub: string, from: nat): (r: int)
    requires from <= |s|
    ensures r == -1 <==> forall k :: from <= k <= |s| ==> !OccursAt(s, sub, k)
    ensures r != -1 ==> from <= r && OccursAt(s, sub, r)
    ensures r != -1 ==> forall k :: from <= k < r ==> !OccursAt(s, sub, k)
    decreases |s| - from
  {
    if OccursAt(s, sub, from) then from
    else if from == |s| then -1
    else StringIndexOf(s, sub, from + 1)
  }

  /** `s.indexOf(sub) >= 0`. */
  predicate Includes(s: string, sub: string)
  {
    StringIndexOf(s, sub, 0) >= 0
  }
}
