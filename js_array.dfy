/**
 * The Array.prototype built-ins that the posts router applies to a post's
 * embedded `likes` and `comments` arrays, stated on sequences:
 * `filter(pred).length`, `indexOf` and `splice(start, 1)`.
 */
module JsArray {

  /** `s.filter(e => e === x).length`: how many elements equal `x`. */
  function Count<T(==)>(s: seq<T>, x: T): (n: nat)
    ensures n <= |s|
    ensures n == 0 <==> x !in s
  {
    if s == [] then 0
    else (if s[0] == x then 1 else 0) + Count(s[1..], x)
  }

  /** `s.indexOf(x)`: the first position holding `x`, or -1 when there is none. */
  function IndexOf<T(==)>(s: seq<T>, x: T): (i: int)
    ensures -1 <= i < |s|
    ensures i == -1 <==> x !in s
    ensures 0 <= i ==> s[i] == x && forall j :: 0 <= j < i ==> s[j] != x
  {
    if s == [] then -1
    else if s[0] == x then 0
    else
      var j := IndexOf(s[1..], x);
      if j == -1 then -1 else j + 1
  }

  /**
   * The array left behind by `s.splice(start, 1)`. As in JavaScript, a
   * negative `start` counts from the end (and is clamped at 0), and a
   * `start` at or past the end removes nothing.
   */
  function Splice<T>(s: seq<T>, start: int): (r: seq<T>)
    ensures 0 <= start < |s| ==> r == RemoveAt(s, start)
    ensures start >= |s| ==> r == s
    ensures start == -1 && s != [] ==> r == s[..|s| - 1]
  {
    var k := if start >= 0 then start else if |s| + start >= 0 then |s| + start else 0;
    if k < |s| then RemoveAt(s, k) else s
  }

  /** `s` without its element at position `k`. */
  function RemoveAt<T>(s: seq<T>, k: nat): (r: seq<T>)
    requires k < |s|
    ensures |r| == |s| - 1
    ensures forall j :: 0 <= j < |r| ==> r[j] == s[if j < k then j else j + 1]
    ensures multiset(r) == multiset(s) - multiset{s[k]}
  {
    assert s == s[..k] + [s[k]] + s[k + 1..];
    s[..k] + s[k + 1..]
  }

  /** Removing one element lowers the count of that element by one and leaves every other count alone. */
  lemma {:induction false} CountRemoveAt<T>(s: seq<T>, k: nat, x: T)
    requires k < |s|
    ensures Count(RemoveAt(s, k), x) == Count(s, x) - (if s[k] == x then 1 else 0)
  {
    var t := RemoveAt(s, k);
    assert t == s[..k] + s[k + 1..];
    if k > 0 {
      var tail := RemoveAt(s[1..], k - 1);
      assert tail == s[1..][..k - 1] + s[1..][k..];
      assert t[1..] == tail;
      CountRemoveAt(s[1..], k - 1, x);
    } else {
      assert t == s[1..];
    }
  }

  /** Putting `x` in front of `s` (what `unshift` does) adds exactly one to its count. */
  lemma CountUnshift<T>(s: seq<T>, x: T, y: T)
    ensures Count([x] + s, y) == Count(s, y) + (if x == y then 1 else 0)
  {
    assert ([x] + s)[1..] == s;
  }
}
