/** What several modules use. */
module Common {
  type byte = x: int | 0 <= x < 256

  datatype Option<T> = None | Some(value: T)

  function Min(a: int, b: int): (m: int)
    ensures m <= a && m <= b && (m == a || m == b)
  {
    if a < b then a else b
  }

  /** The `n` elements from `at` on, if they are all there. */
  function Part<T>(s: seq<T>, at: int, n: int): seq<T> {
    if 0 <= at <= at + n <= |s| then s[at..at + n] else []
  }

  lemma PartBehind<T>(front: seq<T>, s: seq<T>, at: int, n: int)
    requires at >= 0
    ensures Part(front + s, |front| + at, n) == Part(s, at, n)
  {}

  lemma FirstPart<T>(front: seq<T>, s: seq<T>)
    ensures Part(front + s, 0, |front|) == front
  {}

  lemma LastPart<T>(front: seq<T>, s: seq<T>)
    ensures Part(front + s, |front|, |s|) == s
  {}

  lemma PartBefore<T>(s: seq<T>, t: seq<T>, at: int, n: nat)
    requires 0 <= at && at + n <= |s|
    ensures Part(s + t, at, n) == Part(s, at, n)
  {
    assert (s + t)[at..at + n] == s[at..at + n];
  }

  /** Part of a part that is all there. */
  lemma PartOfPart<T>(s: seq<T>, at: int, n: nat, from: int, m: nat)
    requires |Part(s, at, n)| == n && 0 <= from && from + m <= n
    ensures Part(s, at + from, m) == Part(Part(s, at, n), from, m)
  {
    if n > 0 {
      assert s[at..at + n][from..from + m] == s[at + from..at + from + m];
    }
  }

  lemma Regroup<T>(a: seq<T>, b: seq<T>, c: seq<T>)
    ensures a + b + c == a + (b + c)
  {}

  function Max(a: int, b: int): (m: int)
    ensures m >= a && m >= b && (m == a || m == b)
  {
    if a > b then a else b
  }
}
