/**
 * The bounded chat history kept by the server: every broadcast line is
 * appended, and the oldest line is dropped once more than `Capacity` are held.
 */
module History {

  /** The number of lines the server keeps and replays to a new login. */
  const Capacity: nat := 10

  /** The history after `add_history(m)`: `m` becomes the last entry, the first
      entry is dropped exactly when the grown history is longer than `Capacity`,
      and the surviving older entries keep their order. */
  function Push<T>(h: seq<T>, m: T): (r: seq<T>)
    ensures |r| == if |h| < Capacity then |h| + 1 else |h|
    ensures r[|r| - 1] == m
    ensures r[..|r| - 1] == h[|h| + 1 - |r|..]
  {
    var grown := h + [m];
    if |grown| > Capacity then grown[1..] else grown
  }

  /** The newest `Capacity` entries of `s`, oldest first. */
  function Newest<T>(s: seq<T>): (r: seq<T>)
    ensures |r| == if |s| <= Capacity then |s| else Capacity
    ensures r == s[|s| - |r|..]
  {
    if |s| <= Capacity then s else s[|s| - Capacity..]
  }

  /** The history after the lines `ms` are added one after another. */
  function PushAll<T>(h: seq<T>, ms: seq<T>): seq<T>
    decreases |ms|
  {
    if ms == [] then h else PushAll(Push(h, ms[0]), ms[1..])
  }

  /** On a history within its bound, one push keeps exactly the newest
      `Capacity` lines of the history followed by the new line. */
  lemma PushKeepsNewest<T>(h: seq<T>, m: T)
    requires |h| <= Capacity
    ensures Push(h, m) == Newest(h + [m])
  {
  }

  /** Any number of pushes on a history within its bound leaves the newest
      `Capacity` of all lines seen, in the order they were added. */
  lemma {:induction false} PushAllKeepsNewest<T>(h: seq<T>, ms: seq<T>)
    requires |h| <= Capacity
    ensures PushAll(h, ms) == Newest(h + ms)
    decreases |ms|
  {
    if ms != [] {
      var m, rest := ms[0], ms[1..];
      var h' := Push(h, m);
      PushAllKeepsNewest(h', rest);
      assert h + ms == (h + [m]) + rest;
      if |h| == Capacity {
        assert h' + rest == (h + ms)[1..];
        SuffixNewest(h + ms, 1);
      }
    }
  }

  /** Dropping lines from the front that `Newest` would drop anyway does not
      change its result. */
  lemma SuffixNewest<T>(s: seq<T>, k: nat)
    requires k <= |s|
    requires |s| - k >= Capacity || k == 0
    ensures Newest(s[k..]) == Newest(s)
  {
    if k > 0 {
      assert s[k..][|s| - k - Capacity..] == s[|s| - Capacity..];
    }
  }

  /** After eleven lines are added to an empty history, the first is gone and
      the other ten remain, oldest first. */
  lemma EleventhEvictsFirst<T>(ms: seq<T>)
    requires |ms| == Capacity + 1
    ensures PushAll([], ms) == ms[1..]
  {
    PushAllKeepsNewest([], ms);
    assert [] + ms == ms;
  }
}
