/** Sequences without duplicates, and what the linked lists of the program need of them. */
module Seqs {

  datatype Option<+T> = None | Some(value: T)

  ghost predicate NoDup<T>(s: seq<T>) {
    forall i, j :: 0 <= i < j < |s| ==> s[i] != s[j]
  }

  /** The member at position `i`, or the head `h` before the first and after the last. */
  ghost function Nth<T>(h: T, s: seq<T>, i: int): T {
    if 0 <= i < |s| then s[i] else h
  }

  /** The sequence without the member at position `k`. */
  ghost function Dropped<T>(s: seq<T>, k: int): seq<T>
    requires 0 <= k < |s|
  {
    s[..k] + s[k + 1..]
  }

  lemma {:induction false} InDropped<T>(s: seq<T>, k: nat, j: nat)
    requires k < |s| && j < |s| && j != k
    ensures s[j] in Dropped(s, k) && Dropped(s, k)[if j < k then j else j - 1] == s[j]
  {
  }

  lemma {:induction false} DroppedIn<T>(s: seq<T>, k: nat)
    requires k < |s| && NoDup(s)
    ensures forall x :: x in Dropped(s, k) <==> x in s && x != s[k]
    ensures NoDup(Dropped(s, k))
  {
    forall x | x in s && x != s[k] ensures x in Dropped(s, k) {
      var j :| 0 <= j < |s| && s[j] == x;
      InDropped(s, k, j);
    }
  }

  /** A largest member. */
  lemma {:induction false} Largest(s: seq<nat>) returns (k: nat)
    requires s != []
    ensures k < |s| && forall j {:trigger s[j]} :: 0 <= j < |s| ==> s[j] <= s[k]
  {
    k := 0;
    if |s| > 1 {
      var m := Largest(s[1..]);
      assert forall j :: 0 < j < |s| ==> s[j] == s[1..][j - 1];
      if s[0] < s[m + 1] { k := m + 1; }
    }
  }

  /** Different numbers that are at least `b` apart, and as far below `n`, are at most `n / b`. */
  lemma {:induction false} SpacedBelow(s: seq<nat>, b: nat, n: nat)
    requires NoDup(s) && forall x :: x in s ==> x + b <= n
    requires forall x, y {:trigger x in s, y in s} :: x in s && y in s && x < y ==> x + b <= y
    ensures |s| * b <= n
  {
    if s != [] {
      var k := Largest(s);
      var rest := Dropped(s, k);
      DroppedIn(s, k);
      assert s[k] in s;
      forall x | x in rest ensures x + b <= s[k] { assert x in s && x != s[k] && x <= s[k]; }
      SpacedBelow(rest, b, s[k]);
      assert |s| * b == |rest| * b + b;
    }
  }
}
