/** Byte-string comparison (src/ngx_string.c). */
module NgxString {
  type byte = x: nat | x < 0x100

  /** memcmp over the first `n` bytes: the difference at the first mismatch. */
  function Memcmp(a: seq<byte>, b: seq<byte>, n: nat): int
    requires n <= |a| && n <= |b|
  {
    if n == 0 then 0
    else if a[0] != b[0] then a[0] - b[0]
    else Memcmp(a[1..], b[1..], n - 1)
  }

  function Memn2cmp(a: seq<byte>, b: seq<byte>): int {
    var n, z := if |a| <= |b| then |a| else |b|, if |a| <= |b| then -1 else 1;
    var m := Memcmp(a, b, n);
    if m != 0 || |a| == |b| then m else z
  }

  /** The strings agree before position `k`, and there the first one ends or has the
      smaller byte. */
  ghost predicate LexAt(a: seq<byte>, b: seq<byte>, k: nat) {
    k <= |a| && k < |b| && (forall i :: 0 <= i < k ==> a[i] == b[i]) && (k == |a| || a[k] < b[k])
  }

  /** The dictionary order on byte strings, as a reference: a proper prefix comes first,
      otherwise the first differing byte decides. */
  ghost predicate Lex(a: seq<byte>, b: seq<byte>) {
    exists k: nat :: LexAt(a, b, k)
  }

  lemma {:induction false} MemcmpFirst(a: seq<byte>, b: seq<byte>, n: nat) returns (k: nat)
    requires n <= |a| && n <= |b|
    ensures k <= n && forall i :: 0 <= i < k ==> a[i] == b[i]
    ensures k == n ==> Memcmp(a, b, n) == 0
    ensures k < n ==> a[k] != b[k] && Memcmp(a, b, n) == a[k] as int - b[k] as int
  {
    if n == 0 || a[0] != b[0] {
      k := 0;
    } else {
      k := MemcmpFirst(a[1..], b[1..], n - 1);
      k := k + 1;
    }
  }

  lemma {:induction false} LexAsymmetric(a: seq<byte>, b: seq<byte>)
    requires Lex(a, b)
    ensures !Lex(b, a) && a != b
  {
    var k: nat :| LexAt(a, b, k);
    forall j: nat ensures !LexAt(b, a, j) {
      if k < j && j <= |b| && j <= |a| { assert a[k] != b[k]; }
    }
  }

  /** The sign of the comparison decides equality and the dictionary order. */
  lemma {:induction false} Memn2cmpIsLex(a: seq<byte>, b: seq<byte>)
    ensures Memn2cmp(a, b) == 0 <==> a == b
    ensures Memn2cmp(a, b) < 0 <==> Lex(a, b)
    ensures Memn2cmp(a, b) > 0 <==> Lex(b, a)
  {
    var n := if |a| <= |b| then |a| else |b|;
    var k := MemcmpFirst(a, b, n);
    if Lex(a, b) { LexAsymmetric(a, b); }
    if Lex(b, a) { LexAsymmetric(b, a); }
    if k == n {
      assert |a| < |b| ==> LexAt(a, b, k);
      assert |b| < |a| ==> LexAt(b, a, k);
    } else {
      assert a[k] < b[k] ==> LexAt(a, b, k);
      assert b[k] < a[k] ==> LexAt(b, a, k);
    }
  }

  lemma {:induction false} LexTransitive(a: seq<byte>, b: seq<byte>, c: seq<byte>)
    requires Lex(a, b) && Lex(b, c)
    ensures Lex(a, c)
  {
    var k: nat :| LexAt(a, b, k);
    var j: nat :| LexAt(b, c, j);
    assert LexAt(a, c, if k <= j then k else j);
  }

  /** The comparison is a strict total order. */
  lemma {:induction false} Memn2cmpTotalOrder(a: seq<byte>, b: seq<byte>, c: seq<byte>)
    ensures Memn2cmp(a, b) == 0 <==> a == b
    ensures Memn2cmp(a, b) < 0 <==> Memn2cmp(b, a) > 0
    ensures Memn2cmp(a, b) < 0 && Memn2cmp(b, c) < 0 ==> Memn2cmp(a, c) < 0
  {
    Memn2cmpIsLex(a, b);
    Memn2cmpIsLex(b, a);
    Memn2cmpIsLex(b, c);
    Memn2cmpIsLex(a, c);
    if Lex(a, b) && Lex(b, c) { LexTransitive(a, b, c); }
  }
}
