// A termination measure for the word-chain search: the search state is a
// stack of per-link counters (how many candidates each link has left), and
// every step of the search makes that stack lexicographically smaller, where
// a position above the top of the stack counts as larger than any counter.
// Reading the stack, padded to a fixed depth, as the digits of a number turns
// that order into the order on natural numbers.

module ChainMeasure {

  function Pow(b: nat, e: nat): (r: nat)
    ensures b > 0 ==> r > 0
  {
    if e == 0 then 1 else b * Pow(b, e - 1)
  }

  /** Digit `i` of the padded stack: the counter there, or `pad` above the top. */
  function Digit(rs: seq<nat>, i: nat, pad: nat): nat
  {
    if i < |rs| then rs[i] else pad
  }

  function Drop1(rs: seq<nat>): seq<nat>
  {
    if rs == [] then [] else rs[1..]
  }

  predicate Bounded(rs: seq<nat>, pad: nat)
  {
    forall i :: 0 <= i < |rs| ==> rs[i] <= pad
  }

  /** The first `n` digits of the padded stack, most significant first, in
      base `pad + 1`. */
  function Encode(rs: seq<nat>, n: nat, pad: nat): nat
  {
    if n == 0 then 0 else Digit(rs, 0, pad) * Pow(pad + 1, n - 1) + Encode(Drop1(rs), n - 1, pad)
  }

  lemma MulLe(a: nat, b: nat, x: nat)
    requires a <= b
    ensures a * x <= b * x
  {
  }

  lemma MulSucc(a: nat, x: nat)
    ensures (a + 1) * x == a * x + x
  {
  }

  lemma BoundedDrop1(rs: seq<nat>, pad: nat)
    requires Bounded(rs, pad)
    ensures Bounded(Drop1(rs), pad)
  {
  }

  /** `n` digits in base `pad + 1` stay below `(pad + 1)^n`. */
  lemma {:induction false} EncodeBound(rs: seq<nat>, n: nat, pad: nat)
    requires Bounded(rs, pad)
    ensures Encode(rs, n, pad) < Pow(pad + 1, n)
  {
    if n > 0 {
      var x, d := Pow(pad + 1, n - 1), Digit(rs, 0, pad);
      BoundedDrop1(rs, pad);
      EncodeBound(Drop1(rs), n - 1, pad);
      assert d <= pad;
      MulLe(d + 1, pad + 1, x);
      MulSucc(d, x);
      assert Encode(rs, n, pad) == d * x + Encode(Drop1(rs), n - 1, pad);
      assert Pow(pad + 1, n) == (pad + 1) * x;
    }
  }

  /** Stacks that agree below position `k` and are smaller at `k` encode to a
      smaller number. */
  lemma {:induction false} EncodeLexLess(a: seq<nat>, b: seq<nat>, n: nat, pad: nat, k: nat)
    requires Bounded(a, pad) && Bounded(b, pad)
    requires k < n && k <= |a| && k <= |b| && a[..k] == b[..k]
    requires Digit(a, k, pad) < Digit(b, k, pad)
    ensures Encode(a, n, pad) < Encode(b, n, pad)
    decreases k
  {
    var x, da, db := Pow(pad + 1, n - 1), Digit(a, 0, pad), Digit(b, 0, pad);
    assert Encode(a, n, pad) == da * x + Encode(Drop1(a), n - 1, pad);
    assert Encode(b, n, pad) == db * x + Encode(Drop1(b), n - 1, pad);
    BoundedDrop1(a, pad);
    BoundedDrop1(b, pad);
    if k == 0 {
      EncodeBound(Drop1(a), n - 1, pad);
      MulLe(da + 1, db, x);
      MulSucc(da, x);
    } else {
      assert a[0] == a[..k][0] == b[..k][0] == b[0];
      assert da == db;
      assert Drop1(a)[..k - 1] == a[1..k] == b[1..k] == Drop1(b)[..k - 1];
      EncodeLexLess(Drop1(a), Drop1(b), n - 1, pad, k - 1);
    }
  }

  /** The three moves of the search, each of which lowers the measure. */

  /** The top counter drops (the top link moves on to its next candidate). */
  lemma TopDecreases(rs: seq<nat>, x: nat, n: nat, pad: nat)
    requires Bounded(rs, pad) && 0 < |rs| <= n && x < rs[|rs| - 1]
    ensures Encode(rs[..|rs| - 1] + [x], n, pad) < Encode(rs, n, pad)
  {
    var a := rs[..|rs| - 1] + [x];
    assert a[..|rs| - 1] == rs[..|rs| - 1];
    EncodeLexLess(a, rs, n, pad, |rs| - 1);
  }

  /** The top is popped and the counter below it drops (backtracking). */
  lemma PopAndDecrease(rs: seq<nat>, x: nat, n: nat, pad: nat)
    requires Bounded(rs, pad) && 1 < |rs| <= n && x < rs[|rs| - 2]
    ensures Encode(rs[..|rs| - 2] + [x], n, pad) < Encode(rs, n, pad)
  {
    var a := rs[..|rs| - 2] + [x];
    assert a[..|rs| - 2] == rs[..|rs| - 2];
    EncodeLexLess(a, rs, n, pad, |rs| - 2);
  }

  /** A counter below the padding is pushed (the chain grows by a link). */
  lemma PushDecreases(rs: seq<nat>, x: nat, n: nat, pad: nat)
    requires Bounded(rs, pad) && |rs| < n && x < pad
    ensures Encode(rs + [x], n, pad) < Encode(rs, n, pad)
  {
    var a := rs + [x];
    assert a[..|rs|] == rs[..|rs|];
    EncodeLexLess(a, rs, n, pad, |rs|);
  }
}
