/**
  The comparison and selection of verify.h, written with masks and bitwise
  operations. Value barriers return their argument and are left out.
*/
module Verify {
  import opened Bytes
  import opened Powers
  import opened Packing

  function Xor(x: nat, y: nat): nat
    decreases x + y
  {
    if x == 0 && y == 0 then 0 else (if x % 2 != y % 2 then 1 else 0) + 2 * Xor(x / 2, y / 2)
  }

  function And(x: nat, y: nat): nat
    decreases x
  {
    if x == 0 then 0 else (if x % 2 == 1 && y % 2 == 1 then 1 else 0) + 2 * And(x / 2, y / 2)
  }

  lemma {:induction false} XorBits(x: nat, y: nat)
    ensures Xor(x, y) % 2 == (if x % 2 != y % 2 then 1 else 0) && Xor(x, y) / 2 == Xor(x / 2, y / 2)
  {
    hide Xor;
    XorUnfold(x, y);
    BitAndHalf(Xor(x, y), if x % 2 != y % 2 then 1 else 0, Xor(x / 2, y / 2));
  }

  lemma XorUnfold(x: nat, y: nat)
    ensures Xor(x, y) == (if x % 2 != y % 2 then 1 else 0) + 2 * Xor(x / 2, y / 2)
  {
    if x == 0 && y == 0 {
      assert x / 2 == 0 && y / 2 == 0;
    }
  }

  lemma BitAndHalf(x: nat, bit: nat, half: nat)
    requires x == bit + 2 * half && bit <= 1
    ensures x % 2 == bit && x / 2 == half
  {
  }

  lemma {:induction false} XorZero(x: nat, y: nat)
    ensures Xor(x, y) == 0 <==> x == y
    decreases x + y
  {
    if x != 0 || y != 0 {
      XorZero(x / 2, y / 2);
    }
  }

  lemma {:induction false} XorCancels(x: nat, y: nat)
    ensures Xor(Xor(x, y), y) == x && Xor(y, Xor(x, y)) == x
    decreases x + y
  {
    if x != 0 || y != 0 {
      var z := Xor(x, y);
      XorBits(x, y);
      XorBits(z, y);
      XorBits(y, z);
      XorCancels(x / 2, y / 2);
    }
  }

  lemma {:induction false} XorBelow(x: nat, y: nat, k: nat)
    requires x < Pow2(k) && y < Pow2(k)
    ensures Xor(x, y) < Pow2(k)
    decreases k
  {
    if k > 0 && (x != 0 || y != 0) {
      XorBelow(x / 2, y / 2, k - 1);
    }
  }

  lemma {:induction false} AndOnes(x: nat, k: nat)
    requires x < Pow2(k)
    ensures And(Pow2(k) - 1, x) == x
    decreases k
  {
    if k > 0 {
      AndOnes(x / 2, k - 1);
      assert (Pow2(k) - 1) / 2 == Pow2(k - 1) - 1;
    }
  }

  lemma {:induction false} OrIsZero(x: nat, y: nat)
    ensures Or(x, y) == 0 <==> x == 0 && y == 0
    decreases x + y
  {
    if x != 0 || y != 0 {
      OrIsZero(x / 2, y / 2);
    }
  }

  lemma {:induction false} OrBelow(x: nat, y: nat, k: nat)
    requires x < Pow2(k) && y < Pow2(k)
    ensures Or(x, y) < Pow2(k)
    decreases k
  {
    if k > 0 && (x != 0 || y != 0) {
      OrBelow(x / 2, y / 2, k - 1);
    }
  }

  /** Negation shifted right by 16, as unsigned bits: all ones unless x is 0. */
  function MaskNonzero(x: byte): (m: byte)
    ensures m == if x == 0 then 0 else 255
  {
    ((0 - x) / 0x1_0000) % 0x1_0000 % 256
  }

  function Select(a: byte, b: byte, cond: byte): (r: nat)
    ensures r == if cond != 0 then a else b
  {
    XorBelow(a, b, 8);
    AndOnes(Xor(a, b), 8);
    XorCancels(a, b);
    XorRightZero(b);
    Xor(b, And(MaskNonzero(cond), Xor(a, b)))
  }

  lemma {:induction false} XorLeftZero(b: nat)
    ensures Xor(0, b) == b
    decreases b
  {
    if b > 0 {
      XorLeftZero(b / 2);
    }
  }

  lemma {:induction false} XorRightZero(b: nat)
    ensures Xor(b, 0) == b
    decreases b
  {
    if b > 0 {
      XorRightZero(b / 2);
    }
  }

  /** Compares without an early exit: 0 if equal, 255 otherwise. */
  method Memcmp(a: seq<byte>, b: seq<byte>) returns (r: byte)
    requires |a| == |b|
    ensures r == if a == b then 0 else 255
  {
    hide Or, Xor;
    var d: byte, s: byte := 0, 0;
    for i := 0 to |a|
      invariant d == 0 <==> a[..i] == b[..i]
    {
      var x := Xor(a[i], b[i]);
      Pow2Values();
      XorBelow(a[i], b[i], 8);
      XorZero(a[i], b[i]);
      OrIsZero(d, x);
      OrBelow(d, x, 8);
      XorBelow(s, x, 8);
      assert a[..i + 1] == a[..i] + [a[i]] && b[..i + 1] == b[..i] + [b[i]];
      d := Or(d, x);
      s := Xor(s, x);
    }
    assert a[..|a|] == a && b[..|a|] == b;
    XorCancels(MaskNonzero(d), s);
    r := Xor(Xor(MaskNonzero(d), s), s);
  }

  /** Copies x over r when the condition is zero. */
  method CmovZero(r: array<byte>, x: seq<byte>, cond: byte)
    requires r.Length == |x|
    modifies r
    ensures r[..] == if cond == 0 then x else old(r[..])
  {
    hide Select;
    for i := 0 to |x|
      invariant forall j :: i <= j < |x| ==> r[j] == old(r[j])
      invariant forall j :: 0 <= j < i ==> r[j] == if cond == 0 then x[j] else old(r[j])
    {
      r[i] := Select(r[i], x[i], cond);
    }
  }
}
