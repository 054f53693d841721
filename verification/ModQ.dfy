/** Arithmetic modulo q = 3329: congruence of integers and of integer sequences. */
module ModQ {
  const Q := 3329
  const Q_HALF := 1665

  predicate Cong(x: int, y: int) { (x - y) % Q == 0 }

  predicate CongSeq(s: seq<int>, t: seq<int>) {
    |s| == |t| && forall i :: 0 <= i < |s| ==> Cong(s[i], t[i])
  }

  lemma CongIntro(x: int, y: int, k: int)
    requires x - y == Q * k
    ensures Cong(x, y)
  {
  }

  lemma CongElim(x: int, y: int) returns (k: int)
    requires Cong(x, y)
    ensures x - y == Q * k
  {
    k := (x - y) / Q;
  }

  lemma CongAdd(x: int, y: int, u: int, v: int)
    requires Cong(x, y) && Cong(u, v)
    ensures Cong(x + u, y + v) && Cong(x - u, y - v)
  {
    var k := CongElim(x, y);
    var l := CongElim(u, v);
    CongIntro(x + u, y + v, k + l);
    CongIntro(x - u, y - v, k - l);
  }

  lemma CongMul(x: int, y: int, u: int, v: int)
    requires Cong(x, y) && Cong(u, v)
    ensures Cong(x * u, y * v)
  {
    var k := CongElim(x, y);
    var l := CongElim(u, v);
    assert x * u - y * v == (x - y) * u + y * (u - v);
    assert (x - y) * u == Q * (k * u);
    assert y * (u - v) == Q * (y * l);
    CongIntro(x * u, y * v, k * u + y * l);
  }

  lemma CongTrans(x: int, y: int, z: int)
    requires Cong(x, y) && Cong(y, z)
    ensures Cong(x, z)
  {
    var k := CongElim(x, y);
    var l := CongElim(y, z);
    CongIntro(x, z, k + l);
  }

  lemma CongSym(x: int, y: int)
    requires Cong(x, y)
    ensures Cong(y, x)
  {
    var k := CongElim(x, y);
    CongIntro(y, x, -k);
  }

  lemma CongSeqTrans(s: seq<int>, t: seq<int>, u: seq<int>)
    requires CongSeq(s, t) && CongSeq(t, u)
    ensures CongSeq(s, u)
  {
    forall i | 0 <= i < |s|
      ensures Cong(s[i], u[i])
    {
      CongTrans(s[i], t[i], u[i]);
    }
  }

  lemma CongSeqSym(s: seq<int>, t: seq<int>)
    requires CongSeq(s, t)
    ensures CongSeq(t, s)
  {
    forall i | 0 <= i < |s|
      ensures Cong(t[i], s[i])
    {
      CongSym(s[i], t[i]);
    }
  }

  lemma CongSeqConcat(s: seq<int>, t: seq<int>, u: seq<int>, v: seq<int>)
    requires CongSeq(s, t) && CongSeq(u, v)
    ensures CongSeq(s + u, t + v)
  {
  }
}
