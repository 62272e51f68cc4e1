/** Result codes and byte-level integers shared by the models of the b-tree layer. */
module Common {

  type byte = x: int | 0 <= x < 256

  datatype Rc = OK | CORRUPT

  // Big-endian four-byte integers.
  function Get4(s: seq<byte>, i: nat): nat
    requires i + 4 <= |s|
  {
    ((s[i] as int * 256 + s[i + 1] as int) * 256 + s[i + 2] as int) * 256 + s[i + 3] as int
  }

  function Put4(s: seq<byte>, i: nat, v: nat): (r: seq<byte>)
    requires i + 4 <= |s| && v < 0x1_0000_0000
    ensures |r| == |s| && forall p | 0 <= p < |s| && !(i <= p < i + 4) :: r[p] == s[p]
  {
    s[i := v / 0x100_0000][i + 1 := v / 0x1_0000 % 256][i + 2 := v / 256 % 256][i + 3 := v % 256]
  }

  lemma Digits(v: nat)
    ensures ((v / 0x100_0000 * 256 + v / 0x1_0000 % 256) * 256 + v / 256 % 256) * 256 + v % 256 == v
  {
    assert v / 0x1_0000 == v / 256 / 256 && v / 0x100_0000 == v / 256 / 256 / 256;
  }

  lemma Get4Put4(s: seq<byte>, i: nat, v: nat)
    requires i + 4 <= |s| && v < 0x1_0000_0000
    ensures Get4(Put4(s, i, v), i) == v
  {
    Digits(v);
  }

  lemma MulAtMost(a: int, b: int, s: nat)
    requires a <= b
    ensures a * s <= b * s
  {
    assert b * s == a * s + (b - a) * s;
  }

  // How many times s goes into x, rounded up.
  lemma CeilDiv(x: nat, s: nat, k: nat)
    requires x > 0 && s > 0
    ensures k == (x + s - 1) / s <==> (k - 1) * s < x <= k * s
    ensures x > k * s ==> k < (x + s - 1) / s
    ensures (x + s - 1) / s >= 1
  {
    var q := (x + s - 1) / s;
    assert q * s <= x + s - 1 < q * s + s;
    assert (q - 1) * s == q * s - s;
    if k < q {
      MulAtMost(k, q - 1, s);
    } else if k > q {
      MulAtMost(q, k - 1, s);
    }
    if q <= 0 { MulAtMost(q, 0, s); }
  }
}

/** The size of a part of a finite set. */
module Sets {

  lemma {:induction false} SubsetSize<T>(x: set<T>, y: set<T>)
    requires x <= y
    ensures |x| <= |y| && (|x| == |y| ==> x == y)
  {
    if x != {} {
      var e :| e in x;
      SubsetSize(x - {e}, y - {e});
    }
  }
}
