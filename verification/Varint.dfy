/** Variable-length integers: up to eight bytes of seven bits, or eight of seven and one of eight (section 1.6 of the
    SQLite Database File Format). */
module Varint {
  import opened Common
  import opened Bits

  const U32: nat := 0x1_0000_0000
  const U56: nat := 0x100_0000_0000_0000
  const U64: nat := 0x1_0000_0000_0000_0000

  // ---------- variable-length integers ----------

  // The k low digits of v to the base 128, most significant first, each marked as followed by another byte.
  function Marked(v: nat, k: nat): (d: seq<byte>)
    ensures |d| == k && forall i | 0 <= i < k :: d[i] >= 128
    decreases k
  {
    if k == 0 then [] else Marked(v / 128, k - 1) + [v % 128 + 128]
  }

  // How many digits v has to the base 128.
  function Len(v: nat): (n: nat)
    ensures n >= 1
  {
    if v < 128 then 1 else 1 + Len(v / 128)
  }

  // A 64-bit integer as the file format has it: up to eight digits, or eight and a whole byte.
  function Encode(v: nat): (p: seq<byte>)
    requires v < U64
    ensures 1 <= |p|
  {
    if v >= U56 then Marked(v / 256, 8) + [v % 256] else Marked(v / 128, Len(v) - 1) + [v % 128]
  }

  // There is an integer at the start of p, of which k bytes came before.
  predicate Has(p: seq<byte>, k: nat)
    decreases |p|
  {
    p != [] && (k >= 8 || p[0] < 128 || Has(p[1..], k + 1))
  }

  // Its value and its length, acc being the value of the bytes before.
  function Value(p: seq<byte>, k: nat, acc: nat): (r: (nat, nat))
    requires Has(p, k) && k <= 8
    ensures k < r.1 <= 9 && r.1 - k <= |p|
    decreases |p|
  {
    if k == 8 then (acc * 256 + p[0], 9)
    else if p[0] < 128 then (acc * 128 + p[0], k + 1)
    else Value(p[1..], k + 1, acc * 128 + (p[0] - 128))
  }

  // The value of the digits of a marked run, read after acc.
  function Read(acc: nat, d: seq<byte>): nat
    decreases |d|
  {
    if d == [] then acc else Read(acc * 128 + d[0] % 128, d[1..])
  }

  lemma {:induction false} ReadLast(acc: nat, d: seq<byte>, x: byte)
    ensures Read(acc, d + [x]) == Read(acc, d) * 128 + x % 128
    decreases |d|
  {
    if d == [] {
      assert (d + [x])[1..] == [];
    } else {
      assert (d + [x])[1..] == d[1..] + [x];
      ReadLast(acc * 128 + d[0] % 128, d[1..], x);
    }
  }

  function Pow128(k: nat): (n: nat)
    ensures n >= 1
  {
    if k == 0 then 1 else 128 * Pow128(k - 1)
  }

  lemma {:induction false} ReadMarked(v: nat, k: nat)
    requires v < Pow128(k)
    ensures Read(0, Marked(v, k)) == v
  {
    if k > 0 {
      ReadMarked(v / 128, k - 1);
      ReadLast(0, Marked(v / 128, k - 1), v % 128 + 128);
    }
  }

  lemma {:induction false} LenIs(v: nat)
    ensures v < Pow128(Len(v)) && (v >= 128 ==> Pow128(Len(v) - 1) <= v)
  {
    if v >= 128 { LenIs(v / 128); }
  }

  lemma {:induction false} PowAtMost(a: nat, b: nat)
    requires a <= b
    ensures Pow128(a) <= Pow128(b)
  {
    if a < b { PowAtMost(a, b - 1); }
  }

  lemma Pow8()
    ensures Pow128(8) == U56
  {
    assert Pow128(2) == 0x4000;
    assert Pow128(4) == 0x1000_0000;
    assert Pow128(6) == 0x400_0000_0000;
  }

  lemma Short(v: nat)
    requires v < U56
    ensures Len(v) <= 8
  {
    Pow8();
    LenIs(v);
    if Len(v) > 8 { PowAtMost(8, Len(v) - 1); }
  }

  lemma ValueStep(p: seq<byte>, k: nat, acc: nat)
    requires p != [] && p[0] >= 128 && k < 8 && Has(p[1..], k + 1)
    ensures Has(p, k) && Value(p, k, acc) == Value(p[1..], k + 1, acc * 128 + p[0] % 128)
  {
  }

  // A marked run is read digit by digit.
  lemma {:induction false} ValueMarked(d: seq<byte>, rest: seq<byte>, k: nat, acc: nat)
    requires (forall i | 0 <= i < |d| :: d[i] >= 128) && k + |d| <= 8 && Has(rest, k + |d|)
    ensures Has(d + rest, k) && Value(d + rest, k, acc) == Value(rest, k + |d|, Read(acc, d))
    decreases |d|
  {
    hide Has, Value;
    if d == [] {
      assert d + rest == rest;
    } else {
      assert (d + rest)[1..] == d[1..] + rest;
      ValueMarked(d[1..], rest, k + 1, acc * 128 + d[0] % 128);
      ValueStep(d + rest, k, acc);
    }
  }

  /** Every 64-bit integer is read back from what is written for it, whatever comes after. */
  lemma RoundTrip(v: nat, rest: seq<byte>)
    requires v < U64
    ensures Has(Encode(v) + rest, 0) && Value(Encode(v) + rest, 0, 0) == (v, |Encode(v)|) && |Encode(v)| <= 9
  {
    if v >= U56 {
      Pow8();
      ReadMarked(v / 256, 8);
      ReadBack(Marked(v / 256, 8), v % 256, rest);
    } else {
      Short(v);
      TopDigits(v);
      ReadBack(Marked(v / 128, Len(v) - 1), v % 128, rest);
    }
  }

  /** What is written is as short as it can be: n bytes for what has n digits to the base 128, nine for all the rest. */
  lemma Shortest(v: nat)
    requires v < U64
    ensures var n := |Encode(v)|; (n == 1 || v >= Pow128(n - 1)) && (n < 9 ==> v < Pow128(n)) && n <= 9
  {
    hide Marked;
    Pow8();
    LenIs(v);
    if v < U56 { Short(v); }
    assert |Marked(v / 256, 8)| == 8 && |Marked(v / 128, Len(v) - 1)| == Len(v) - 1 by { MarkedLength(v); }
  }

  lemma MarkedLength(v: nat)
    ensures |Marked(v / 256, 8)| == 8 && |Marked(v / 128, Len(v) - 1)| == Len(v) - 1
  {
  }

  lemma TopDigits(v: nat)
    ensures Read(0, Marked(v / 128, Len(v) - 1)) == v / 128
  {
    if v >= 128 { LenIs(v / 128); }
    ReadMarked(v / 128, Len(v) - 1);
  }

  lemma ReadBack(d: seq<byte>, x: byte, rest: seq<byte>)
    requires (forall i | 0 <= i < |d| :: d[i] >= 128) && |d| <= 8 && (|d| < 8 ==> x < 128)
    ensures Has(d + [x] + rest, 0)
    ensures Value(d + [x] + rest, 0, 0) == (Read(0, d) * (if |d| == 8 then 256 else 128) + x, |d| + 1)
  {
    assert d + [x] + rest == d + ([x] + rest);
    ValueMarked(d, [x] + rest, 0, 0);
  }

  // Digit i from the left is the last one of v without the digits after it.
  lemma {:induction false} MarkedAt(v: nat, k: nat, i: nat)
    requires i < k
    ensures Marked(v, k)[i] == Shifted(v, k - 1 - i) % 128 + 128
  {
    if i < k - 1 { MarkedAt(v / 128, k - 1, i); }
  }

  // v with its j low digits dropped.
  function Shifted(v: nat, j: nat): nat { if j == 0 then v else Shifted(v / 128, j - 1) }

  lemma {:induction false} ShiftedNext(v: nat, j: nat)
    ensures Shifted(v, j + 1) == Shifted(v, j) / 128
  {
    if j > 0 { ShiftedNext(v / 128, j - 1); }
  }

  lemma {:induction false} ShiftedLen(v: nat, j: nat)
    requires j < Len(v)
    ensures Len(Shifted(v, j)) == Len(v) - j && (j + 1 < Len(v) <==> Shifted(v, j + 1) != 0)
  {
    if j > 0 { ShiftedLen(v / 128, j - 1); }
  }

  lemma TwoBytes(v: nat)
    requires 128 <= v < 0x4000
    ensures Encode(v) == [v / 128 % 128 + 128, v % 128]
  {
    assert v / 128 < 128 && Len(v) == 2;
    assert Marked(v / 128, 1) == Marked(v / 128 / 128, 0) + [v / 128 % 128 + 128];
  }

  /** sqlite3PutVarint */
  method PutVarint(v: nat) returns (p: seq<byte>)
    requires v < U64
    ensures p == Encode(v)
  {
    if v <= 0x7f { return [v % 128]; }
    if v <= 0x3fff {
      TwoBytes(v);
      return [v / 128 % 128 + 128, v % 128];
    }
    p := PutVarint64(v);
  }

  // putVarint64
  method PutVarint64(v: nat) returns (p: seq<byte>)
    requires 128 <= v < U64
    ensures p == Encode(v)
  {
    if v >= U56 {
      p := PutRun(v / 256, 8);
      p := p + [v % 256];
    } else {
      p := PutDigits(v);
    }
  }

  // The loop that fills p[k - 1] down to p[0].
  method PutRun(w: nat, k: nat) returns (p: seq<byte>)
    ensures p == Marked(w, k)
  {
    p := [];
    var v, i := w, k;
    while i > 0
      invariant 0 <= i <= k && v == Shifted(w, k - i) && p == Marked(w, k)[i..]
    {
      MarkedAt(w, k, i - 1);
      ShiftedNext(w, k - i);
      p := [v % 128 + 128] + p;
      v, i := v / 128, i - 1;
    }
  }

  method PutDigits(v0: nat) returns (p: seq<byte>)
    requires 128 <= v0 < U56
    ensures p == Encode(v0)
  {
    hide Encode, Marked;
    var buf: seq<byte>, v, n := [v0 % 128 + 128], v0 / 128, 1;
    ghost var len := Len(v0);
    ShiftedLen(v0, 0);
    while v != 0
      invariant 1 <= n <= len && |buf| == n && v == Shifted(v0, n) && (v != 0 <==> n < len)
      invariant forall j | 0 <= j < n :: buf[j] == Shifted(v0, j) % 128 + 128
      decreases len - n
    {
      ShiftedNext(v0, n);
      ShiftedLen(v0, n);
      buf := buf + [v % 128 + 128];
      v, n := v / 128, n + 1;
    }
    buf := buf[0 := buf[0] - 128];
    p := [];
    var j := n - 1;
    while j >= 0
      invariant -1 <= j < n && |p| == n - 1 - j && forall i | 0 <= i < |p| :: p[i] == buf[n - 1 - i]
    {
      p := p + [buf[j]];
      j := j - 1;
    }
    Reversed(v0, n, p);
  }

  lemma Reversed(v: nat, n: nat, p: seq<byte>)
    requires 128 <= v < U56 && n == Len(v) && |p| == n && p[n - 1] == v % 128
    requires forall i | 0 <= i < n - 1 :: p[i] == Shifted(v, n - 1 - i) % 128 + 128
    ensures p == Encode(v)
  {
    var d := Marked(v / 128, n - 1);
    forall i | 0 <= i < n - 1 ensures p[i] == d[i] {
      MarkedAt(v / 128, n - 1, i);
    }
    assert p == d + [v % 128];
  }

  // ---------- the payload size as cells are parsed ----------

  // How the value and the digits of an integer go together.
  lemma {:induction false} ReadValue(p: seq<byte>, k: nat, acc: nat)
    requires Has(p, k) && k <= 8
    ensures var (v, n) := Value(p, k, acc);
            if n < 9 then v == Read(acc, p[..n - k]) else v == Read(acc, p[..8 - k]) * 256 + p[8 - k]
    decreases |p|
  {
    if k == 8 {
      assert p[..0] == [];
    } else if p[0] < 128 {
      assert p[..1][1..] == [] && Read(acc, p[..1]) == Read(acc * 128 + p[0] % 128, p[..1][1..]);
    } else {
      ReadValue(p[1..], k + 1, acc * 128 + (p[0] - 128));
      var n := Value(p, k, acc).1;
      assert p[..n - k][1..] == p[1..][..n - k - 1] && (n == 9 ==> p[..8 - k][1..] == p[1..][..7 - k]);
    }
  }

  // All bytes of an integer but the last are marked.
  lemma {:induction false} MarkedUpTo(p: seq<byte>, k: nat, acc: nat)
    requires Has(p, k) && k <= 8
    ensures var n := Value(p, k, acc).1 - k;
            (forall i | 0 <= i < n - 1 :: p[i] >= 128) && (n + k < 9 ==> p[n - 1] < 128)
    decreases |p|
  {
    if k < 8 && p[0] >= 128 {
      MarkedUpTo(p[1..], k + 1, acc * 128 + (p[0] - 128));
      var n := Value(p, k, acc).1 - k;
      forall i | 0 < i < n - 1 ensures p[i] >= 128 { assert p[i] == p[1..][i - 1]; }
    }
  }

  // The digits of a run, each with the weight of its place; the first has the most.
  function Weighted(d: seq<byte>): nat {
    if d == [] then 0 else d[0] % 128 * Pow128(|d| - 1) + Weighted(d[1..])
  }

  lemma {:induction false} ReadWeighted(acc: nat, d: seq<byte>)
    ensures Read(acc, d) == acc * Pow128(|d|) + Weighted(d)
    decreases |d|
  {
    if d != [] {
      var x, k := d[0] % 128, Pow128(|d| - 1);
      ReadWeighted(acc * 128 + x, d[1..]);
      assert (acc * 128 + x) * k == acc * (128 * k) + x * k;
    }
  }

  /** What the bytes of an integer mean: it ends with the first byte below 128, or the ninth. Each byte is worth its low
      seven bits, at 128 times the weight of the next; but a ninth byte is worth all its eight bits. */
  lemma ValueOf(p: seq<byte>)
    requires Has(p, 0)
    ensures var (v, n) := Value(p, 0, 0);
            && 1 <= n <= 9 && n <= |p| && (forall i | 0 <= i < n - 1 :: p[i] >= 128) && (n < 9 ==> p[n - 1] < 128)
            && v == if n < 9 then Weighted(p[..n]) else Weighted(p[..8]) * 256 + p[8]
  {
    hide Value, Has, Read;
    ValueLength(p);
    MarkedUpTo(p, 0, 0);
    ReadValue(p, 0, 0);
    var n := Value(p, 0, 0).1;
    ReadWeighted(0, p[..if n < 9 then n else 8]);
  }

  /** The loop that reads the payload size of a cell. */
  method ReadSize(p: seq<byte>) returns (nPayload: nat, n: nat)
    requires Has(p, 0)
    ensures n == Value(p, 0, 0).1 && nPayload == Read(0, p[..n]) % U32
  {
    hide Read;
    MarkedUpTo(p, 0, 0);
    ghost var end := Value(p, 0, 0).1;
    ReadFirst(p);
    nPayload := p[0];
    var i := 0;
    if nPayload >= 0x80 {
      nPayload := nPayload % 128;
      i := 1;
      ReadNext(p, 1);
      nPayload := nPayload * 128 + p[1] % 128;
      while p[i] >= 0x80 && i < 8
        invariant 1 <= i < end && nPayload == Read(0, p[..i + 1])
        decreases end - i
      {
        i := i + 1;
        ReadNext(p, i);
        nPayload := nPayload * 128 + p[i] % 128;
      }
      nPayload := nPayload % U32;
    }
    n := i + 1;
  }

  lemma ReadFirst(p: seq<byte>)
    requires p != []
    ensures Read(0, p[..1]) == p[0] % 128
  {
    ReadNext(p, 0);
    assert p[..0] == [];
  }

  lemma ReadNext(p: seq<byte>, i: nat)
    requires i < |p|
    ensures Read(0, p[..i + 1]) == Read(0, p[..i]) * 128 + p[i] % 128
  {
    assert p[..i + 1] == p[..i] + [p[i]];
    ReadLast(0, p[..i], p[i]);
  }

  // getVarint32: too large a value is cut to the largest there is.
  function Value32(p: seq<byte>): nat
    requires Has(p, 0)
  {
    var v := Value(p, 0, 0).0;
    if v >= U32 then U32 - 1 else v
  }

  // What the loop makes of an integer: the last of nine bytes has eight bits, and the loop reads seven.
  lemma SizeFound(p: seq<byte>)
    requires Has(p, 0)
    ensures var (v, n) := Value(p, 0, 0); Read(0, p[..n]) == if n < 9 then v else v / 256 * 128 + v % 128
  {
    hide Read, Has, Value;
    ReadValue(p, 0, 0);
    ValueLength(p);
    if Value(p, 0, 0).1 == 9 { ReadNext(p, 8); }
  }

  /** The loop is meant to give what getVarint32 gives. For a value that fits in 32 bits it does so exactly if the value
      is written in fewer than nine bytes or is less than 128. For a larger one it does so exactly if the 32 bits that
      the loop keeps are all ones. */
  lemma SizeIsValue(p: seq<byte>)
    requires Has(p, 0)
    ensures var (v, n) := Value(p, 0, 0);
            Read(0, p[..n]) % U32 == Value32(p) <==>
              if v < U32 then n < 9 || v < 128 else (if n < 9 then v else v / 256 * 128 + v % 128) % U32 == U32 - 1
  {
    hide Read, Has, Value;
    SizeFound(p);
    ValueLength(p);
    var v := Value(p, 0, 0).0;
    if v < U32 {
      assert v % U32 == v;
      LastBits(v / 256, v % 256);
    }
  }

  // Five bytes for 2^32, which the loop takes for zero and getVarint32 for the largest value there is.
  lemma SizeOverflows()
    ensures var p := Encode(U32); Has(p, 0) && Value(p, 0, 0) == (U32, 5) && Read(0, p[..5]) % U32 == 0
  {
    hide Encode;
    RoundTrip(U32, []);
    assert Encode(U32) + [] == Encode(U32);
    FiveBytes();
    hide Has, Value, Read;
    SizeFound(Encode(U32));
  }

  lemma FiveBytes()
    ensures |Encode(U32)| == 5
  {
    assert Len(U32) == 1 + Len(U32 / 128);
    assert Len(U32 / 128) == 1 + Len(0x4_0000);
    assert Len(0x4_0000) == 1 + Len(0x800);
    assert Len(0x800) == 2;
  }

  // Nine bytes for 128, which the loop takes for zero.
  lemma SizeDiffers() returns (p: seq<byte>)
    ensures Has(p, 0) && Value(p, 0, 0) == (128, 9) && Read(0, p[..9]) % U32 == 0
  {
    var d := OnlyMarks(8);
    p := d + [128];
    ReadBack(d, 128, []);
    assert p + [] == p;
    hide Has, Value, Read;
    SizeFound(p);
  }

  lemma OnlyMarks(k: nat) returns (d: seq<byte>)
    ensures |d| == k && (forall i | 0 <= i < k :: d[i] >= 128) && Read(0, d) == 0
  {
    d := Marked(0, k);
    ReadMarked(0, k);
  }

  lemma ValueLength(p: seq<byte>)
    requires Has(p, 0)
    ensures 1 <= Value(p, 0, 0).1 <= 9 && Value(p, 0, 0).1 <= |p|
  {
  }

  // Seven bits of the last byte are all of it exactly if it has no more and nothing came before.
  lemma LastBits(acc: nat, x: byte)
    requires acc * 256 + x < U32
    ensures (acc * 128 + x % 128) % U32 == acc * 256 + x <==> acc * 256 + x < 128
  {
    assert acc * 128 + x % 128 < U32;
  }

  // What the loop makes of an integer that was written.
  lemma SizeWritten(v: nat, rest: seq<byte>)
    requires v < U32
    ensures var p := Encode(v) + rest;
              Has(p, 0) && Value(p, 0, 0).1 == |Encode(v)| <= 8
              && Read(0, p[..|Encode(v)|]) % U32 == v
  {
    RoundTrip(v, rest);
    Short(v);
    SizeIsValue(Encode(v) + rest);
  }

  // ---------- reading without masks ----------

  // Seven or eight bits to the left, in a 64-bit word.
  function Shl7(v: nat): nat { v * 128 % U64 }
  function Shl8(v: nat): nat { v * 256 % U64 }

  function Mark(x: byte): nat { if x < 128 then 0 else 128 }

  // k marked bytes have been read: the word is their value with marks t in it.
  ghost predicate Reading(p: seq<byte>, k: nat, word: nat, t: nat) {
    && Has(p, 0) && k <= 8 && k < |p| && (forall i | 0 <= i < k :: p[i] >= 128)
    && word == Xor(Read(0, p[..k]), t) && Read(0, p[..k]) < Pow128(k) && t < Pow2(28)
    && Has(p[k..], k) && Value(p, 0, 0) == Value(p[k..], k, Read(0, p[..k]))
  }

  lemma ReadingStarts(p: seq<byte>)
    requires Has(p, 0)
    ensures Reading(p, 0, 0, 0)
  {
    assert p[..0] == [] && p[0..] == p;
    assert Pow2(28) >= 1 && Pow128(0) == 1;
  }

  // Marks t in the word are seven bits further to the left after the next byte.
  lemma PushByte(m: nat, t: nat, x: byte)
    ensures Xor(128 * Xor(m, t), x) == Xor(128 * m + x % 128, Xor(128 * t, Mark(x)))
  {
    hide Xor;
    var y := x % 128;
    Seven();
    XorShifted(m, t, 7);
    XorApart(Mark(x) / 128, y, 7);
    XorComm(Mark(x), y);
    XorSwap(128 * m, 128 * t, y, Mark(x));
    XorApart(m, y, 7);
  }

  lemma Seven()
    ensures Pow2(7) == 128 && Pow2(8) == 256
  {
    assert Pow2(4) == 16;
  }

  lemma {:induction false} PowSeven(k: nat)
    ensures Pow128(k) == Pow2(7 * k)
    decreases k
  {
    if k > 0 {
      PowSeven(k - 1);
      SevenUp(7 * (k - 1));
    }
  }

  lemma SevenUp(n: nat)
    ensures Pow2(n + 7) == 128 * Pow2(n)
  {
    assert Pow2(n + 2) == 4 * Pow2(n);
    assert Pow2(n + 4) == 4 * Pow2(n + 2);
    assert Pow2(n + 6) == 4 * Pow2(n + 4);
  }

  lemma {:induction false} PowGrows(a: nat, b: nat)
    requires a <= b
    ensures Pow2(a) <= Pow2(b)
    decreases b
  {
    if a < b { PowGrows(a, b - 1); }
  }

  lemma Sizes()
    ensures Pow2(56) == U56 && Pow2(28) == 0x1000_0000
  {
    Pow8();
    PowSeven(8);
    PowSeven(4);
    assert Pow128(4) == 0x1000_0000;
  }

  // Nothing is lost to the left.
  lemma WordFits(m: nat, k: nat, t: nat)
    requires k <= 8 && m < Pow128(k) && t < Pow2(28)
    ensures Xor(m, t) < U56
    ensures Shl7(Xor(m, t)) == 128 * Xor(m, t) && Shl8(Xor(m, t)) == 256 * Xor(m, t)
  {
    hide Xor, Pow2, Pow128, Shl7, Shl8;
    PowSeven(k);
    PowGrows(7 * k, 56);
    PowGrows(28, 56);
    XorBelow(m, t, 56);
    Sizes();
    NoLoss(Xor(m, t));
  }

  lemma NoLoss(w: nat)
    requires w < U56
    ensures Shl7(w) == 128 * w && Shl8(w) == 256 * w
  {
  }

  // The next byte, with c to be taken out of the word.
  lemma ReadingNext(p: seq<byte>, k: nat, word: nat, t: nat, c: nat, word': nat)
    requires Reading(p, k, word, t) && k < 8 && word' == Xor(Xor(Shl7(word), c), p[k])
    ensures word' == Xor(Read(0, p[..k + 1]), Xor(Xor(128 * t, c), Mark(p[k])))
    ensures p[k] < 128 ==> Value(p, 0, 0) == (Read(0, p[..k + 1]), k + 1)
    ensures p[k] >= 128 && Xor(Xor(128 * t, c), 128) < Pow2(28) ==>
              Reading(p, k + 1, word', Xor(Xor(128 * t, c), 128))
  {
    hide Xor, Has, Value, Read, Pow2, Pow128, Shl7;
    var m, x := Read(0, p[..k]), p[k];
    WordFits(m, k, t);
    ReadNext(p, k);
    WordNext(m, t, c, x);
    TailNext(p, k, m);
    DigitFits(m, k, x);
  }

  lemma DigitFits(m: nat, k: nat, x: byte)
    requires m < Pow128(k)
    ensures m * 128 + x % 128 < Pow128(k + 1)
  {
  }

  lemma WordNext(m: nat, t: nat, c: nat, x: byte)
    ensures Xor(Xor(128 * Xor(m, t), c), x) == Xor(m * 128 + x % 128, Xor(Xor(128 * t, c), Mark(x)))
  {
    hide Xor;
    var k := 128 * Xor(m, t);
    XorAssoc(k, c, x);
    XorComm(c, x);
    XorAssoc(k, x, c);
    PushByte(m, t, x);
    XorAssoc(128 * m + x % 128, Xor(128 * t, Mark(x)), c);
    XorAssoc(128 * t, Mark(x), c);
    XorComm(Mark(x), c);
    XorAssoc(128 * t, c, Mark(x));
  }

  lemma TailNext(p: seq<byte>, k: nat, m: nat)
    requires k < 8 && k < |p| && Has(p[k..], k)
    ensures p[k] < 128 ==> Value(p[k..], k, m) == (m * 128 + p[k] % 128, k + 1)
    ensures p[k] >= 128 ==>
              k + 1 < |p| && Has(p[k + 1..], k + 1)
              && Value(p[k..], k, m) == Value(p[k + 1..], k + 1, m * 128 + p[k] % 128)
  {
    assert p[k..][1..] == p[k + 1..];
  }

  // The ninth byte.
  lemma ReadingLast(p: seq<byte>, word: nat, word': nat)
    requires Reading(p, 8, word, 128) && word' == Xor(Xor(Shl8(word), 0x8000), p[8])
    ensures Value(p, 0, 0) == (word', 9)
  {
    hide Xor, Read, Pow2, Pow128, Shl8;
    var m := Read(0, p[..8]);
    WordFits(m, 8, 128);
    Seven();
    XorShifted(m, 128, 8);
    XorTwice(256 * m, 0x8000);
    XorApart(m, p[8], 8);
  }

  lemma XorZero(a: nat)
    ensures Xor(a, 0) == a && Xor(0, a) == a
  {
  }

  lemma FirstByte(p: seq<byte>)
    requires Has(p, 0)
    ensures p[0] < 128 ==> Value(p, 0, 0) == (p[0], 1)
    ensures p[0] >= 128 ==> Reading(p, 1, p[0], 128)
  {
    hide Xor, Has, Value, Pow2, Pow128, Read, Reading;
    Nonempty(p);
    XorZero(0);
    XorZero(128);
    XorZero(p[0]);
    Sizes();
    ReadingStarts(p);
    ReadingNext(p, 0, 0, 0, 0, p[0]);
    ReadFirst(p);
  }

  lemma SecondByte(p: seq<byte>, word: nat)
    requires Reading(p, 1, word, 128)
    ensures var w := Xor(Shl7(word), p[1]);
            if p[1] < 128 then Value(p, 0, 0) == (Xor(w, 0x4000), 2) else Reading(p, 2, w, 0x4080)
  {
    hide Xor, Has, Value, Read, Pow128, Shl7;
    XorZero(Shl7(word));
    XorZero(0x4000);
    ReadingNext(p, 1, word, 128, 0, Xor(Shl7(word), p[1]));
    XorTwice(Read(0, p[..2]), 0x4000);
    MarkJoins(0x40);
    Sizes();
  }

  lemma ThirdByte(p: seq<byte>, word: nat)
    requires Reading(p, 2, word, 0x4080)
    ensures var w := Xor(Shl7(word), p[2]);
            if p[2] < 128 then Value(p, 0, 0) == (Xor(w, 0x20_4000), 3) else Reading(p, 3, w, 0x20_4080)
  {
    hide Xor, Has, Value, Read, Pow128, Shl7;
    XorZero(Shl7(word));
    XorZero(0x20_4000);
    ReadingNext(p, 2, word, 0x4080, 0, Xor(Shl7(word), p[2]));
    XorTwice(Read(0, p[..3]), 0x20_4000);
    MarkJoins(0x2040);
    Sizes();
  }

  lemma MarkJoins(a: nat)
    ensures Xor(256 * a, 128) == 256 * a + 128
  {
    Seven();
    XorApart(a, 128, 8);
  }

  // From the fourth byte on the marks before are taken out at once.
  lemma LaterByte(p: seq<byte>, k: nat, word: nat, t: nat)
    requires Reading(p, k, word, t) && k < 8
    ensures var w := Xor(Xor(Shl7(word), 128 * t), p[k]);
            if p[k] < 128 then Value(p, 0, 0) == (w, k + 1) else Reading(p, k + 1, w, 128)
  {
    hide Xor, Has, Value, Read, Pow128, Shl7;
    ReadingNext(p, k, word, t, 128 * t, Xor(Xor(Shl7(word), 128 * t), p[k]));
    XorSelf(128 * t);
    XorZero(Mark(p[k]));
    XorZero(Read(0, p[..k + 1]));
    Sizes();
  }

  /** sqlite3GetVarint: the marks are not masked away byte by byte but taken out of the word by exclusive or. */
  method GetVarint(p: seq<byte>) returns (v: nat, n: nat)
    requires Has(p, 0)
    ensures (v, n) == Value(p, 0, 0)
  {
    hide Xor, Has, Value, Read, Pow2, Pow128, Shl7, Shl8;
    FirstByte(p);
    Nonempty(p);
    var iKey: nat := p[0];
    if iKey < 0x80 { return iKey, 1; }
    SecondByte(p, iKey);
    var x := p[1];
    iKey := Xor(Shl7(iKey), x);
    if x < 0x80 { return Xor(iKey, 0x4000), 2; }
    ThirdByte(p, iKey);
    x := p[2];
    iKey := Xor(Shl7(iKey), x);
    if x < 0x80 { return Xor(iKey, 0x20_4000), 3; }
    LaterByte(p, 3, iKey, 0x20_4080);
    x := p[3];
    iKey := Xor(Xor(Shl7(iKey), 0x1020_4000), x);
    if x < 0x80 { return iKey, 4; }
    LaterByte(p, 4, iKey, 128);
    x := p[4];
    iKey := Xor(Xor(Shl7(iKey), 0x4000), x);
    if x < 0x80 { return iKey, 5; }
    LaterByte(p, 5, iKey, 128);
    x := p[5];
    iKey := Xor(Xor(Shl7(iKey), 0x4000), x);
    if x < 0x80 { return iKey, 6; }
    LaterByte(p, 6, iKey, 128);
    x := p[6];
    iKey := Xor(Xor(Shl7(iKey), 0x4000), x);
    if x < 0x80 { return iKey, 7; }
    LaterByte(p, 7, iKey, 128);
    x := p[7];
    iKey := Xor(Xor(Shl7(iKey), 0x4000), x);
    if x < 0x80 { return iKey, 8; }
    ReadingLast(p, iKey, Xor(Xor(Shl8(iKey), 0x8000), p[8]));
    iKey := Xor(Xor(Shl8(iKey), 0x8000), p[8]);
    return iKey, 9;
  }

  lemma Nonempty(p: seq<byte>)
    requires Has(p, 0)
    ensures p != []
  {
  }
}
