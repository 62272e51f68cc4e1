/** The bytes of a b-tree page: two-byte big-endian fields, the header, the cell
    pointer array and the chain of freeblocks. */
module PageBytes {
  import opened Common
  import opened PageLayout

  function Get2(s: seq<byte>, i: nat): (v: nat)
    requires i + 2 <= |s|
    ensures v < 65536
  {
    (s[i] as int) * 256 + s[i + 1] as int
  }

  function Put2(s: seq<byte>, i: nat, v: nat): (r: seq<byte>)
    requires i + 2 <= |s| && v < 65536
    ensures |r| == |s| && Get2(r, i) == v
    ensures forall p | 0 <= p < |s| && p != i && p != i + 1 :: r[p] == s[p]
  {
    s[i := v / 256][i + 1 := v % 256]
  }

  // memmove(&s[dst], &s[src], n)
  function Moved(s: seq<byte>, dst: nat, src: nat, n: nat): (r: seq<byte>)
    requires dst + n <= |s| && src + n <= |s|
    ensures |r| == |s|
    ensures forall p | 0 <= p < |s| :: r[p] == if dst <= p < dst + n then s[src + (p - dst)] else s[p]
  {
    s[..dst] + s[src..src + n] + s[dst + n..]
  }

  predicate Same(s: seq<byte>, t: seq<byte>, lo: nat, hi: nat) {
    |s| == |t| && hi <= |s| && forall p | lo <= p < hi :: s[p] == t[p]
  }

  // hdr is 100 on page 1 and 0 elsewhere; child is 4 on interior pages and 0 on leaves.
  datatype Geom = Geom(hdr: nat, child: nat, usable: nat) {
    function Off(): nat { hdr + 8 + child }
    predicate Ok() { Off() + 4 <= usable <= 65536 }
  }

  // Start of the cell content area; zero stands for 65536.
  function TopOf(s: seq<byte>, g: Geom): (t: nat)
    requires g.hdr + 7 <= |s|
    ensures 0 < t <= 65536
  {
    var v := Get2(s, g.hdr + 5);
    if v == 0 then 65536 else v
  }

  // Address of the pointer to the k-th freeblock: the page header, or the freeblock before it.
  function PtrOf(g: Geom, blocks: seq<Region>, k: nat): nat
    requires k <= |blocks|
  {
    if k == 0 then g.hdr + 1 else blocks[k - 1].start
  }

  function Target(blocks: seq<Region>, k: nat): nat {
    if k < |blocks| then blocks[k].start else 0
  }

  ghost predicate PtrAt(s: seq<byte>, g: Geom, blocks: seq<Region>, k: nat)
    requires k <= |blocks|
  {
    PtrOf(g, blocks, k) + 2 <= |s| && Get2(s, PtrOf(g, blocks, k)) == Target(blocks, k)
  }

  ghost predicate SizeAt(s: seq<byte>, b: Region) {
    b.start + 4 <= |s| && Get2(s, b.start + 2) == b.len
  }

  // The chain of freeblocks stored in s is exactly blocks.
  ghost predicate Linked(s: seq<byte>, g: Geom, blocks: seq<Region>) {
    && (forall k | 0 <= k <= |blocks| :: PtrAt(s, g, blocks, k))
    && (forall k | 0 <= k < |blocks| :: SizeAt(s, blocks[k]))
  }

  ghost predicate Pointers(s: seq<byte>, g: Geom, cells: seq<Region>) {
    && g.Off() + 2 * |cells| <= |s|
    && forall i | 0 <= i < |cells| :: Get2(s, g.Off() + 2 * i) == cells[i].start
  }

  function Body(s: seq<byte>, r: Region): (b: seq<byte>)
    requires r.End() <= |s|
    ensures |b| == r.len
  {
    s[r.start..r.End()]
  }

  // The page as a list of cells.
  ghost function Contents(s: seq<byte>, cells: seq<Region>): (c: seq<seq<byte>>)
    requires forall i | 0 <= i < |cells| :: cells[i].End() <= |s|
    ensures |c| == |cells| && forall i | 0 <= i < |c| :: c[i] == Body(s, cells[i])
  {
    seq(|cells|, i requires 0 <= i < |cells| => Body(s, cells[i]))
  }

  // First byte past the cell pointer array.
  function Gap(g: Geom, n: nat): nat { g.Off() + 2 * n }

  /** A well-formed page: the header, the pointers and the freeblock chain in s
      describe a tiling with at most 60 fragment bytes. */
  ghost predicate Page(s: seq<byte>, g: Geom, cells: seq<Region>, blocks: seq<Region>) {
    && g.Ok() && g.usable <= |s|
    && Get2(s, g.hdr + 3) == |cells| && s[g.hdr + 7] <= 60
    && Gap(g, |cells|) <= TopOf(s, g) && Pointers(s, g, cells) && Linked(s, g, blocks)
    && Tiling(TopOf(s, g), g.usable, s[g.hdr + 7], cells, blocks)
    && (cells == [] ==> TopOf(s, g) == g.usable && blocks == [] && s[g.hdr + 7] == 0)
  }

  // What the page has left: the gap, the freeblocks and the fragments.
  ghost function FreeBytes(s: seq<byte>, g: Geom, cells: seq<Region>, blocks: seq<Region>): int
    requires g.hdr + 8 <= |s|
  {
    TopOf(s, g) + s[g.hdr + 7] + Total(blocks) - Gap(g, |cells|)
  }

  // ---------- frame facts ----------

  lemma Get2Same(s: seq<byte>, t: seq<byte>, i: nat)
    requires Same(s, t, i, i + 2)
    ensures Get2(s, i) == Get2(t, i)
  {
  }

  lemma Get2Moved(s: seq<byte>, t: seq<byte>, i: nat, k: nat)
    requires i + 2 <= |s| && k + 2 <= |t| && s[i] == t[k] && s[i + 1] == t[k + 1]
    ensures Get2(s, i) == Get2(t, k)
  {
  }

  lemma TopSame(s: seq<byte>, t: seq<byte>, g: Geom)
    requires g.hdr + 7 <= |s| && Same(s, t, g.hdr + 5, g.hdr + 7)
    ensures TopOf(s, g) == TopOf(t, g)
  {
    Get2Same(s, t, g.hdr + 5);
  }

  lemma BodySame(s: seq<byte>, t: seq<byte>, r: Region)
    requires Same(s, t, r.start, r.End())
    ensures Body(s, r) == Body(t, r)
  {
  }

  lemma SizesSplice(s: seq<byte>, t: seq<byte>, g: Geom, blocks: seq<Region>, lo: nat, hi: nat, mid: seq<Region>)
    requires Linked(s, g, blocks) && lo <= hi <= |blocks| && |mid| <= 1
    requires forall k | 0 <= k < lo :: Same(s, t, blocks[k].start + 2, blocks[k].start + 4)
    requires forall k | hi <= k < |blocks| :: Same(s, t, blocks[k].start, blocks[k].start + 4)
    requires mid != [] ==> SizeAt(t, mid[0])
    ensures var b := Splice(blocks, lo, hi, mid); forall k | 0 <= k < |b| :: SizeAt(t, b[k])
  {
    var b := Splice(blocks, lo, hi, mid);
    var m := |mid|;
    forall k | 0 <= k < |b| ensures SizeAt(t, b[k]) {
      if k < lo {
        assert SizeAt(s, blocks[k]);
        Get2Same(s, t, blocks[k].start + 2);
      } else if k >= lo + m {
        assert SizeAt(s, blocks[k - lo - m + hi]);
        Get2Same(s, t, blocks[k - lo - m + hi].start + 2);
      }
    }
  }

  // Splicing the chain: redirect the pointer before the replaced blocks, write the new block's header.
  lemma LinkedSplice(s: seq<byte>, t: seq<byte>, g: Geom, blocks: seq<Region>, lo: nat, hi: nat, mid: seq<Region>)
    requires Linked(s, g, blocks) && lo <= hi <= |blocks| && |mid| <= 1
    requires forall k | 0 <= k <= |blocks| && k < lo :: Same(s, t, PtrOf(g, blocks, k), PtrOf(g, blocks, k) + 2)
    requires forall k | 0 <= k < lo :: Same(s, t, blocks[k].start + 2, blocks[k].start + 4)
    requires forall k | hi <= k < |blocks| :: Same(s, t, blocks[k].start, blocks[k].start + 4)
    requires PtrOf(g, blocks, lo) + 2 <= |t|
    requires Get2(t, PtrOf(g, blocks, lo)) == if mid == [] then Target(blocks, hi) else mid[0].start
    requires mid != [] ==> SizeAt(t, mid[0]) && Get2(t, mid[0].start) == Target(blocks, hi)
    ensures Linked(t, g, Splice(blocks, lo, hi, mid))
  {
    var b := Splice(blocks, lo, hi, mid);
    var m := |mid|;
    forall k | 0 <= k <= |b| ensures PtrAt(t, g, b, k) {
      if k < lo {
        assert PtrAt(s, g, blocks, k);
        Get2Same(s, t, PtrOf(g, blocks, k));
      } else if k > lo + m {
        assert PtrAt(s, g, blocks, k - lo - m + hi);
        Get2Same(s, t, PtrOf(g, blocks, k - lo - m + hi));
      }
    }
    SizesSplice(s, t, g, blocks, lo, hi, mid);
  }

  // Nothing in the chain changes when its bytes do not.
  lemma LinkedSame(s: seq<byte>, t: seq<byte>, g: Geom, blocks: seq<Region>)
    requires Linked(s, g, blocks) && Same(s, t, g.hdr + 1, g.hdr + 3)
    requires forall k | 0 <= k < |blocks| :: Same(s, t, blocks[k].start, blocks[k].start + 4)
    ensures Linked(t, g, blocks)
  {
    forall k | 0 <= k <= |blocks| ensures PtrAt(t, g, blocks, k) {
      assert PtrAt(s, g, blocks, k);
      Get2Same(s, t, PtrOf(g, blocks, k));
    }
    forall k | 0 <= k < |blocks| ensures SizeAt(t, blocks[k]) {
      assert SizeAt(s, blocks[k]);
      Get2Same(s, t, blocks[k].start + 2);
    }
  }

  lemma PointersSame(s: seq<byte>, t: seq<byte>, g: Geom, cells: seq<Region>)
    requires Pointers(s, g, cells) && Same(s, t, g.Off(), Gap(g, |cells|))
    ensures Pointers(t, g, cells)
  {
    forall i | 0 <= i < |cells| ensures Get2(t, g.Off() + 2 * i) == cells[i].start { Get2Same(s, t, g.Off() + 2 * i); }
  }

  lemma LinkedEmpty(s: seq<byte>, g: Geom)
    requires g.hdr + 3 <= |s| && Get2(s, g.hdr + 1) == 0
    ensures Linked(s, g, [])
  {
    assert PtrAt(s, g, [], 0);
  }
}
