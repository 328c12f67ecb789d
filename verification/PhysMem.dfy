/**
 The 500 physical pages that the page allocator hands out, as 512 words each,
 with their byte view and the directory links their words encode.
 */
module PhysMem {
  import opened Bits
  import opened Sv39

  const NUM_PAGES: nat := 500

  /** The pool lies inside RAM, which ends at page 0x88000. */
  type PoolBase = p: nat | p + 500 <= 0x8_8000 witness 0x8_0000

  /** First page after the kernel image; fixed by the linker. */
  const START_PAGE: PoolBase

  const MEM_WORDS: nat := 256000

  type Mem = m: seq<uint64> | |m| == 256000 witness seq(256000, _ => 0)

  predicate InPool(p: nat) {
    START_PAGE <= p < START_PAGE + NUM_PAGES
  }

  predicate IsSlot(p: nat, i: nat) {
    InPool(p) && i < NUM_PTE
  }

  function WordIndex(p: nat, i: nat): (k: nat)
    requires IsSlot(p, i)
    ensures k < MEM_WORDS
  {
    (p - START_PAGE) * 512 + i
  }

  /** Word i of page p. */
  function At(m: Mem, p: nat, i: nat): uint64
    requires IsSlot(p, i)
  {
    m[WordIndex(p, i)]
  }

  function Put(m: Mem, p: nat, i: nat, w: uint64): (r: Mem)
    requires IsSlot(p, i)
    ensures forall q: nat, j: nat :: IsSlot(q, j) ==> At(r, q, j) == if q == p && j == i then w else At(m, q, j)
  {
    m[WordIndex(p, i) := w]
  }

  /** Every valid entry of every page, decoded to the page number it holds. */
  type Links = map<(nat, nat), nat>

  ghost predicate IsLinksOf(links: Links, m: Mem) {
    && (forall p: nat, i: nat :: (p, i) in links ==> IsSlot(p, i))
    && (forall p: nat, i: nat :: IsSlot(p, i) ==>
          ((p, i) in links <==> IsValidEntry(At(m, p, i))))
    && (forall p: nat, i: nat :: (p, i) in links ==> links[(p, i)] == GetPageNum(At(m, p, i)))
  }

  ghost function LinksOf(m: Mem): Links {
    LinksUpTo(m, |m|)
  }

  /** Links encoded in the first k words. */
  ghost function LinksUpTo(m: Mem, k: nat): Links
    requires k <= |m|
  {
    if k == 0 then map[]
    else
      var rest := LinksUpTo(m, k - 1);
      var w := m[k - 1];
      if IsValidEntry(w) then rest[(START_PAGE + (k - 1) / 512, (k - 1) % 512) := GetPageNum(w)] else rest
  }

  lemma {:induction false} LinksUpToSpec(m: Mem, k: nat, p: nat, i: nat)
    requires k <= |m|
    ensures (p, i) in LinksUpTo(m, k) <==>
            IsSlot(p, i) && WordIndex(p, i) < k && IsValidEntry(At(m, p, i))
    ensures (p, i) in LinksUpTo(m, k) ==> LinksUpTo(m, k)[(p, i)] == GetPageNum(At(m, p, i))
  {
    if k > 0 {
      LinksUpToSpec(m, k - 1, p, i);
      var q, j := START_PAGE + (k - 1) / 512, (k - 1) % 512;
      assert IsSlot(q, j) && WordIndex(q, j) == k - 1;
      assert IsSlot(p, i) && WordIndex(p, i) == k - 1 ==> p == q && i == j;
    }
  }

  lemma LinksSpec(m: Mem)
    ensures IsLinksOf(LinksOf(m), m)
  {
    forall p: nat, i: nat
      ensures (p, i) in LinksOf(m) ==> IsSlot(p, i)
      ensures IsSlot(p, i) ==> ((p, i) in LinksOf(m) <==> IsValidEntry(At(m, p, i)))
      ensures (p, i) in LinksOf(m) ==> LinksOf(m)[(p, i)] == GetPageNum(At(m, p, i))
    {
      LinksUpToSpec(m, |m|, p, i);
    }
  }

  lemma LinksUnique(links: Links, m: Mem)
    requires IsLinksOf(links, m)
    ensures links == LinksOf(m)
  {
    var l := LinksOf(m);
    LinksSpec(m);
    forall x | x in links || x in l ensures x in l && x in links && l[x] == links[x] {
      assert x == (x.0, x.1);
      assert IsSlot(x.0, x.1);
    }
    assert links.Keys == l.Keys;
  }

  /** Storing a valid entry adds or redirects one link. */
  lemma PutLink(m: Mem, p: nat, i: nat, w: uint64)
    requires IsSlot(p, i) && IsValidEntry(w)
    ensures LinksOf(Put(m, p, i, w)) == LinksOf(m)[(p, i) := GetPageNum(w)]
  {
    LinksSpec(m);
    LinksUnique(LinksOf(m)[(p, i) := GetPageNum(w)], Put(m, p, i, w));
  }

  /** Storing an invalid entry removes at most one link. */
  lemma PutUnlink(m: Mem, p: nat, i: nat, w: uint64)
    requires IsSlot(p, i) && !IsValidEntry(w)
    ensures LinksOf(Put(m, p, i, w)) == LinksOf(m) - {(p, i)}
  {
    LinksSpec(m);
    LinksUnique(LinksOf(m) - {(p, i)}, Put(m, p, i, w));
  }

  // Byte view
  // ---------

  /** Byte k of a word, least significant first. */
  function ByteOf(w: nat, k: nat): byte {
    if k == 0 then w % 256 else ByteOf(w / 256, k - 1)
  }

  function WithByte(w: nat, k: nat, b: byte): nat {
    if k == 0 then w / 256 * 256 + b else 256 * WithByte(w / 256, k - 1, b) + w % 256
  }

  function Pow256(n: nat): nat {
    if n == 0 then 1 else 256 * Pow256(n - 1)
  }

  lemma {:induction false} WithByteBound(w: nat, k: nat, b: byte, n: nat)
    requires w < Pow256(n) && k < n
    ensures WithByte(w, k, b) < Pow256(n)
  {
    var p := Pow256(n - 1);
    var q := w / 256;
    assert w == 256 * q + w % 256;
    assert q < p;
    if k > 0 {
      WithByteBound(q, k - 1, b, n - 1);
    } else {
      assert WithByte(w, k, b) == q * 256 + b;
    }
  }

  lemma {:induction false} WithByteGet(w: nat, k: nat, b: byte, j: nat)
    ensures ByteOf(WithByte(w, k, b), j) == if j == k then b else ByteOf(w, j)
  {
    if k > 0 {
      if j > 0 {
        WithByteGet(w / 256, k - 1, b, j - 1);
      }
    } else {
      LastByteReplaced(w, b);
    }
  }

  lemma LastByteReplaced(w: nat, b: byte)
    ensures (w / 256 * 256 + b) / 256 == w / 256 && (w / 256 * 256 + b) % 256 == b
  {
  }

  function SetByte(w: uint64, k: nat, b: byte): (r: uint64)
    requires k < 8
    ensures r == WithByte(w, k, b)
  {
    EightBytes();
    WithByteBound(w, k, b, 8);
    WithByte(w, k, b)
  }

  /** Byte o of page p. */
  function ByteAt(m: Mem, p: nat, o: nat): byte
    requires InPool(p) && o < PGSIZE
  {
    ByteOf(At(m, p, o / 8), o % 8)
  }

  function PutByte(m: Mem, p: nat, o: nat, b: byte): Mem
    requires InPool(p) && o < PGSIZE
  {
    Put(m, p, o / 8, SetByte(At(m, p, o / 8), o % 8, b))
  }

  /** Storing a byte changes that byte and no other. */
  lemma PutByteGet(m: Mem, p: nat, o: nat, b: byte, q: nat, u: nat)
    requires InPool(p) && o < PGSIZE && InPool(q) && u < PGSIZE
    ensures ByteAt(PutByte(m, p, o, b), q, u) == if q == p && u == o then b else ByteAt(m, q, u)
  {
    WithByteGet(At(m, p, o / 8), o % 8, b, u % 8);
    assert IsSlot(q, u / 8);
    if q == p && u / 8 == o / 8 && u % 8 == o % 8 {
      assert u == o;
    }
  }

  /** A byte store can only disturb links out of its own page. */
  lemma PutByteLinks(m: Mem, p: nat, o: nat, b: byte)
    requires InPool(p) && o < PGSIZE
    ensures forall q: nat, i: nat :: q != p ==>
              ((q, i) in LinksOf(PutByte(m, p, o, b)) <==> (q, i) in LinksOf(m))
    ensures forall q: nat, i: nat :: q != p && (q, i) in LinksOf(m) ==>
              LinksOf(PutByte(m, p, o, b))[(q, i)] == LinksOf(m)[(q, i)]
  {
    LinksSpec(m);
    LinksSpec(PutByte(m, p, o, b));
  }

  /** The number whose bytes these are, least significant first. */
  ghost function Number(b: seq<byte>): nat {
    if b == [] then 0 else b[0] + 256 * Number(b[1..])
  }

  lemma {:induction false} BytesMakeNumber(w: nat, b: seq<byte>)
    requires w < Pow256(|b|) && forall k :: 0 <= k < |b| ==> b[k] == ByteOf(w, k)
    ensures Number(b) == w
  {
    if b != [] {
      forall k | 0 <= k < |b[1..]| ensures b[1..][k] == ByteOf(w / 256, k) {
        assert b[1..][k] == ByteOf(w, k + 1);
      }
      BytesMakeNumber(w / 256, b[1..]);
    }
  }

  /** A word and the eight bytes at its address. */
  lemma WordIsBytes(m: Mem, p: nat, i: nat, b: seq<byte>)
    requires IsSlot(p, i) && |b| == 8 && forall k :: 0 <= k < 8 ==> b[k] == ByteAt(m, p, 8 * i + k)
    ensures At(m, p, i) == Number(b)
  {
    hide Number, ByteOf, At;
    EightBytes();
    forall k | 0 <= k < 8 ensures b[k] == ByteOf(At(m, p, i), k) {
      assert (8 * i + k) / 8 == i && (8 * i + k) % 8 == k;
    }
    BytesMakeNumber(At(m, p, i), b);
  }

  lemma EightBytes()
    ensures Pow256(8) == TWO64
  {
    assert Pow256(4) == 0x1_0000_0000;
    assert Pow256(8) == 256 * Pow256(7) == 256 * 256 * Pow256(6) == 256 * 256 * 256 * Pow256(5);
  }
}
