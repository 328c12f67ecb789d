/** Placing programs on the disk image (mkfs/r5o5_mkfs.c). */
module ImageBuilder {
  import opened Bits
  import opened CacheSpec
  import opened DiskBytes
  import opened Halting

  const BLOCK_SIZE: nat := 1024
  const IMAGE_SIZE: nat := 1024000
  const PROC_START: nat := 100
  const PROC_END: nat := 299
  /** First byte past the blocks for programs. */
  const PROC_LIMIT: nat := 307200

  const SPACE: byte := 32

  /** A line of the information file; both ends are inclusive. */
  datatype Record = Record(startBlock: int, startOffset: int, endBlock: int, endOffset: int)

  function Position(block: int, offset: int): int {
    BLOCK_SIZE * block + offset
  }

  /** The image with the first n bytes of a program put over it from byte `start` on. */
  ghost predicate Holds(image: array<byte>, before: seq<byte>, start: nat, prog: seq<byte>, n: nat)
    requires image.Length == |before| && n <= |prog| && start + n <= |before|
    reads image
  {
    forall a :: 0 <= a < image.Length ==> image[a] == if start <= a < start + n then prog[a - start] else before[a]
  }

  class Builder {
    const image: array<byte>
    var blockNum: int
    var offset: int
    var info: seq<Record>

    ghost predicate Valid()
      reads this
    {
      image.Length == IMAGE_SIZE && 0 <= offset < BLOCK_SIZE && Position(blockNum, offset) <= PROC_LIMIT
    }

    /** Where the next program goes. */
    ghost function Next(): int
      reads this
    {
      Position(blockNum, offset)
    }

    /** buildDisk: every byte a space. */
    constructor ()
      ensures Valid() && fresh(image) && Next() == PROC_START * BLOCK_SIZE && info == []
      ensures forall a :: 0 <= a < IMAGE_SIZE ==> image[a] == SPACE
    {
      image := new byte[IMAGE_SIZE](_ => SPACE);
      blockNum, offset, info := PROC_START, 0, [];
    }

    /** The copy loop: it stops at the end of the program, or when the blocks
        for programs are used up. */
    method Copy(prog: seq<byte>, start: nat) returns (ok: bool)
      requires Valid() && Next() == start
      modifies `blockNum, `offset, image
      ensures 0 <= offset < BLOCK_SIZE
      ensures ok <==> start + |prog| <= PROC_LIMIT
      ensures ok ==> Next() == start + |prog| && Holds(image, old(image[..]), start, prog, |prog|)
      ensures !ok ==> Holds(image, old(image[..]), start, prog, PROC_LIMIT - start)
    {
      var i := 0;
      var at := start;
      while true
        invariant 0 <= i <= |prog| && at == start + i && 0 <= offset <= BLOCK_SIZE
        invariant Next() == at <= PROC_LIMIT
        invariant Holds(image, old(image[..]), start, prog, i)
        decreases |prog| - i
      {
        blockNum := blockNum + offset / BLOCK_SIZE;
        offset := offset % BLOCK_SIZE;
        if i == |prog| {
          return true;
        }
        if blockNum >= PROC_END + 1 {
          return false;
        }
        image[at] := prog[i];
        at, i := at + 1, i + 1;
        offset := offset + 1;
      }
    }

    /** Stores a program where the position says, and moves the position to the
        program's last byte: the next program starts on it. A program that does
        not fit leaves the position where it was, though the bytes that did fit
        stay on the image. */
    method StoreProgram(prog: seq<byte>)
      requires Valid()
      modifies this, image
      ensures Valid()
      ensures old(Next()) < 0 ==> Next() == old(Next()) && info == old(info) && image[..] == old(image[..])
      ensures old(Next()) >= 0 && old(Next()) + |prog| <= PROC_LIMIT ==>
        && Next() == old(Next()) + |prog| - 1
        && info == old(info) + [Record(old(blockNum), old(offset), blockNum, offset)]
        && Holds(image, old(image[..]), old(Next()), prog, |prog|)
      ensures old(Next()) >= 0 && old(Next()) + |prog| > PROC_LIMIT ==>
        && blockNum == old(blockNum) && offset == old(offset) && info == old(info)
        && Holds(image, old(image[..]), old(Next()), prog, PROC_LIMIT - old(Next()))
    {
      if Position(blockNum, offset) < 0 {
        return;
      }
      var prevBlockNum, prevOffset := blockNum, offset;
      var ok := Copy(prog, Position(blockNum, offset));
      if !ok {
        blockNum, offset := prevBlockNum, prevOffset;
        return;
      }
      offset := (offset + BLOCK_SIZE - 1) % BLOCK_SIZE;
      if offset == BLOCK_SIZE - 1 {
        blockNum := blockNum - 1;
      }
      info := info + [Record(prevBlockNum, prevOffset, blockNum, offset)];
    }
  }

  // Reading it back
  // ---------------

  /** The kernel's disk is the image, block by block. */
  ghost predicate OnImage(c: Cache, image: seq<byte>) {
    && |image| == IMAGE_SIZE && |c.disk| == DISKSIZE
    && forall a :: 0 <= a < IMAGE_SIZE ==> c.disk[a / BLOCK_SIZE][a % BLOCK_SIZE] == image[a]
  }

  /** What readBytes delivers is what is on the image. */
  lemma ReadsImage(c: Cache, image: seq<byte>, start: nat, n: nat)
    requires Inv(c) && Clean(c) && OnImage(c, image) && start + n <= IMAGE_SIZE
    ensures FlatSlice(c, start, n) == image[start..start + n]
  {
    forall k | 0 <= k < n ensures FlatSlice(c, start, n)[k] == image[start + k] {
      FlatSliceAt(c, start, n, k);
      CleanFlat(c, start + k);
    }
  }

  /** A program read at its recorded start, before another one is stored. */
  lemma StoredThenRead(b: Builder, c: Cache, before: seq<byte>, start: nat, prog: seq<byte>)
    requires b.image.Length == IMAGE_SIZE == |before| && start + |prog| <= PROC_LIMIT
    requires Holds(b.image, before, start, prog, |prog|)
    requires Inv(c) && Clean(c) && OnImage(c, b.image[..])
    ensures FlatSlice(c, start, |prog|) == prog
  {
    ReadsImage(c, b.image[..], start, |prog|);
    assert b.image[..][start..start + |prog|] == prog;
  }

  // Several programs
  // ----------------

  /** An image with a program put over it. */
  ghost function Put(image: seq<byte>, start: nat, prog: seq<byte>): (r: seq<byte>)
    requires start + |prog| <= |image|
    ensures |r| == |image|
  {
    image[..start] + prog + image[start + |prog|..]
  }

  lemma PutAt(image: seq<byte>, start: nat, prog: seq<byte>, a: nat)
    requires start + |prog| <= |image| && a < |image|
    ensures Put(image, start, prog)[a] == if start <= a < start + |prog| then prog[a - start] else image[a]
  {
  }

  lemma HoldsPart(image: array<byte>, before: seq<byte>, start: nat, prog: seq<byte>, n: nat)
    requires image.Length == |before| && n <= |prog| && start + n <= |before|
    requires Holds(image, before, start, prog, n)
    ensures image[..] == Put(before, start, prog[..n])
  {
    forall a | 0 <= a < image.Length ensures image[a] == Put(before, start, prog[..n])[a] {
      PutAt(before, start, prog[..n], a);
    }
  }

  /** How many bytes of a program find room from `start` on. */
  ghost function Room(start: int, prog: seq<byte>): nat
    requires start <= PROC_LIMIT
  {
    if start < 0 then 0 else if start + |prog| <= PROC_LIMIT then |prog| else PROC_LIMIT - start
  }

  /** The program is stored as a whole and recorded. */
  ghost predicate Stored(start: int, prog: seq<byte>) {
    start >= 0 && start + |prog| <= PROC_LIMIT
  }

  /** Start of program k when each is stored in turn. A stored program moves it
      to the program's last byte, an empty one thus a step back; a program that
      does not fit leaves it. */
  ghost function StartOf(progs: seq<seq<byte>>, k: nat): (r: int)
    requires k <= |progs|
    ensures r <= PROC_LIMIT
  {
    if k == 0 then PROC_START * BLOCK_SIZE
    else
      var start := StartOf(progs, k - 1);
      if Stored(start, progs[k - 1]) then start + |progs[k - 1]| - 1 else start
  }

  ghost predicate IsStored(progs: seq<seq<byte>>, k: nat)
    requires k < |progs|
  {
    Stored(StartOf(progs, k), progs[k])
  }

  /** Program k leaves a byte at a, recorded or not. */
  ghost predicate Writes(progs: seq<seq<byte>>, k: nat, a: int)
    requires k < |progs|
  {
    StartOf(progs, k) <= a < StartOf(progs, k) + Room(StartOf(progs, k), progs[k])
  }

  ghost function ByteOf(progs: seq<seq<byte>>, k: nat, a: int): byte
    requires k < |progs| && Writes(progs, k, a)
  {
    progs[k][a - StartOf(progs, k)]
  }

  /** The image with the first k programs stored, each over those before it. */
  ghost function ImageOf(image: seq<byte>, progs: seq<seq<byte>>, k: nat): (r: seq<byte>)
    requires |image| == IMAGE_SIZE && k <= |progs|
    ensures |r| == IMAGE_SIZE
  {
    if k == 0 then image
    else
      var start, n := StartOf(progs, k - 1), Room(StartOf(progs, k - 1), progs[k - 1]);
      if start < 0 then ImageOf(image, progs, k - 1) else Put(ImageOf(image, progs, k - 1), start, progs[k - 1][..n])
  }

  /** Byte a of the image with one more program on it. */
  lemma ImageNext(image: seq<byte>, progs: seq<seq<byte>>, k: nat, a: nat)
    requires |image| == IMAGE_SIZE && k < |progs| && a < IMAGE_SIZE
    ensures ImageOf(image, progs, k + 1)[a] ==
      if Writes(progs, k, a) then ByteOf(progs, k, a) else ImageOf(image, progs, k)[a]
  {
    var start := StartOf(progs, k);
    if start >= 0 {
      PutAt(ImageOf(image, progs, k), start, progs[k][..Room(start, progs[k])], a);
    }
  }

  /** The last of the programs from..k-1 that leaves a byte at a. */
  ghost function LastWriter(progs: seq<seq<byte>>, from: nat, k: nat, a: int): (r: Option<nat>)
    requires k <= |progs|
    ensures r.Some? ==> from <= r.value < k && Writes(progs, r.value, a)
  {
    if k <= from then None
    else if Writes(progs, k - 1, a) then Some(k - 1)
    else LastWriter(progs, from, k - 1, a)
  }

  /** Each byte of the image is the one the last program wrote there. */
  lemma {:induction false} ImageIs(image: seq<byte>, progs: seq<seq<byte>>, from: nat, k: nat, a: nat)
    requires |image| == IMAGE_SIZE && from <= k <= |progs| && a < IMAGE_SIZE
    ensures var l := LastWriter(progs, from, k, a);
      ImageOf(image, progs, k)[a] == if l.Some? then ByteOf(progs, l.value, a) else ImageOf(image, progs, from)[a]
  {
    if from < k {
      ImageNext(image, progs, k - 1, a);
      ImageIs(image, progs, from, k - 1, a);
    }
  }

  /** At byte i of program j, no later program has left another byte. */
  ghost predicate Undisturbed(progs: seq<seq<byte>>, j: nat, k: nat, i: nat)
    requires j < k <= |progs| && i < |progs[j]|
  {
    var l := LastWriter(progs, j + 1, k, StartOf(progs, j) + i);
    l.Some? ==> ByteOf(progs, l.value, StartOf(progs, j) + i) == progs[j][i]
  }

  lemma ByteStays(image: seq<byte>, progs: seq<seq<byte>>, j: nat, k: nat, i: nat)
    requires |image| == IMAGE_SIZE && j < k <= |progs| && IsStored(progs, j) && i < |progs[j]|
    ensures ImageOf(image, progs, k)[StartOf(progs, j) + i] == progs[j][i] <==> Undisturbed(progs, j, k, i)
  {
    hide LastWriter, ImageOf, StartOf, Put;
    var a := StartOf(progs, j) + i;
    ImageNext(image, progs, j, a);
    ImageIs(image, progs, j + 1, k, a);
  }

  /** When k programs have been stored in turn, whatever their sizes, program j,
      if it was recorded, reads back as it was exactly when at each of its bytes
      the last later program that left a byte there left the same one. */
  lemma ReadsBackIff(image: seq<byte>, progs: seq<seq<byte>>, j: nat, k: nat)
    requires |image| == IMAGE_SIZE && j < k <= |progs| && IsStored(progs, j)
    ensures ImageOf(image, progs, k)[StartOf(progs, j)..StartOf(progs, j) + |progs[j]|] == progs[j]
            <==> forall i: nat :: i < |progs[j]| ==> Undisturbed(progs, j, k, i)
  {
    var s, p, all := StartOf(progs, j), progs[j], ImageOf(image, progs, k);
    forall i: nat | i < |p| ensures all[s..s + |p|][i] == p[i] <==> Undisturbed(progs, j, k, i) {
      ByteStays(image, progs, j, k, i);
    }
    if forall i: nat :: i < |p| ==> Undisturbed(progs, j, k, i) {
      assert forall i: nat :: i < |p| ==> all[s..s + |p|][i] == p[i];
    }
  }

  // Without empty files
  // -------------------

  ghost predicate NoneEmpty(progs: seq<seq<byte>>, from: nat, k: nat)
    requires k <= |progs|
  {
    forall l: nat :: from <= l < k ==> progs[l] != []
  }

  lemma {:induction false} StartsAscend(progs: seq<seq<byte>>, from: nat, k: nat)
    requires from <= k <= |progs| && NoneEmpty(progs, from, k)
    ensures StartOf(progs, k) >= StartOf(progs, from)
  {
    if from < k {
      StartsAscend(progs, from, k - 1);
      assert progs[k - 1] != [];
    }
  }

  /** Later programs start on the last byte of program j or behind it. */
  lemma OnlyLastByte(progs: seq<seq<byte>>, j: nat, k: nat, a: int)
    requires j < k <= |progs| && IsStored(progs, j) && NoneEmpty(progs, j, k)
    ensures var last := StartOf(progs, j) + |progs[j]| - 1;
      && (a < last ==> LastWriter(progs, j + 1, k, a).None?)
      && var l := LastWriter(progs, j + 1, k, last);
         l.Some? ==>
           && StartOf(progs, l.value) == last && progs[l.value] != []
           && ByteOf(progs, l.value, last) == progs[l.value][0]
  {
    var last := StartOf(progs, j) + |progs[j]| - 1;
    var l, m := LastWriter(progs, j + 1, k, a), LastWriter(progs, j + 1, k, last);
    if l.Some? {
      StartsAscend(progs, j + 1, l.value);
    }
    if m.Some? {
      StartsAscend(progs, j + 1, m.value);
    }
  }

  /** With no empty file from program j on, only its last byte can be lost: it
      reads back iff the last program to start there starts with that byte. */
  lemma ReadsBackIfLast(image: seq<byte>, progs: seq<seq<byte>>, j: nat, k: nat)
    requires |image| == IMAGE_SIZE && j < k <= |progs| && IsStored(progs, j) && NoneEmpty(progs, j, k)
    ensures progs[j] != []
    ensures var s, p := StartOf(progs, j), progs[j];
      var l := LastWriter(progs, j + 1, k, s + |p| - 1);
      ImageOf(image, progs, k)[s..s + |p|] == p
      <==> (l.Some? ==> progs[l.value] != [] && progs[l.value][0] == p[|p| - 1])
  {
    hide LastWriter, ImageOf, StartOf, Put, Undisturbed, Stored;
    var n := |progs[j]|;
    assert progs[j] != [];
    ReadsBackIff(image, progs, j, k);
    forall i: nat | i < n - 1 ensures Undisturbed(progs, j, k, i) {
      EarlierUndisturbed(progs, j, k, i);
    }
    LastUndisturbed(progs, j, k);
  }

  lemma EarlierUndisturbed(progs: seq<seq<byte>>, j: nat, k: nat, i: nat)
    requires j < k <= |progs| && IsStored(progs, j) && NoneEmpty(progs, j, k) && i < |progs[j]| - 1
    ensures Undisturbed(progs, j, k, i)
  {
    OnlyLastByte(progs, j, k, StartOf(progs, j) + i);
  }

  lemma LastUndisturbed(progs: seq<seq<byte>>, j: nat, k: nat)
    requires j < k <= |progs| && IsStored(progs, j) && NoneEmpty(progs, j, k) && progs[j] != []
    ensures var n := |progs[j]|; var l := LastWriter(progs, j + 1, k, StartOf(progs, j) + n - 1);
      Undisturbed(progs, j, k, n - 1) <==> (l.Some? ==> progs[l.value] != [] && progs[l.value][0] == progs[j][n - 1])
  {
    var n := |progs[j]|;
    assert StartOf(progs, j) + (n - 1) == StartOf(progs, j) + n - 1;
    OnlyLastByte(progs, j, k, StartOf(progs, j) + n - 1);
  }

  // Where it fails
  // --------------

  /** A program that does not fit is not recorded, and still spoils the one
      before it. */
  lemma OversizedSpoils(image: seq<byte>, progs: seq<seq<byte>>)
    requires |image| == IMAGE_SIZE && |progs| == 2 && progs[0] == [1, 2]
    requires |progs[1]| > PROC_LIMIT && progs[1][0] == 9
    ensures var s := StartOf(progs, 0);
      && IsStored(progs, 0) && !IsStored(progs, 1)
      && ImageOf(image, progs, 2)[s..s + 2] != [1, 2]
  {
    var s := StartOf(progs, 0);
    assert StartOf(progs, 1) == s + 1;
    assert Writes(progs, 1, s + 1) && ByteOf(progs, 1, s + 1) == 9;
    assert !Undisturbed(progs, 0, 2, 1);
    ReadsBackIff(image, progs, 0, 2);
  }

  /** An empty file moves the start a step back, into the program before it:
      here no later program starts on that program's last byte. */
  lemma EmptySpoils(image: seq<byte>, progs: seq<seq<byte>>)
    requires |image| == IMAGE_SIZE && progs == [[1, 2], [], [9, 2]]
    ensures var s := StartOf(progs, 0);
      && IsStored(progs, 0) && IsStored(progs, 1) && IsStored(progs, 2) && StartOf(progs, 2) == s
      && ImageOf(image, progs, 3)[s..s + 2] != [1, 2]
  {
    var s := StartOf(progs, 0);
    assert StartOf(progs, 1) == s + 1;
    assert StartOf(progs, 2) == s;
    assert Writes(progs, 2, s) && ByteOf(progs, 2, s) == 9;
    assert !Undisturbed(progs, 0, 3, 0);
    ReadsBackIff(image, progs, 0, 3);
  }

  // The whole image
  // ---------------

  /** The stored ones among the first k programs. */
  ghost function StoredOf(progs: seq<seq<byte>>, k: nat): (r: seq<nat>)
    requires k <= |progs|
    ensures forall i :: 0 <= i < |r| ==> r[i] < k
  {
    if k == 0 then []
    else if IsStored(progs, k - 1) then StoredOf(progs, k - 1) + [k - 1]
    else StoredOf(progs, k - 1)
  }

  /** A record says where the program's first and last byte are. */
  ghost predicate Recorded(r: Record, progs: seq<seq<byte>>, k: nat)
    requires k < |progs|
  {
    && Position(r.startBlock, r.startOffset) == StartOf(progs, k) && 0 <= r.startOffset < BLOCK_SIZE
    && Position(r.endBlock, r.endOffset) == StartOf(progs, k) + |progs[k]| - 1 && 0 <= r.endOffset < BLOCK_SIZE
  }

  /** The information file has a record for each stored program, in order. */
  ghost predicate Records(info: seq<Record>, progs: seq<seq<byte>>, k: nat)
    requires k <= |progs|
  {
    && |info| == |StoredOf(progs, k)|
    && forall i :: 0 <= i < |info| ==> Recorded(info[i], progs, StoredOf(progs, k)[i])
  }

  /** One more argument of main. */
  method StoreNext(b: Builder, progs: seq<seq<byte>>, k: nat, ghost image0: seq<byte>)
    requires |image0| == IMAGE_SIZE && k < |progs|
    requires b.Valid() && b.Next() == StartOf(progs, k) && b.image[..] == ImageOf(image0, progs, k)
        && Records(b.info, progs, k)
    modifies b, b.image
    ensures b.Valid() && b.Next() == StartOf(progs, k + 1)
    ensures b.image[..] == ImageOf(image0, progs, k + 1) && Records(b.info, progs, k + 1)
  {
    ghost var before, start := b.image[..], b.Next();
    b.StoreProgram(progs[k]);
    if start >= 0 {
      HoldsPart(b.image, before, start, progs[k], Room(start, progs[k]));
    }
  }

  /** What main stores, program after program. */
  method StoreAll(b: Builder, progs: seq<seq<byte>>)
    requires b.Valid() && b.Next() == PROC_START * BLOCK_SIZE && b.info == []
    modifies b, b.image
    ensures b.Valid() && b.Next() == StartOf(progs, |progs|)
    ensures b.image[..] == ImageOf(old(b.image[..]), progs, |progs|)
    ensures Records(b.info, progs, |progs|)
  {
    ghost var image0 := b.image[..];
    for k: nat := 0 to |progs|
      invariant b.Valid() && b.Next() == StartOf(progs, k)
      invariant b.image[..] == ImageOf(image0, progs, k) && Records(b.info, progs, k)
    {
      StoreNext(b, progs, k, image0);
    }
  }
}
