/** The information log in the last blocks of the disk (kernel/debug.c). */
module Log {
  import opened Bits
  import opened BufferCache
  import opened CacheSpec
  import opened DiskBytes
  import opened Halting
  import opened Seal

  const LOGSTART: nat := 900

  /** The characters of a C string: those before the first zero. */
  function CString(s: seq<byte>): (t: seq<byte>)
    ensures |t| <= |s|
    ensures forall i :: 0 <= i < |t| ==> t[i] != 0 && t[i] == s[i]
    ensures |t| < |s| ==> s[|t|] == 0
  {
    if s == [] || s[0] == 0 then [] else [s[0]] + CString(s[1..])
  }

  lemma CStringEnds(s: seq<byte>)
    requires 0 in s
    ensures |CString(s)| < |s|
  {
    var k :| 0 <= k < |s| && s[k] == 0;
    assert |CString(s)| <= k;
  }

  /** Bytes past the first n do not matter. */
  lemma SameText(c0: Cache, c: Cache, start: nat, a: seq<byte>, b: seq<byte>, n: nat)
    requires WroteOver(c0, c, start, a, n) && n <= |a| && n <= |b| && a[..n] == b[..n]
    ensures WroteOver(c0, c, start, b, n)
  {
    WroteOverMeans(c0, c, start, a, n);
    forall x | 0 <= x < DISKBYTES ensures FlatByte(c, x) == Overlay(c0, start, b, n, x) {
      assert FlatByte(c, x) == Overlay(c0, start, a, n, x);
      if start <= x < start + n {
        assert a[..n][x - start] == b[..n][x - start];
      }
    }
    WroteOverMeans(c0, c, start, b, n);
  }

  /** Reading the disk leaves the log as it is. */
  lemma LogKept(c0: Cache, c: Cache, d: Cache, start: nat, text: seq<byte>)
    requires WroteOver(c0, c, start, text, |text|) && LeftAsFound(c, d)
    ensures WroteOver(c0, d, start, text, |text|)
  {
    WroteOverMeans(c0, c, start, text, |text|);
    LeftAsFoundMeans(c, d);
    SameViewsFlat(c, d);
    forall x | 0 <= x < DISKBYTES ensures FlatByte(d, x) == Overlay(c0, start, text, |text|, x) {
      assert FlatByte(c, x) == Overlay(c0, start, text, |text|, x);
    }
    WroteOverMeans(c0, d, start, text, |text|);
  }

  class LogArea {
    var block_no: nat
    var off: nat
    /** Everything logged so far. */
    ghost var written: seq<byte>

    /** The disk is as it was in state `boot`, with the log over its last blocks. */
    ghost predicate Logged(cache: BufferPool, boot: Cache)
      reads this, cache, cache.head, cache.buf, cache.Arrays()
    {
      && cache.Good() && block_no < DISKSIZE && off <= BSIZE
      && block_no * BSIZE + off == LOGSTART * BSIZE + |written|
      && WroteOver(boot, cache.Abs(), LOGSTART * BSIZE, written, |written|)
    }

    constructor () {
      block_no, off, written := 0, 0, [];
    }

    method LogDataInit(cache: BufferPool)
      requires Ready(cache)
      modifies this
      ensures Logged(cache, cache.Abs()) && written == [] && block_no == 900 && off == 0
    {
      block_no := LOGSTART;
      off := 0;
      written := [];
      assert forall a :: a in cache.Arrays() ==> a as object != this;
      assert forall b :: b in cache.buf ==> b as object != this;
      StartWritten(cache.Abs(), LOGSTART * BSIZE, []);
    }

    /** One character: the next block if this one is full, then the byte. */
    method LogByte(cache: BufferPool, buff: Buffer, ghost slot: nat, x: byte,
                   ghost boot: Cache, ghost all: seq<byte>, ghost done: nat)
      returns (r: Result<Buffer>, ghost slot': nat)
      requires MidWrite(cache, buff, slot, block_no, off, done, boot, LOGSTART * BSIZE, all)
      requires done < |all| && x == all[done]
      modifies `block_no, `off, cache, cache.buf, cache.head, cache.Arrays()
      ensures cache.Good()
      ensures r.Ok? ==> MidWrite(cache, r.value, slot', block_no, off, done + 1, boot, LOGSTART * BSIZE, all)
      ensures Spare(boot) ==> (r.Ok? <==> LOGSTART * BSIZE + done < DISKBYTES)
      ensures r.Halt? && Spare(boot) ==> r == Halt(LogFull) && WroteOver(boot, cache.Abs(), LOGSTART * BSIZE, all, done)
    {
      OpenAvailable(SEAL, boot, block_no + 1);
      r, slot', block_no, off := WriteRound(cache, buff, slot, block_no, off, x, boot, LOGSTART * BSIZE, all, done);
      if r == Halt(BlockPastDisk) {
        r := Halt(LogFull);
      }
    }

    /** The body of logData; `all` is what was logged before and the string. */
    method Append(cache: BufferPool, prt_str: seq<byte>, ghost boot: Cache, ghost all: seq<byte>, ghost n: nat)
      returns (r: Result<()>)
      requires 0 in prt_str && |all| == n + |CString(prt_str)|
      requires forall i :: 0 <= i < |CString(prt_str)| ==> all[n + i] == prt_str[i]
      requires cache.Good() && block_no < DISKSIZE && off <= BSIZE && block_no * BSIZE + off == LOGSTART * BSIZE + n
      requires WroteOver(boot, cache.Abs(), LOGSTART * BSIZE, all, n)
      modifies `block_no, `off, cache, cache.buf, cache.head, cache.Arrays()
      ensures cache.Good()
      ensures r.Ok? ==> block_no < DISKSIZE && off <= BSIZE && block_no * BSIZE + off == LOGSTART * BSIZE + |all|
      ensures r.Ok? ==> WroteOver(boot, cache.Abs(), LOGSTART * BSIZE, all, |all|)
      ensures Spare(boot) ==> (r.Ok? <==> LOGSTART * BSIZE + |all| <= DISKBYTES)
      ensures Spare(boot) && r.Halt? ==>
        r == Halt(LogFull) && WroteOver(boot, cache.Abs(), LOGSTART * BSIZE, all, DISKBYTES - LOGSTART * BSIZE)
    {
      hide WritingAt, WrittenAt, BufferPool.ValidAt, Spare, Cached, CString;
      OpenAvailable(SEAL, boot, block_no);
      CStringEnds(prt_str);
      var i := 0;
      ghost var m := |CString(prt_str)|;
      var buff;
      ghost var slot: nat;
      buff, slot := BeginWrite(cache, block_no, boot, LOGSTART * BSIZE, all, n);
      if buff.Halt? {
        return Halt(buff.fault);
      }
      while prt_str[i] != 0
        invariant i <= m && buff.Ok?
        invariant MidWrite(cache, buff.value, slot, block_no, off, n + i, boot, LOGSTART * BSIZE, all)
        decreases m - i
      {
        buff, slot := LogByte(cache, buff.value, slot, prt_str[i], boot, all, n + i);
        if buff.Halt? {
          return Halt(buff.fault);
        }
        i := i + 1;
      }
      EndWrite(cache, buff.value, slot, block_no, boot, LOGSTART * BSIZE, all, n + i);
      return Ok(());
    }

    /** Appends a string to the log. With a spare buffer it fails exactly when
        the string does not fit on the disk, after writing what fits. */
    method LogData(cache: BufferPool, prt_str: seq<byte>, ghost boot: Cache) returns (r: Result<()>)
      requires Logged(cache, boot) && 0 in prt_str
      modifies this, cache, cache.buf, cache.head, cache.Arrays()
      ensures var all := old(written) + CString(prt_str);
        && cache.Good()
        && (r.Ok? ==> Logged(cache, boot) && written == all)
        && (Spare(boot) ==> (r.Ok? <==> 921600 + |all| <= 1024000))
        && (Spare(boot) && r.Halt? ==>
              r == Halt(LogFull) && WroteOver(boot, cache.Abs(), 921600, all, 102400))
    {
      ghost var all := written + CString(prt_str);
      assert all[..|written|] == written[..|written|];
      SameText(boot, cache.Abs(), LOGSTART * BSIZE, written, all, |written|);
      r := Append(cache, prt_str, boot, all, |written|);
      if r.Ok? {
        written := all;
        assert forall a :: a in cache.Arrays() ==> a as object != this;
        assert forall b :: b in cache.buf ==> b as object != this;
      }
    }
  }

  /** What Logged means for the disk: the log area up to the log's position
      holds all that was logged, and every other byte is as it was. */
  lemma LogIsOnDisk(log: LogArea, cache: BufferPool, boot: Cache, a: nat)
    requires log.Logged(cache, boot) && a < DISKBYTES
    ensures |boot.disk| == |cache.Abs().disk| == DISKSIZE && OnDisk(boot)
    ensures FlatByte(cache.Abs(), a) ==
      if 921600 <= a < log.block_no * 1024 + log.off then log.written[a - 921600]
      else FlatByte(boot, a)
    ensures Clean(boot) ==> FlatByte(cache.Abs(), a) == cache.Abs().disk[a / BSIZE][a % BSIZE]
  {
    var start := LOGSTART * BSIZE;
    WroteOverMeans(boot, cache.Abs(), start, log.written, |log.written|);
    assert FlatByte(cache.Abs(), a) == Overlay(boot, start, log.written, |log.written|, a);
    if Clean(boot) {
      CleanFlat(cache.Abs(), a);
    }
  }
}
