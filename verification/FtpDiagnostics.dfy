/** The chunked file generator and comparison of `ftp_diagnostics.c`. */
module FtpDiagnostics {
  import opened Bits
  import opened Crc32

  const EIO := 5
  const EILSEQ := 84
  const CHUNK := 64
  const UINT32 := 0x1_0000_0000

  /** The byte at index i of a generated file. */
  function PatternByte(i: nat): byte { (31 * i + 7) % 256 }

  function Pattern(n: nat): (p: seq<byte>)
    ensures |p| == n
  {
    seq(n, i requires 0 <= i < n => PatternByte(i))
  }

  lemma PatternSteps(i: nat)
    ensures PatternByte(0) == 7 && PatternByte(i + 1) == (PatternByte(i) + 31) % 256
  {
    var q, r := (31 * i + 7) / 256, (31 * i + 7) % 256;
    SameRemainder(r + 31, q);
    assert 31 * (i + 1) + 7 == q * 256 + (r + 31);
  }

  /** (uint8_t)(((offset + index) * 31U + 7U) & UINT8_MAX), with the wrap of uint32_t written out. */
  function GeneratedByte(offset: nat, index: nat): byte {
    ((offset + index) % UINT32 * 31 % UINT32 + 7) % UINT32 % 256
  }

  lemma SameLowByte(r: nat, k: nat)
    ensures (k * UINT32 + r) % 256 == r % 256
  {
    SameRemainder(r, k * 0x100_0000);
  }

  lemma SameRemainder(r: nat, m: nat)
    ensures (m * 256 + r) % 256 == r % 256
  {
    assert m * 256 + r == (m + r / 256) * 256 + r % 256;
  }

  /** The low byte does not see the wrap of the wider product and sum. */
  lemma WrapIsHarmless(offset: nat, index: nat)
    ensures GeneratedByte(offset, index) == PatternByte(offset + index)
  {
    var n := offset + index;
    var q, r := n / UINT32, n % UINT32;
    var t, m := r * 31 / UINT32, r * 31 % UINT32;
    SameLowByte(m + 7, 31 * q + t);
    assert (31 * q + t) * UINT32 + (m + 7) == 31 * n + 7;
    SameLowByte((m + 7) % UINT32, (m + 7) / UINT32);
  }

  // ---------- the incremental checksum ----------

  /** crc32_ieee_update of section 8 of RFC 1952: complement, run the register, complement. */
  function Update(p: Word, crc: Word, data: seq<byte>): Word {
    Xor(Register(p, Xor(crc, Ones()), data), Ones())
  }

  lemma DoubleComplement(w: Word)
    ensures Xor(Xor(w, Ones()), Ones()) == w
  {
  }

  /** Updating chunk by chunk is updating with the whole. */
  lemma UpdateConcat(p: Word, crc: Word, a: seq<byte>, b: seq<byte>)
    ensures Update(p, crc, a + b) == Update(p, Update(p, crc, a), b)
  {
    DoubleComplement(Register(p, Xor(crc, Ones()), a));
    RegisterConcat(p, Xor(crc, Ones()), a, b);
  }

  lemma UpdateNothing(p: Word, crc: Word)
    ensures Update(p, crc, []) == crc
  {
    DoubleComplement(crc);
  }

  /** From a start of zero it is the ordinary checksum. */
  lemma UpdateFromZero(p: Word, data: seq<byte>)
    ensures Value(Update(p, Zeros(32), data)) == FromBigEndian(Checksum(p, data))
  {
    PackedBytes(Update(p, Zeros(32), data));
    hide Value, FromBigEndian;
    assert Xor(Zeros(32), Ones()) == Ones();
  }

  // ---------- files ----------

  /** What the file system does: codes of the calls, and the write that comes up short, if any. */
  datatype Faults = Faults(open: int, sync: int, close: int, shortAt: nat)

  class File {
    var content: seq<byte>

    constructor ()
      ensures content == []
    {
      content := [];
    }

    /** Opening for writing with FS_O_TRUNC. */
    method Truncate()
      modifies this
      ensures content == []
    {
      content := [];
    }

    method Append(data: seq<byte>)
      modifies this
      ensures content == old(content) + data
    {
      content := content + data;
    }
  }

  function Chunks(size: nat): nat { (size + CHUNK - 1) / CHUNK }

  /** The first step that fails decides. */
  function GenerateCode(path: int, size: nat, f: Faults): int {
    if path != 0 then path
    else if f.open != 0 then f.open
    else if f.shortAt < Chunks(size) then -EIO
    else if f.sync != 0 then f.sync
    else f.close
  }

  /** On success the file holds the pattern and `crc` is the CRC-32 of the whole file. */
  method Generate(path: int, size: nat, file: File, faults: Faults) returns (result: int, crc: Word)
    requires size < UINT32
    modifies file
    ensures result == GenerateCode(path, size, faults)
    ensures path != 0 ==> result == path
    ensures path == 0 && faults.open != 0 ==> result == faults.open
    ensures path == faults.open == 0 && faults.shortAt == 0 && size > 0 ==> result == -5
    ensures path == faults.open == 0 && faults.shortAt * 64 >= size && faults.sync != 0 ==> result == faults.sync
    ensures path == faults.open == faults.sync == 0 && faults.shortAt * 64 >= size ==> result == faults.close
    ensures result == 0 ==> file.content == Pattern(size) && Value(crc) == FromBigEndian(Checksum(Polynomial(IEEE), file.content))
    ensures path != 0 || faults.open != 0 ==> file.content == old(file.content)
  {
    hide Update, Pattern, Polynomial, Checksum, Value, FromBigEndian;
    var p := Polynomial(IEEE);
    EmptyPattern();
    result, crc := path, Zeros(32);
    var isOpen := false;
    var offset, written := 0, 0;
    if result == 0 {
      result := faults.open;
      if result == 0 {
        isOpen := true;
        file.Truncate();
      }
    }
    UpdateNothing(p, Zeros(32));
    while result == 0 && offset < size
      invariant offset <= size && written * CHUNK >= offset && (offset < size ==> written * CHUNK == offset)
      invariant written <= Chunks(size)
      invariant isOpen <==> path == 0 && faults.open == 0
      invariant isOpen ==> result == 0
      invariant !isOpen ==> result == GenerateCode(path, size, faults) && file.content == old(file.content)
      invariant isOpen ==> file.content == Pattern(offset) && crc == Update(p, Zeros(32), file.content)
      invariant isOpen ==> faults.shortAt >= written
      invariant offset == size ==> written == Chunks(size)
      decreases size - offset
    {
      var chunk := if size - offset < CHUNK then size - offset else CHUNK;
      var data := FillChunk(offset, chunk);
      if written == faults.shortAt {
        result := -EIO;
        break;
      }
      UpdateConcat(p, Zeros(32), file.content, data);
      PatternGrows(offset, data);
      file.Append(data);
      crc := Update(p, crc, data);
      offset := offset + chunk;
      written := written + 1;
    }
    if result == 0 {
      result := faults.sync;
    }
    UpdateFromZero(p, file.content);
    if isOpen {
      if result == 0 {
        result := faults.close;
      }
    }
  }

  lemma EmptyPattern()
    ensures Pattern(0) == []
  {
  }

  lemma PatternGrows(offset: nat, data: seq<byte>)
    requires forall i :: 0 <= i < |data| ==> data[i] == PatternByte(offset + i)
    ensures Pattern(offset) + data == Pattern(offset + |data|)
  {
  }

  method FillChunk(offset: nat, chunk: nat) returns (data: seq<byte>)
    requires chunk <= CHUNK
    ensures |data| == chunk && forall i :: 0 <= i < chunk ==> data[i] == PatternByte(offset + i)
  {
    data := [];
    for index := 0 to chunk
      invariant |data| == index && forall i :: 0 <= i < index ==> data[i] == PatternByte(offset + i)
    {
      WrapIsHarmless(offset, index);
      data := data + [GeneratedByte(offset, index)];
    }
  }

  /** fs_read of up to one chunk: short only at the end of the file. */
  function ReadChunk(content: seq<byte>, at: nat): seq<byte>
    requires at <= |content|
  {
    if |content| - at < CHUNK then content[at..] else content[at..at + CHUNK]
  }

  datatype Opens = Opens(path: int, first: int, second: int, closeFirst: int, closeSecond: int)

  /** Which read of a file fails, counted from zero, and with what code. */
  datatype Reads = Succeed | Fail(at: nat, code: int) {
    predicate Valid() { Fail? ==> code < 0 }

    predicate FailBy(n: nat) { Fail? && at <= n }
  }

  function CommonPrefix(a: seq<byte>, b: seq<byte>): (n: nat)
    ensures n <= |a| && n <= |b| && a[..n] == b[..n]
    ensures n < |a| && n < |b| ==> a[n] != b[n]
  {
    if a == [] || b == [] || a[0] != b[0] then 0 else
    var n := 1 + CommonPrefix(a[1..], b[1..]);
    assert a[..n] == [a[0]] + a[1..][..n - 1] && b[..n] == [b[0]] + b[1..][..n - 1];
    n
  }

  /** The pair of reads that decides, if none fails: the one behind the last chunk, or the first that differs. */
  function Deciding(first: seq<byte>, second: seq<byte>): nat {
    if first == second then Chunks(|first|) else CommonPrefix(first, second) / CHUNK
  }

  /** The first call that fails decides; of two reads that fail together the first file's. */
  function CompareCode(first: seq<byte>, second: seq<byte>, c: Opens, x: Reads, y: Reads): int {
    var n := Deciding(first, second);
    if c.path != 0 then c.path
    else if c.first != 0 then c.first
    else if c.second != 0 then c.second
    else if x.FailBy(n) && !(y.FailBy(n) && y.at < x.at) then x.code
    else if y.FailBy(n) then y.code
    else if first != second then -EILSEQ
    else if c.closeSecond != 0 then c.closeSecond
    else c.closeFirst
  }

  /** When every call succeeds, zero exactly for two files with the same bytes. */
  method Compare(first: seq<byte>, second: seq<byte>, codes: Opens, firstReads: Reads, secondReads: Reads) returns (result: int)
    requires firstReads.Valid() && secondReads.Valid()
    ensures result == CompareCode(first, second, codes, firstReads, secondReads)
    ensures codes.path != 0 ==> result == codes.path
    ensures codes.path == 0 && codes.first != 0 ==> result == codes.first
    ensures codes.path == codes.first == 0 && codes.second != 0 ==> result == codes.second
    ensures codes.path == codes.first == codes.second == 0 ==>
      && (firstReads.Fail? && firstReads.at == 0 ==> result == firstReads.code)
      && (secondReads.Fail? && secondReads.at == 0 && !(firstReads.Fail? && firstReads.at == 0) ==> result == secondReads.code)
      && (firstReads.Succeed? && secondReads.Succeed? ==>
            result == if first != second then -84 else if codes.closeSecond != 0 then codes.closeSecond else codes.closeFirst)
    ensures codes == Opens(0, 0, 0, 0, 0) && firstReads.Succeed? && secondReads.Succeed? ==> (result == 0 <==> first == second)
  {
    result := codes.path;
    var openedFirst, openedSecond := false, false;
    if result == 0 {
      result := codes.first;
      openedFirst := result == 0;
    }
    if result == 0 {
      result := codes.second;
      openedSecond := result == 0;
    }
    var a, b, n := 0, 0, 0;
    while result == 0
      invariant a == b <= |first| && a <= |second| && InStep(first, second, a, n)
      invariant openedSecond ==> openedFirst
      invariant openedSecond <==> result == 0
      invariant openedSecond <==> codes.path == codes.first == codes.second == 0
      invariant openedFirst <==> codes.path == codes.first == 0
      invariant !openedSecond ==> result == CompareCode(first, second, codes, firstReads, secondReads)
      invariant n <= Deciding(first, second)
      invariant openedSecond && n > 0 ==> !firstReads.FailBy(n - 1) && !secondReads.FailBy(n - 1)
      decreases |first| - a
    {
      var x, y := ReadChunk(first, a), ReadChunk(second, b);
      Aligned(first, second, a, n);
      hide Deciding, InStep, ReadChunk;
      if firstReads.Fail? && firstReads.at == n {
        result := firstReads.code;
        break;
      }
      if secondReads.Fail? && secondReads.at == n {
        result := secondReads.code;
        break;
      }
      if x != y {
        result := -EILSEQ;
        break;
      }
      if |x| == 0 {
        break;
      }
      a, b, n := a + |x|, b + |y|, n + 1;
    }
    if openedSecond {
      if result == 0 {
        result := codes.closeSecond;
      }
    }
    if openedFirst {
      if result == 0 {
        result := codes.closeFirst;
      }
    }
  }

  /** After n pairs of reads both files are read up to `at`, and they are alike so far. */
  predicate InStep(first: seq<byte>, second: seq<byte>, at: nat, n: nat) {
    && at <= |first| && at <= |second| && first[..at] == second[..at]
    && (at == n * CHUNK || (at == |first| == |second| && n == Chunks(at)))
  }

  /** Chunks read at the same place differ and decide, or both files go on alike past them. */
  lemma Aligned(first: seq<byte>, second: seq<byte>, at: nat, n: nat)
    requires InStep(first, second, at, n)
    ensures var x, y := ReadChunk(first, at), ReadChunk(second, at);
      && (x != y ==> first != second && Deciding(first, second) == n)
      && (x == y && x == [] ==> first == second && Deciding(first, second) == n)
      && (x == y && x != [] ==>
            && at + |x| <= |first| && at + |x| <= |second|
            && InStep(first, second, at + |x|, n + 1) && n + 1 <= Deciding(first, second))
  {
    var x, y := ReadChunk(first, at), ReadChunk(second, at);
    var c := CommonPrefix(first, second);
    if x == y {
      assert first[..at + |x|] == first[..at] + x && second[..at + |x|] == second[..at] + y;
      LongPrefix(first, second, at + |x|);
      if |x| < CHUNK {
        assert first == first[..at + |x|] && second == second[..at + |x|];
      }
    } else {
      LongPrefix(first, second, at);
      assert at == n * CHUNK;
      if c >= at + CHUNK {
        SameChunk(first, second, at, c);
      }
    }
  }

  lemma SameChunk(first: seq<byte>, second: seq<byte>, at: nat, c: nat)
    requires at + CHUNK <= c <= |first| && c <= |second| && first[..c] == second[..c]
    ensures ReadChunk(first, at) == ReadChunk(second, at)
  {
    assert first[at..at + CHUNK] == first[..c][at..at + CHUNK];
    assert second[at..at + CHUNK] == second[..c][at..at + CHUNK];
  }

  lemma {:induction false} LongPrefix(a: seq<byte>, b: seq<byte>, n: nat)
    requires n <= |a| && n <= |b| && a[..n] == b[..n]
    ensures CommonPrefix(a, b) >= n
  {
    if n > 0 {
      assert a[..n][0] == b[..n][0];
      assert a[..n][1..] == a[1..][..n - 1] && b[..n][1..] == b[1..][..n - 1];
      LongPrefix(a[1..], b[1..], n - 1);
    }
  }
}
