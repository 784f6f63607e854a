/** Chained reads from a FAT32 volume. */
module Fat32 {
  import opened Products
  import opened Bits

  const SECTOR: nat := 512

  /** A little-endian word. */
  function Word(a: nat, b: nat, c: nat, d: nat): nat { a + 0x100 * b + 0x1_0000 * c + 0x100_0000 * d }

  class Volume {
    /** The contents of the disk, byte by byte. */
    const disk: nat -> byte
    const reservedSect: nat
    const firstSect: nat
    const sectPerClus: nat

    /** Bytes in a cluster. */
    function ClusterSize(): nat { 512 * sectPerClus }

    /** Entry c of the file allocation table: a little-endian word, 28 bits of it used. */
    function Entry(c: nat): nat {
      var at := SECTOR * reservedSect + 4 * c;
      Word(disk(at), disk(at + 1), disk(at + 2), disk(at + 3)) % 0x1000_0000
    }

    /** Byte k of the data of cluster c. */
    function DataByte(c: nat, k: nat): byte
      requires c >= 2
    {
      disk(SECTOR * (firstSect + (c - 2) * sectPerClus) + k)
    }

    /** Where the table and the data stand: four bytes to an entry, lowest first, of which
        28 bits count; clusters from number 2 on, behind each other. */
    lemma Layout(c: nat, k: nat)
      ensures var at := 512 * reservedSect + 4 * c;
              Entry(c) == (disk(at) + 256 * disk(at + 1) + 65536 * disk(at + 2) + 16777216 * disk(at + 3)) % 268435456
      ensures c >= 2 ==> DataByte(c, k) == disk(512 * firstSect + 512 * ((c - 2) * sectPerClus) + k)
      ensures ClusterSize() == 512 * sectPerClus
    {
      if c >= 2 {
        var x := (c - 2) * sectPerClus;
        assert 512 * (firstSect + x) == 512 * firstSect + 512 * x;
      }
    }

    /** A cluster from which n more bytes can be read: its number, and the numbers
        that follow in the chain as far as needed, are data clusters. */
    ghost predicate Chained(c: nat, off: nat, n: nat)
      requires sectPerClus > 0
      decreases n, off
    {
      n == 0 ||
      (c >= 2 && if off < ClusterSize() then Chained(c, off + 1, n - 1) else Chained(Entry(c), off - ClusterSize(), n))
    }

    /** The n bytes that begin off bytes into the chain that starts with cluster c. */
    ghost function Bytes(c: nat, off: nat, n: nat): (r: seq<byte>)
      requires sectPerClus > 0 && Chained(c, off, n)
      ensures |r| == n
      decreases n, off
    {
      if n == 0 then []
      else if off < ClusterSize() then [DataByte(c, off)] + Bytes(c, off + 1, n - 1)
      else Bytes(Entry(c), off - ClusterSize(), n)
    }

    constructor (disk: nat -> byte, reservedSect: nat, firstSect: nat, sectPerClus: nat)
      ensures this.disk == disk && this.reservedSect == reservedSect && this.firstSect == firstSect &&
              this.sectPerClus == sectPerClus
    {
      this.disk, this.reservedSect, this.firstSect, this.sectPerClus := disk, reservedSect, firstSect, sectPerClus;
    }

    method ReadBlock(sector: nat, count: nat) returns (data: seq<byte>)
      ensures |data| == SECTOR * count && forall k :: 0 <= k < |data| ==> data[k] == disk(SECTOR * sector + k)
    {
      data := seq(SECTOR * count, k requires 0 <= k => disk(SECTOR * sector + k));
    }

    /** `FatFilesystem::nextCluster`: sector and offset arithmetic finds the entry. */
    method NextCluster(cluster: nat) returns (next: nat)
      ensures next == Entry(cluster)
    {
      var entriesPerSector := 128;
      var sector, offset := cluster / entriesPerSector + reservedSect, cluster % entriesPerSector;
      var block := ReadBlock(sector, 1);
      var at := 4 * offset;
      var word := Word(block[at], block[at + 1], block[at + 2], block[at + 3]);
      assert SECTOR * sector + at == SECTOR * reservedSect + 4 * cluster;
      next := word % 0x1000_0000;
    }

    /** `FatFilesystem::readCluster`, for data clusters. */
    method ReadCluster(cluster: nat) returns (data: seq<byte>)
      requires cluster >= 2
      ensures |data| == ClusterSize() && forall k :: 0 <= k < |data| ==> data[k] == DataByte(cluster, k)
    {
      data := ReadBlock(firstSect + (cluster - 2) * sectPerClus, sectPerClus);
    }
  
    /** Reading m + n bytes is reading m bytes and then n bytes from behind them. */
    lemma {:induction false} BytesSplit(c: nat, off: nat, m: nat, n: nat)
      requires sectPerClus > 0 && Chained(c, off, m + n)
      ensures Chained(c, off, m) && Chained(c, off + m, n)
      ensures Bytes(c, off, m + n) == Bytes(c, off, m) + Bytes(c, off + m, n)
      decreases m, off
    {
      hide DataByte, Entry;
      if m > 0 {
        if off < ClusterSize() {
          BytesSplit(c, off + 1, m - 1, n);
        } else {
          BytesSplit(Entry(c), off - ClusterSize(), m, n);
          NextAhead(c, off + m, n);
        }
      }
    }

    lemma {:induction false} ChainedJoin(c: nat, off: nat, m: nat, n: nat)
      requires sectPerClus > 0 && Chained(c, off, m) && Chained(c, off + m, n)
      ensures Chained(c, off, m + n)
      decreases m, off
    {
      if m > 0 {
        if off < ClusterSize() {
          ChainedJoin(c, off + 1, m - 1, n);
        } else {
          NextAhead(c, off + m, n);
          ChainedJoin(Entry(c), off - ClusterSize(), m, n);
        }
      }
    }

    /** The m-th cluster of the chain that starts with cluster c. */
    function Follow(c: nat, m: nat): nat
      decreases m
    {
      if m == 0 then c else Follow(Entry(c), m - 1)
    }

    /** Every byte of a chain: byte d of its m-th cluster. */
    lemma {:induction false} ByteOfChain(c: nat, off: nat, n: nat, k: nat, m: nat, d: nat)
      requires sectPerClus > 0 && Chained(c, off, n) && k < n
      requires off + k == Times(m, ClusterSize()) + d && d < ClusterSize()
      ensures Follow(c, m) >= 2 && Bytes(c, off, n)[k] == DataByte(Follow(c, m), d)
      decreases n, off
    {
      hide DataByte, Entry, Times;
      TimesNext(0, ClusterSize());
      if m > 0 { TimesNext(m - 1, ClusterSize()); }
      if off >= ClusterSize() {
        ByteOfChain(Entry(c), off - ClusterSize(), n, k, m - 1, d);
      } else if k > 0 {
        ByteOfChain(c, off + 1, n - 1, k - 1, m, d);
      }
    }

    lemma DataCluster(c: nat, off: nat, n: nat)
      requires sectPerClus > 0 && n > 0 && Chained(c, off, n)
      ensures c >= 2
    {}

    lemma NoBytes(c: nat, off: nat)
      requires sectPerClus > 0
      ensures Chained(c, off, 0) && Bytes(c, off, 0) == []
    {}

    /** Beyond the first cluster, the chain goes on with the next one. */
    lemma NextAhead(c: nat, off: nat, n: nat)
      requires sectPerClus > 0 && off >= ClusterSize() && c >= 2
      ensures Chained(c, off, n) <==> Chained(Entry(c), off - ClusterSize(), n)
      ensures Chained(c, off, n) ==> Bytes(c, off, n) == Bytes(Entry(c), off - ClusterSize(), n)
    {}

    /** Inside a cluster, the bytes are those of the cluster. */
    lemma {:induction false} BytesInside(c: nat, off: nat, n: nat)
      requires sectPerClus > 0 && c >= 2 && off + n <= ClusterSize()
      ensures Chained(c, off, n)
      ensures forall k :: 0 <= k < n ==> Bytes(c, off, n)[k] == DataByte(c, off + k)
      decreases n
    {
      if n > 0 {
        BytesInside(c, off + 1, n - 1);
        forall k | 0 <= k < n ensures Bytes(c, off, n)[k] == DataByte(c, off + k) {
          if k > 0 { assert Bytes(c, off, n)[k] == Bytes(c, off + 1, n - 1)[k - 1]; }
        }
      }
    }
  }

  class File {
    const fat: Volume
    const firstCluster: nat
    const size: nat
    var currentCluster: nat
    var bytesLeft: nat
    var position: nat

    ghost predicate Valid()
      reads this
    { fat.sectPerClus > 0 && bytesLeft <= fat.ClusterSize() }

    /** n bytes from the current place are the n bytes from offset p of the file. */
    ghost predicate Agrees(p: nat, n: nat)
      requires Valid()
      reads this
    {
      fat.Chained(firstCluster, p, n) ==>
        && fat.Chained(currentCluster, fat.ClusterSize() - bytesLeft, n)
        && fat.Bytes(currentCluster, fat.ClusterSize() - bytesLeft, n) == fat.Bytes(firstCluster, p, n)
    }

    /** The file stands at offset p. */
    ghost predicate StandsAt(p: nat)
      requires Valid()
      reads this
    { forall n: nat :: Agrees(p, n) }

    constructor (fat: Volume, cluster: nat, fileSize: nat)
      requires fat.sectPerClus > 0
      ensures Valid() && StandsAt(0) && position == 0
      ensures this.fat == fat && firstCluster == cluster && size == fileSize
    {
      this.fat, firstCluster, size := fat, cluster, fileSize;
      currentCluster, bytesLeft, position := cluster, fat.sectPerClus * 512, 0;
    }

    /** Two places in chains with the same bytes from there on. */
    ghost predicate Same(c: nat, off: nat, c': nat, off': nat, n: nat)
      requires fat.sectPerClus > 0
    {
      fat.Chained(c', off', n) ==> fat.Chained(c, off, n) && fat.Bytes(c, off, n) == fat.Bytes(c', off', n)
    }

    /** `FatFile::seek` from the start of the file: on the boundary behind a
        cluster it stays in that cluster, with no bytes left. */
    method Seek(p: nat) returns (r: nat)
      requires Valid() && p <= size && (p > 0 ==> fat.Chained(firstCluster, p - 1, 1))
      modifies this
      ensures Valid() && StandsAt(p) && r == position == p
    {
      position := p;
      currentCluster := firstCluster;
      var delta := p;
      while delta > fat.sectPerClus * 512
        invariant 0 <= delta && (delta > 0 ==> fat.Chained(currentCluster, delta - 1, 1))
        invariant forall n: nat :: Same(currentCluster, delta, firstCluster, p, n)
        invariant position == p
        decreases delta
      {
        ghost var c, d := currentCluster, delta;
        currentCluster := fat.NextCluster(currentCluster);
        delta := delta - fat.sectPerClus * 512;
        forall n: nat ensures Same(currentCluster, delta, firstCluster, p, n) {
          assert Same(c, d, firstCluster, p, n);
          fat.NextAhead(c, d, n);
        }
      }
      bytesLeft := fat.sectPerClus * 512 - delta;
      forall n: nat ensures Agrees(p, n) {
        assert Same(currentCluster, delta, firstCluster, p, n);
      }
      r := position;
    }

    /** One round of the reading loop. */
    method ReadPart(buffer: array<byte>, at: nat, part: nat, left: nat, ghost p: nat)
      requires Valid() && StandsAt(p) && fat.Chained(firstCluster, p, left)
      requires 0 < left && part == (if left < bytesLeft then left else bytesLeft) && at + left <= buffer.Length
      modifies `currentCluster, `bytesLeft, buffer
      ensures Valid() && StandsAt(p + part) && (part == 0 ==> bytesLeft > 0)
      ensures fat.Chained(firstCluster, p, part)
      ensures buffer[..at + part] == old(buffer[..at]) + fat.Bytes(firstCluster, p, part)
      ensures buffer[at + part..] == old(buffer[at + part..])
    {
      hide Volume.Bytes, Volume.Chained, Volume.DataByte, Volume.Entry;
      var size := fat.ClusterSize();
      ghost var c, off := currentCluster, size - bytesLeft;
      forall n: nat ensures Same(c, off, firstCluster, p, n) { assert Agrees(p, n); }
      fat.BytesSplit(firstCluster, p, part, left - part);
      assert Same(c, off, firstCluster, p, left) && Same(c, off, firstCluster, p, part);
      fat.DataCluster(c, off, left);
      var db := fat.ReadCluster(currentCluster);
      fat.BytesInside(c, off, part);
      CopyBytes(buffer, at, db[size - bytesLeft..][..part]);
      bytesLeft := bytesLeft - part;
      assert buffer[at..at + part] == fat.Bytes(c, off, part);
      if bytesLeft == 0 {
        currentCluster := fat.NextCluster(currentCluster);
        bytesLeft := fat.sectPerClus * 512;
      }
      StandsAhead(c, off, p, part);
    }

    /** The file stands part bytes further, in the same cluster or at the start of the next. */
    lemma StandsAhead(c: nat, off: nat, p: nat, part: nat)
      requires Valid() && c >= 2 && off + part <= fat.ClusterSize() && fat.Chained(firstCluster, p, part)
      requires forall n: nat :: Same(c, off, firstCluster, p, n)
      requires if off + part < fat.ClusterSize() then
                 currentCluster == c && fat.ClusterSize() - bytesLeft == off + part
               else currentCluster == fat.Entry(c) && bytesLeft == fat.ClusterSize()
      ensures StandsAt(p + part)
    {
      hide Volume.Bytes, Volume.Chained, Volume.DataByte, Volume.Entry;
      var next := p + part;
      forall n: nat ensures Agrees(next, n) {
        assert Same(c, off, firstCluster, p, part + n);
        MoveOn(c, off, firstCluster, p, part, n);
        fat.NextAhead(c, fat.ClusterSize(), n);
      }
    }

    /** `FatFile::read`: the next bytes of the file, across any number of clusters,
        and also when no bytes are left in the current one. */
    method Read(buffer: array<byte>, amount: nat, ghost p: nat) returns (r: nat)
      requires Valid() && StandsAt(p) && amount <= buffer.Length && fat.Chained(firstCluster, p, amount)
      modifies `currentCluster, `bytesLeft, buffer
      ensures Valid() && r == amount && StandsAt(p + amount)
      ensures buffer[..amount] == fat.Bytes(firstCluster, p, amount) && buffer[amount..] == old(buffer[amount..])
    {
      hide Volume.Bytes, Volume.Chained, StandsAt;
      fat.NoBytes(firstCluster, p);
      r := amount;
      var left, at := amount, 0;
      while left > 0
        invariant Valid() && at + left == amount && left >= 0
        invariant StandsAt(p + at) && fat.Chained(firstCluster, p, at) && fat.Chained(firstCluster, p + at, left)
        invariant buffer[..at] == fat.Bytes(firstCluster, p, at)
        invariant buffer[amount..] == old(buffer[amount..])
        decreases left, bytesLeft == 0
      {
        var part := if left < bytesLeft then left else bytesLeft;
        fat.BytesSplit(firstCluster, p + at, part, left - part);
        fat.ChainedJoin(firstCluster, p, at, part);
        fat.BytesSplit(firstCluster, p, at, part);
        ghost var tail := buffer[amount..];
        ReadPart(buffer, at, part, left, p + at);
        assert buffer[amount..] == buffer[at + part..][left - part..];
        at := at + part;
        left := left - part;
      }
    }

    /** Both places move on by m bytes. */
    lemma MoveOn(c: nat, off: nat, c': nat, off': nat, m: nat, n: nat)
      requires fat.sectPerClus > 0 && Same(c, off, c', off', m + n) && fat.Chained(c', off', m)
      ensures Same(c, off + m, c', off' + m, n)
    {
      if fat.Chained(c', off' + m, n) {
        fat.ChainedJoin(c', off', m, n);
        fat.BytesSplit(c', off', m, n);
        fat.BytesSplit(c, off, m, n);
        assert fat.Bytes(c, off + m, n) == fat.Bytes(c, off, m + n)[m..];
        assert fat.Bytes(c', off' + m, n) == fat.Bytes(c', off', m + n)[m..];
      }
    }

    /** `memcpy` into the buffer. */
    method CopyBytes(buffer: array<byte>, at: nat, src: seq<byte>)
      requires at + |src| <= buffer.Length
      modifies buffer
      ensures buffer[..at + |src|] == old(buffer[..at]) + src && buffer[at + |src|..] == old(buffer[at + |src|..])
    {
      var i := 0;
      while i < |src|
        invariant 0 <= i <= |src|
        invariant buffer[..at + i] == old(buffer[..at]) + src[..i]
        invariant buffer[at + i..] == old(buffer[at + i..])
      {
        buffer[at + i] := src[i];
        i := i + 1;
      }
    }
  }
}
