/** common/file_io.h on bytes: records of one size at computed offsets. A file is read as a table of
    whole records, and the reads and writes of the server are lookups and updates of that table. */
module RecordFiles {
  import opened Records

  type Byte = b: int | 0 <= b < 256

  const UINT32 := 0x1_0000_0000

  /** (off_t)(id - 1) * sizeof(T), where the subtraction wraps around in 32 bits. */
  function Offset(id: nat, size: nat): nat {
    ((id + UINT32 - 1) % UINT32) * size
  }

  /** What read() delivers: fewer bytes near the end of the file, none behind it. */
  function Pread(bytes: seq<Byte>, offset: nat, n: nat): seq<Byte> {
    if offset >= |bytes| then []
    else if offset + n <= |bytes| then bytes[offset..offset + n]
    else bytes[offset..]
  }

  function Zeros(n: nat): (zs: seq<Byte>)
    ensures |zs| == n
  {
    seq(n, _ => 0)
  }

  /** What lseek() and write() leave: a gap is filled with zeros. */
  function Pwrite(bytes: seq<Byte>, offset: nat, data: seq<Byte>): seq<Byte> {
    if offset > |bytes| then bytes + Zeros(offset - |bytes|) + data
    else if offset + |data| >= |bytes| then bytes[..offset] + data
    else bytes[..offset] + data + bytes[offset + |data|..]
  }

  function Slice(bytes: seq<Byte>, size: nat, i: nat): seq<Byte> {
    Pread(bytes, i * size, size)
  }

  /** The whole records of the file, in order. A torn last record is not one of them. */
  function Table(bytes: seq<Byte>, size: nat): (t: seq<seq<Byte>>)
    requires size > 0
    ensures |t| == |bytes| / size
  {
    seq(|bytes| / size, i => if i >= 0 then Slice(bytes, size, i) else [])
  }

  predicate Whole(bytes: seq<Byte>, size: nat)
    requires size > 0
  {
    |bytes| % size == 0
  }

  // ---------- offsets ----------

  lemma Scaled(i: nat, j: nat, size: nat)
    requires i <= j
    ensures i * size <= j * size
    ensures i < j ==> i * size + size <= j * size
  {
    var d := j - i;
    assert j * size == i * size + d * size;
    if d > 0 {
      assert d * size == size + (d - 1) * size;
    }
  }

  /** Record `i` fits into the file exactly when it is one of the counted ones. */
  lemma Fits(n: nat, size: nat, i: nat)
    requires size > 0
    ensures i * size + size <= n <==> i < n / size
    ensures i <= n / size ==> i * size <= n
  {
    var q := n / size;
    if i < q {
      Scaled(i, q, size);
    } else {
      Scaled(q, i, size);
    }
  }

  /** A length is known from its whole records and the rest. */
  lemma Counted(n: nat, size: nat, q: nat, rest: nat)
    requires size > 0 && n == q * size + rest && rest < size
    ensures n / size == q && n % size == rest
  {
    Fits(n, size, q);
    if q > 0 {
      Fits(n, size, q - 1);
    }
  }

  // ---------- reading ----------

  function ReadAt(bytes: seq<Byte>, size: nat, id: nat): Option<seq<Byte>> {
    var r := Pread(bytes, Offset(id, size), size);
    if |r| == size then Some(r) else None
  }

  /** Reading is looking up the table: id 0, ids past the end and a torn record are all not found. */
  lemma ReadFinds(bytes: seq<Byte>, size: nat, id: nat)
    requires size > 0 && id < UINT32 && |bytes| < UINT32 * size
    ensures ReadAt(bytes, size, id) == Find(Table(bytes, size), id)
  {
    var i := (id + UINT32 - 1) % UINT32;
    Fits(|bytes|, size, i);
    if id == 0 {
      Scaled(i, UINT32 - 1, size);
      assert i == UINT32 - 1;
      assert i * size + size == UINT32 * size;
    } else {
      assert i == id - 1;
    }
  }

  // ---------- writing ----------

  /** Where a record of the table stands in the file. */
  lemma TableAt(bytes: seq<Byte>, size: nat, i: nat)
    requires size > 0 && i < |Table(bytes, size)|
    ensures Table(bytes, size)[i] == Slice(bytes, size, i)
    ensures i * size + size <= |bytes|
  {
    Fits(|bytes|, size, i);
  }

  lemma WrittenLength(bytes: seq<Byte>, offset: nat, data: seq<Byte>)
    ensures |Pwrite(bytes, offset, data)| == if offset + |data| > |bytes| then offset + |data| else |bytes|
  {}

  /** A write covers the slice of its record and no other. */
  lemma SliceWritten(bytes: seq<Byte>, size: nat, k: nat, rec: seq<Byte>, i: nat)
    requires size > 0 && |rec| == size && k * size <= |bytes|
    requires i * size + size <= |Pwrite(bytes, k * size, rec)|
    ensures i == k ==> Slice(Pwrite(bytes, k * size, rec), size, i) == rec
    ensures i != k && i * size + size <= |bytes| ==>
      Slice(Pwrite(bytes, k * size, rec), size, i) == Slice(bytes, size, i)
  {
    if i < k {
      Scaled(i, k, size);
    } else if i > k {
      Scaled(k, i, size);
    }
  }

  /** The number of whole records after a write in place or at the end. */
  lemma WrittenCount(length: nat, size: nat, k: nat)
    requires size > 0 && k <= length / size
    ensures k * size <= length
    ensures var after := if k * size + size > length then k * size + size else length;
      && after / size == (if k == length / size then k + 1 else length / size)
      && (k == length / size || length % size == 0 ==> after % size == 0)
  {
    Fits(length, size, k);
    if k == length / size {
      assert (k + 1) * size == k * size + size;
      Counted(k * size + size, size, k + 1, 0);
    }
  }

  /** Writing record `id`, in place or as the next one, updates the table and nothing else; written
      as the next one it also replaces a torn tail. */
  lemma WritePuts(bytes: seq<Byte>, size: nat, id: nat, rec: seq<Byte>)
    requires size > 0 && |rec| == size && 1 <= id <= |Table(bytes, size)| + 1 && id < UINT32
    ensures var after := Pwrite(bytes, Offset(id, size), rec);
      && Table(after, size) == Put(Table(bytes, size), id, rec)
      && (id == |Table(bytes, size)| + 1 || Whole(bytes, size) ==> Whole(after, size))
  {
    hide Pwrite, Slice, Table;
    var k := id - 1;
    var after := Pwrite(bytes, k * size, rec);
    assert Offset(id, size) == k * size;
    WrittenLength(bytes, k * size, rec);
    WrittenCount(|bytes|, size, k);
    forall i: nat | i < |Table(after, size)|
      ensures Table(after, size)[i] == Put(Table(bytes, size), id, rec)[i]
    {
      TableAt(after, size, i);
      SliceWritten(bytes, size, k, rec, i);
      if i < |Table(bytes, size)| { TableAt(bytes, size, i); }
    }
  }

  /** What a write behind the end leaves in each slice. */
  lemma SliceGap(bytes: seq<Byte>, size: nat, n: nat, k: nat, rec: seq<Byte>, i: nat)
    requires size > 0 && |rec| == size && |bytes| == n * size && n <= k && i <= k
    ensures Slice(Pwrite(bytes, k * size, rec), size, i)
         == if i < n then Slice(bytes, size, i) else if i < k then Zeros(size) else rec
  {
    Scaled(n, k, size);
    if i < n {
      Scaled(i, n, size);
    } else {
      Scaled(n, i, size);
    }
    Scaled(i, k, size);
  }

  /** Writing past the next record leaves records of zeros in between. */
  lemma WriteLeavesGap(bytes: seq<Byte>, size: nat, id: nat, rec: seq<Byte>)
    requires size > 0 && |rec| == size && Whole(bytes, size) && |Table(bytes, size)| < id < UINT32
    ensures var after := Pwrite(bytes, Offset(id, size), rec);
      && Whole(after, size)
      && Table(after, size)
         == Table(bytes, size) + seq(id - 1 - |Table(bytes, size)|, _ => Zeros(size)) + [rec]
  {
    hide Pwrite, Slice, Table;
    var k := id - 1;
    var n := |Table(bytes, size)|;
    var after := Pwrite(bytes, k * size, rec);
    assert Offset(id, size) == k * size;
    assert |bytes| == n * size;
    Scaled(n, k, size);
    WrittenLength(bytes, k * size, rec);
    assert id * size == k * size + size;
    Counted(|after|, size, id, 0);
    forall i: nat | i < id
      ensures Table(after, size)[i]
           == (Table(bytes, size) + seq(id - 1 - n, _ => Zeros(size)) + [rec])[i]
    {
      TableAt(after, size, i);
      SliceGap(bytes, size, n, k, rec, i);
      if i < n { TableAt(bytes, size, i); }
    }
  }

  /** Appending completes a torn tail with bytes of the new record; only a whole file gets the record itself. */
  lemma AppendExtends(bytes: seq<Byte>, size: nat, rec: seq<Byte>)
    requires size > 0 && |rec| == size
    ensures var n := |Table(bytes, size)|;
      && n * size <= |bytes|
      && Table(bytes + rec, size) == Table(bytes, size) + [(bytes[n * size..] + rec)[..size]]
      && (Whole(bytes + rec, size) <==> Whole(bytes, size))
      && (Whole(bytes, size) ==> Table(bytes + rec, size) == Table(bytes, size) + [rec])
  {
    hide Table, Slice, Whole;
    var n := |Table(bytes, size)|;
    var after := bytes + rec;
    OneMore(|bytes|, size);
    forall i: nat | i < n ensures Table(after, size)[i] == Table(bytes, size)[i] {
      TableAt(after, size, i);
      TableAt(bytes, size, i);
      SliceAppended(bytes, rec, size, i, n);
    }
    TableAt(after, size, n);
    SliceAppended(bytes, rec, size, n, n);
    assert Whole(bytes + rec, size) <==> Whole(bytes, size) by { WholeAppended(bytes, rec, size); }
    if Whole(bytes, size) {
      assert bytes[n * size..] == [] by { WholeAppended(bytes, rec, size); }
      assert (bytes[n * size..] + rec)[..size] == rec;
    }
  }

  lemma OneMore(length: nat, size: nat)
    requires size > 0
    ensures (length + size) / size == length / size + 1 && (length + size) % size == length % size
    ensures (length / size) * size <= length
    ensures length % size == 0 ==> (length / size) * size == length
  {
    var n := length / size;
    assert (n + 1) * size == n * size + size;
    Counted(length + size, size, n + 1, length % size);
  }

  lemma WholeAppended(bytes: seq<Byte>, rec: seq<Byte>, size: nat)
    requires size > 0 && |rec| == size
    ensures Whole(bytes + rec, size) <==> Whole(bytes, size)
    ensures Whole(bytes, size) ==> (|bytes| / size) * size == |bytes|
  {
    OneMore(|bytes|, size);
  }

  lemma SliceAppended(bytes: seq<Byte>, rec: seq<Byte>, size: nat, i: nat, n: nat)
    requires size > 0 && |rec| == size && n * size <= |bytes|
    requires i * size + size <= |bytes + rec|
    ensures i * size + size <= |bytes| ==> Slice(bytes + rec, size, i) == Slice(bytes, size, i)
    ensures i == n ==> Slice(bytes + rec, size, n) == (bytes[n * size..] + rec)[..size]
  {
    if i == n {
      assert (bytes + rec)[n * size..n * size + size] == (bytes[n * size..] + rec)[..size];
    }
  }

  /** A data file and its record size. */
  class RecordFile {
    const size: nat
    var bytes: seq<Byte>

    /** The ids of all records fit into 32 bits. */
    ghost predicate Valid()
      reads this
    {
      size > 0 && |bytes| < (UINT32 - 1) * size
    }

    ghost function Contents(): seq<seq<Byte>>
      requires size > 0
      reads this
    {
      Table(bytes, size)
    }

    constructor (size: nat)
      requires size > 0
      ensures this.size == size && Valid() && Contents() == []
    {
      this.size := size;
      bytes := [];
    }

    method Read(id: nat) returns (r: Option<seq<Byte>>)
      requires Valid() && id < UINT32
      ensures r == Find(Contents(), id)
    {
      var offset := Offset(id, size);
      var got := Pread(bytes, offset, size);
      ReadFinds(bytes, size, id) by { Scaled(UINT32 - 1, UINT32, size); }
      if |got| == size {
        r := Some(got);
      } else {
        r := None;
      }
    }

    method NextId() returns (id: nat)
      requires Valid()
      ensures id == |Contents()| + 1 && id < UINT32
    {
      id := |bytes| / size + 1;
      Fits(|bytes|, size, UINT32 - 2);
      assert (UINT32 - 2) * size + size == (UINT32 - 1) * size;
    }

    method Write(id: nat, rec: seq<Byte>)
      requires Valid() && |rec| == size && 1 <= id <= |Contents()| + 1 && id < UINT32
      modifies this
      ensures Contents() == Put(old(Contents()), id, rec)
      ensures old(Whole(bytes, size)) || id == old(|Contents()|) + 1 ==> Whole(bytes, size)
    {
      WritePuts(bytes, size, id, rec);
      bytes := Pwrite(bytes, Offset(id, size), rec);
    }

    method Append(rec: seq<Byte>)
      requires Valid() && |rec| == size
      modifies this
      ensures bytes == old(bytes) + rec
      ensures old(Whole(bytes, size)) ==> Contents() == old(Contents()) + [rec] && Whole(bytes, size)
    {
      AppendExtends(bytes, size, rec);
      bytes := bytes + rec;
    }
  }
}
