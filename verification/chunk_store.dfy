/** The server's store for one file: chunk data by index, chunk records in the database.
    The chunks table is a map because (file_id, chunk_index) is unique; add_chunk always sets
    delivered = 1, so count_delivered is the number of rows. */
module ChunkStore {
  import opened Bytes
  import opened Text
  import opened Crypto
  import opened Sets
  import opened Frames

  datatype Store = Store(disk: map<nat, seq<byte>>, rows: map<nat, seq<byte>>)

  /** The synchronous half of store_chunk: the file is overwritten. */
  function WriteDisk(s: Store, index: nat, data: seq<byte>): Store {
    s.(disk := s.disk[index := data])
  }

  /** The database half, INSERT OR IGNORE: the first checksum of an index stays. */
  function AddChunk(s: Store, index: nat, checksum: seq<byte>): Store {
    if index in s.rows then s else s.(rows := s.rows[index := checksum])
  }

  function AfterStore(s: Store, index: nat, data: seq<byte>, checksum: seq<byte>): Store {
    AddChunk(WriteDisk(s, index, data), index, checksum)
  }

  function ReadDisk(s: Store, index: nat): Option<seq<byte>> {
    if index in s.disk then Some(s.disk[index]) else None
  }

  ghost predicate Complete(s: Store, n: nat) {
    s.rows.Keys == Range(n)
  }

  /** `data` is some encryption of chunk `index`, whatever nonce made it. */
  ghost predicate Encrypts(f: Suite, chunks: seq<seq<byte>>, index: nat, data: seq<byte>) {
    index < |chunks| && OpenChunk(f, data) == Some(chunks[index])
  }

  /** Every record is in range, its data decrypts to its chunk, its checksum is that chunk's. */
  ghost predicate Sound(f: Suite, chunks: seq<seq<byte>>, s: Store) {
    forall i :: i in s.rows ==>
      && i in s.disk
      && Encrypts(f, chunks, i, s.disk[i])
      && s.rows[i] == f.sha(chunks[i])
  }

  /** A frame an honest sender of these chunks can have made. */
  ghost predicate Honest(f: Suite, chunks: seq<seq<byte>>, frame: Frame) {
    && Encrypts(f, chunks, frame.index, frame.payload)
    && frame.checksum == f.sha(chunks[frame.index])
  }

  /** The server only counts; since it records in-range indexes only, counting is enough. */
  lemma CountIsComplete(f: Suite, chunks: seq<seq<byte>>, s: Store)
    requires Sound(f, chunks, s)
    ensures |s.rows| <= |chunks|
    ensures |s.rows| >= |chunks| <==> Complete(s, |chunks|)
  {
    RangeSize(|chunks|);
    SubsetSize(s.rows.Keys, Range(|chunks|));
    assert |s.rows| == |s.rows.Keys|;
  }

  /** When the count of any store can be trusted: exactly while it is short of n, or every record
      is in range. */
  lemma CountIff(s: Store, n: nat)
    ensures (|s.rows| >= n <==> Complete(s, n)) <==> (|s.rows| < n || s.rows.Keys <= Range(n))
  {
    RangeSize(n);
    assert |s.rows| == |s.rows.Keys|;
    if s.rows.Keys <= Range(n) {
      SubsetSize(s.rows.Keys, Range(n));
    }
  }

  /** Overwriting with any other encryption of the same chunk keeps every record sound: this is
      why a store stopped between its two halves, or repeated, does no harm. */
  lemma WriteKeepsSound(f: Suite, chunks: seq<seq<byte>>, s: Store, index: nat, data: seq<byte>)
    requires Sound(f, chunks, s) && Encrypts(f, chunks, index, data)
    ensures Sound(f, chunks, WriteDisk(s, index, data))
  {
  }

  lemma StoreKeepsSound(f: Suite, chunks: seq<seq<byte>>, s: Store, frame: Frame)
    requires Sound(f, chunks, s) && Honest(f, chunks, frame)
    ensures var t := AfterStore(s, frame.index, frame.payload, frame.checksum);
            Sound(f, chunks, t) && t.rows.Keys == s.rows.Keys + {frame.index}
  {
    WriteKeepsSound(f, chunks, s, frame.index, frame.payload);
  }

  /** f"chunk_{chunk_index:04d}", below the file's own directory. */
  function ChunkPath(index: nat): string {
    "chunk_" + ZeroPad(Print(index), 4)
  }

  /** A path is "chunk_" and the index, in at least four digits; distinct indexes never share one,
      below and above the four padded digits alike. */
  lemma PathsDistinct(i: nat, j: nat)
    ensures |ChunkPath(i)| >= 10 && ChunkPath(i)[..6] == "chunk_"
    ensures IsDecimal(ChunkPath(i)[6..]) && Parse(ChunkPath(i)[6..]) == i
    ensures |ChunkPath(i)| > 10 ==> |ChunkPath(i)| == 6 + |Print(i)|
    ensures ChunkPath(i) == ChunkPath(j) <==> i == j
  {
    ZeroPadKeepsValue(Print(i), 4);
    ZeroPadKeepsValue(Print(j), 4);
    ParsePrint(i);
    ParsePrint(j);
    assert ChunkPath(i)[6..] == ZeroPad(Print(i), 4);
    assert ChunkPath(j)[6..] == ZeroPad(Print(j), 4);
  }

  /** server/files.py and server/db/files.py over mutable state: the files of one directory,
      named by path, and the rows of one file_id. `data` is what the directory holds, by index. */
  class ChunkFiles {
    var disk: map<string, seq<byte>>
    var rows: map<nat, seq<byte>>
    ghost var data: map<nat, seq<byte>>

    ghost predicate Valid()
      reads this
    {
      && (forall i: nat :: i in data <==> ChunkPath(i) in disk)
      && (forall i :: i in data ==> data[i] == disk[ChunkPath(i)])
    }

    ghost function View(): Store
      reads this
    {
      Store(data, rows)
    }

    constructor ()
      ensures Valid() && View() == Store(map[], map[])
    {
      disk, rows, data := map[], map[], map[];
    }

    /** One chunk's data and at most its own record change; every other path is left alone. */
    method StoreChunk(index: nat, payload: seq<byte>, checksum: seq<byte>)
      requires Valid()
      modifies this
      ensures Valid() && View() == AfterStore(old(View()), index, payload, checksum)
    {
      forall i: nat
        ensures ChunkPath(i) == ChunkPath(index) <==> i == index
      {
        PathsDistinct(i, index);
      }
      disk := disk[ChunkPath(index) := payload];
      data := data[index := payload];
      if index !in rows {
        rows := rows[index := checksum];
      }
    }

    method GetChunk(index: nat) returns (payload: Option<seq<byte>>)
      requires Valid()
      ensures payload == ReadDisk(View(), index)
    {
      if ChunkPath(index) !in disk {
        return None;
      }
      return Some(disk[ChunkPath(index)]);
    }

    method CountDelivered() returns (count: nat)
      ensures count == |View().rows|
    {
      count := |rows|;
    }

    /** is_complete counts; it is right while the count is short of the total, or every record is in
        range, and wrong otherwise. */
    method IsComplete(total: nat) returns (complete: bool)
      ensures complete <==> |View().rows| >= total
      ensures (complete <==> Complete(View(), total))
         <==> (|View().rows| < total || View().rows.Keys <= Range(total))
    {
      var delivered := CountDelivered();
      CountIff(View(), total);
      complete := delivered >= total;
    }
  }
}
