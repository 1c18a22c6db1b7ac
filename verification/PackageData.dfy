// struct bpkg_obj once bpkg_load has filled it in, and what it says about a data file.
module PackageData {
  import opened Sha256Spec

  /** One line of the chunk list: the expected hash and where in the file the chunk lies. */
  datatype ChunkInfo = ChunkInfo(hashvalue: Hash, offset: int, size: int) {

    /** The bytes the program reads for this chunk are bytes of the file, at int offsets. */
    predicate InFile(contents: Bytes) {
      size > 0 ==> 0 <= offset && offset + size <= |contents| && offset + size < 0x8000_0000
    }

    function Slice(contents: Bytes): Bytes
      requires InFile(contents)
    {
      if size > 0 then contents[offset..offset + size] else []
    }
  }

  lemma SliceBounds(c: ChunkInfo, contents: Bytes)
    requires c.InFile(contents)
    ensures c.size > 0 ==> 0 <= c.offset && c.offset + c.size <= |contents|
    ensures c.size > 0 ==> c.Slice(contents) == contents[c.offset..c.offset + c.size]
    ensures c.size <= 0 ==> c.Slice(contents) == []
  {
  }

  /** Byte k of a chunk is byte offset + k of the file, and there are size of them. */
  lemma SliceByte(c: ChunkInfo, contents: Bytes, k: nat)
    requires c.InFile(contents)
    ensures |c.Slice(contents)| == if c.size > 0 then c.size else 0
    ensures k < |c.Slice(contents)| ==> c.offset + k >= 0 && c.Slice(contents)[k] == contents[c.offset + k]
  {
  }

  /** nhashes is |hashes|, nchunks is |chunks|. */
  datatype Package = Package(hashes: seq<Hash>, chunks: seq<ChunkInfo>) {

    /** What bpkg_load checks. */
    predicate Loaded() {
      |chunks| == |hashes| + 1
    }

    predicate InFile(contents: Bytes) {
      forall p :: 0 <= p < |chunks| ==> chunks[p].InFile(contents)
    }

    function ChunkHashes(): seq<Hash> {
      seq(|chunks|, p requires 0 <= p < |chunks| => chunks[p].hashvalue)
    }

    /** bpkg_get_all_hashes: the inner hashes, then the chunk hashes. */
    function AllHashes(): seq<Hash> {
      hashes + ChunkHashes()
    }

    /** The hash of each chunk of the file as it is. */
    function FileHashes(contents: Bytes): seq<Hash>
      requires InFile(contents)
    {
      seq(|chunks|, p requires 0 <= p < |chunks| => HashHex(chunks[p].Slice(contents)))
    }
  }
}
