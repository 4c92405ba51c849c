/** Reading files, and hashing what was read. The operating system and the
    hash function are not modelled: an open either fails or yields a handle
    whose bytes and read replies are given, and the two ways the scan
    hashes (in one go, or by feeding chunks to a running hasher) are given
    functions of the seed and the bytes fed. */
module FileIo {

  import opened Base

  /** The seed every hash of a scan uses. */
  const SEED: u64 := 1233135

  /** Bytes read, at most, for the sample hash. */
  const SAMPLE_SIZE: nat := 1024

  /** Bytes asked for by each read of the full hash. */
  const BATCH_SIZE: nat := 64 * 1024

  /** How the operating system answers one read call: with a count of bytes
      it is willing to deliver, or with an error. */
  datatype Reply = Deliver(count: nat) | Fail

  /** A file as one open handle sees it: the bytes it holds, and the replies
      to its successive read calls. Once `replies` is used up every read
      delivers as much as the buffer and the rest of the file allow. */
  datatype Handle = Handle(content: seq<u8>, replies: seq<Reply>)

  /** Which stage opens the file: the sample stage and the full stage open
      it separately, and need not see the same thing. */
  datatype Stage = Sampling | FullHashing

  /** The filesystem as the hashing stages see it: opening a path fails or
      yields a handle. */
  datatype Disk = Disk(open: (Path, Stage) -> Option<Handle>)

  /** The hash family: `oneshot(seed, bytes)` hashes a byte string in one
      call; `streamed(seed, chunks)` is what a hasher created with `seed`
      returns after being fed `chunks` in order. Nothing relates the two. */
  datatype Hashing = Hashing(oneshot: (u64, seq<u8>) -> u64, streamed: (u64, seq<seq<u8>>) -> u64)

  datatype ReadResult = Read(bytes: seq<u8>) | ReadError

  /** Read call number `call` on `h`, with `pos` bytes already read and a
      buffer of `bufLen` bytes: an error, or the next bytes of the file, no
      more than the buffer holds and no more than the reply allows. */
  function ReadAt(h: Handle, call: nat, pos: nat, bufLen: nat): (r: ReadResult)
    requires pos <= |h.content|
    ensures r.Read? ==> |r.bytes| <= bufLen && pos + |r.bytes| <= |h.content|
    ensures r.Read? ==> r.bytes == h.content[pos..pos + |r.bytes|]
  {
    match ReplyTo(h, call)
    case Fail => ReadError
    case Deliver(n) => Read(h.content[pos..pos + Min(n, Min(bufLen, |h.content| - pos))])
  }

  /** The reply to read call number `call`: the scripted one, or, past the
      script, leave to deliver the whole file. */
  function ReplyTo(h: Handle, call: nat): Reply {
    if call < |h.replies| then h.replies[call] else Deliver(|h.content|)
  }

  /** The sample hash of a file `size` bytes long: one read call into a
      buffer of `min(SAMPLE_SIZE, size)` bytes, and the hash of the bytes it
      delivered. `None` when the open or that read fails. */
  function SampleHash(disk: Disk, hashing: Hashing, p: Path, size: u64): (r: Option<u64>)
    ensures r.Some? <==> disk.open(p, Sampling).Some? && ReadAt(disk.open(p, Sampling).value, 0, 0, Min(SAMPLE_SIZE, size)).Read?
    ensures r.Some? ==>
      (exists n :: 0 <= n <= Min(SAMPLE_SIZE, size) && n <= |disk.open(p, Sampling).value.content| &&
                   r.value == hashing.oneshot(SEED, disk.open(p, Sampling).value.content[..n]))
  {
    match disk.open(p, Sampling)
    case None => None
    case Some(h) =>
      match ReadAt(h, 0, 0, Min(SAMPLE_SIZE, size))
      case ReadError => None
      case Read(bytes) => Some(hashing.oneshot(SEED, bytes))
  }

  /** Read calls left in the reply script plus bytes left in the file: every
      read that delivers something, or that uses up a scripted reply, makes
      it smaller. */
  function Pending(h: Handle, call: nat, pos: nat): nat
    requires pos <= |h.content|
  {
    (if call < |h.replies| then |h.replies| - call else 0) + (|h.content| - pos)
  }

  /** The chunks the full-hash read loop feeds to the hasher, from read call
      `call` on, with `pos` bytes already read: it asks for `BATCH_SIZE`
      bytes at a time and stops at the first read that delivers nothing or
      fails. */
  function Chunks(h: Handle, call: nat, pos: nat): (r: seq<seq<u8>>)
    requires pos <= |h.content|
    decreases Pending(h, call, pos)
  {
    match ReadAt(h, call, pos, BATCH_SIZE)
    case ReadError => []
    case Read(bytes) =>
      if |bytes| == 0 then [] else [bytes] + Chunks(h, call + 1, pos + |bytes|)
  }

  /** The chunks written one after the other. */
  function Concat(chunks: seq<seq<u8>>): seq<u8> {
    if chunks == [] then [] else chunks[0] + Concat(chunks[1..])
  }

  /** The full hash of a file: `None` when it cannot be opened, and
      otherwise the hash of the chunks the read loop fed, even when a read
      failed part-way. */
  function FullDigest(disk: Disk, hashing: Hashing, p: Path): Option<u64> {
    match disk.open(p, FullHashing)
    case None => None
    case Some(h) => Some(hashing.streamed(SEED, Chunks(h, 0, 0)))
  }

  /** Hash one file for the full stage, streaming it in chunks of at most
      `BATCH_SIZE` bytes. */
  method FullHash(disk: Disk, hashing: Hashing, p: Path) returns (r: Option<u64>)
    ensures r == FullDigest(disk, hashing, p)
  {
    var file := disk.open(p, FullHashing);
    if file.None? {
      return None;
    }
    var h := file.value;
    ghost var all := Chunks(h, 0, 0);
    var fed: seq<seq<u8>> := [];
    var call: nat, pos: nat := 0, 0;
    while true
      invariant pos <= |h.content|
      invariant fed + Chunks(h, call, pos) == all
      decreases Pending(h, call, pos)
    {
      var res := ReadAt(h, call, pos, BATCH_SIZE);
      ChunksStep(h, call, pos);
      if res.ReadError? || |res.bytes| == 0 {
        break;
      }
      FedStep(h, call, pos, fed, all);
      fed := fed + [res.bytes];
      call, pos := call + 1, pos + |res.bytes|;
    }
    assert fed == all;
    r := Some(hashing.streamed(SEED, fed));
  }

  /** One turn of the read loop: a read that delivers bytes contributes
      them as the next chunk; an error or an empty read ends the chunks. */
  lemma ChunksStep(h: Handle, call: nat, pos: nat)
    requires pos <= |h.content|
    ensures var res := ReadAt(h, call, pos, BATCH_SIZE);
      if res.Read? && |res.bytes| > 0
      then Chunks(h, call, pos) == [res.bytes] + Chunks(h, call + 1, pos + |res.bytes|)
      else Chunks(h, call, pos) == []
  {
  }

  lemma FedStep(h: Handle, call: nat, pos: nat, fed: seq<seq<u8>>, all: seq<seq<u8>>)
    requires pos <= |h.content|
    requires fed + Chunks(h, call, pos) == all
    requires ReadAt(h, call, pos, BATCH_SIZE).Read? && |ReadAt(h, call, pos, BATCH_SIZE).bytes| > 0
    ensures var b := ReadAt(h, call, pos, BATCH_SIZE).bytes;
      (fed + [b]) + Chunks(h, call + 1, pos + |b|) == all
  {
    var b := ReadAt(h, call, pos, BATCH_SIZE).bytes;
    var rest := Chunks(h, call + 1, pos + |b|);
    ChunksStep(h, call, pos);
    assert (fed + [b]) + rest == fed + ([b] + rest);
  }

  lemma ConcatCons(x: seq<u8>, rest: seq<seq<u8>>)
    ensures Concat([x] + rest) == x + Concat(rest)
  {
    assert ([x] + rest)[1..] == rest;
  }

  /** Each chunk the read loop feeds is non-empty and at most `BATCH_SIZE`
      bytes long. */
  lemma {:induction false} ChunksBounded(h: Handle, call: nat, pos: nat)
    requires pos <= |h.content|
    ensures forall i :: 0 <= i < |Chunks(h, call, pos)| ==> 0 < |Chunks(h, call, pos)[i]| <= BATCH_SIZE
    decreases Pending(h, call, pos)
  {
    var res := ReadAt(h, call, pos, BATCH_SIZE);
    if res.Read? && |res.bytes| > 0 {
      ChunksBounded(h, call + 1, pos + |res.bytes|);
    }
  }

  /** The chunks, one after the other, are the file from `pos` on or a
      prefix of it. */
  lemma {:induction false} ChunksArePrefix(h: Handle, call: nat, pos: nat)
    requires pos <= |h.content|
    ensures Concat(Chunks(h, call, pos)) <= h.content[pos..]
    decreases Pending(h, call, pos)
  {
    var res := ReadAt(h, call, pos, BATCH_SIZE);
    ChunksStep(h, call, pos);
    if res.Read? && |res.bytes| > 0 {
      var b := res.bytes;
      ChunksArePrefix(h, call + 1, pos + |b|);
      ConcatCons(b, Chunks(h, call + 1, pos + |b|));
      assert h.content[pos..] == b + h.content[pos + |b|..];
    } else {
      assert Concat(Chunks(h, call, pos)) == [];
    }
  }

  /** A handle whose remaining read calls never fail and never stop early. */
  predicate Steady(h: Handle, call: nat) {
    forall i :: call <= i < |h.replies| ==> h.replies[i].Deliver? && h.replies[i].count > 0
  }

  /** When no read fails or stops early, the loop feeds the whole rest of
      the file. */
  lemma {:induction false} SteadyChunksCoverFile(h: Handle, call: nat, pos: nat)
    requires pos <= |h.content|
    requires Steady(h, call)
    ensures Concat(Chunks(h, call, pos)) == h.content[pos..]
    decreases Pending(h, call, pos)
  {
    var res := ReadAt(h, call, pos, BATCH_SIZE);
    ChunksStep(h, call, pos);
    SteadyRead(h, call, pos);
    if pos < |h.content| {
      var b := res.bytes;
      SteadyChunksCoverFile(h, call + 1, pos + |b|);
      ConcatCons(b, Chunks(h, call + 1, pos + |b|));
      assert h.content[pos..] == b + h.content[pos + |b|..];
    }
  }

  /** On a steady handle a read never fails, delivers something while bytes
      remain, and leaves the handle steady. */
  lemma SteadyRead(h: Handle, call: nat, pos: nat)
    requires pos <= |h.content|
    requires Steady(h, call)
    ensures ReadAt(h, call, pos, BATCH_SIZE).Read?
    ensures |ReadAt(h, call, pos, BATCH_SIZE).bytes| > 0 <==> pos < |h.content|
    ensures Steady(h, call + 1)
  {
  }
}
