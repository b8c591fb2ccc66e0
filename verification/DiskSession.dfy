/** Whole sessions on the disk refine a flat byte image with a cursor. */
module DiskSession {
  import opened Bytes
  import opened Disk
  import opened Numbers

  datatype FlatDisk = FlatDisk(image: seq<Byte>, pos: nat)

  datatype Request = ReadBytes(n: nat) | WriteBytes(data: seq<Byte>) | SeekTo(target: SeekFrom)

  datatype Reply = Data(bytes: seq<Byte>) | Count(n: nat) | Position(p: nat) | Error(error: IoError)

  /** How many of `n` bytes there are between the cursor and the end. */
  function Room(f: FlatDisk, n: nat): nat {
    if f.pos + n <= |f.image| then n else if f.pos <= |f.image| then |f.image| - f.pos else 0
  }

  /** How many bytes a request asks for. */
  function Size(req: Request): nat {
    match req
    case ReadBytes(n) => n
    case WriteBytes(data) => |data|
    case SeekTo(_) => 0
  }

  /** What a flat disk does when at most `limit` bytes get through: transfer what there is
      room for, and fail if that is not all. */
  ghost function FlatStep(f: FlatDisk, req: Request, limit: nat): (FlatDisk, Reply) {
    var k := Min(limit, Room(f, Size(req)));
    match req
    case ReadBytes(n) =>
      (f.(pos := f.pos + k),
       if k < n then Error(Other) else Data(if n == 0 then [] else f.image[f.pos..f.pos + n]))
    case WriteBytes(data) =>
      (FlatDisk(Overwrite(f.image, f.pos, data[..k]), f.pos + k),
       if k < |data| then Error(Other) else Count(|data|))
    case SeekTo(target) =>
      match SeekWrapped(f.pos, target)
      case Done(p) => (f.(pos := p), Position(p))
      case Failed(e) => (f, Error(e))
  }

  ghost function FlatRun(f: FlatDisk, reqs: seq<Request>, limits: seq<nat>): (FlatDisk, seq<Reply>)
    requires |limits| == |reqs|
    decreases reqs
  {
    if reqs == [] then (f, [])
    else
      var (f1, reply) := FlatStep(f, reqs[0], limits[0]);
      var (f2, replies) := FlatRun(f1, reqs[1..], limits[1..]);
      (f2, [reply] + replies)
  }

  /** The limits of a device without faults: whatever is asked for. */
  function Sizes(reqs: seq<Request>): (r: seq<nat>)
    ensures |r| == |reqs|
    decreases reqs
  {
    if reqs == [] then [] else [Size(reqs[0])] + Sizes(reqs[1..])
  }

  /** Arguments that fit the 64-bit parameters of the interface. */
  predicate Representable(req: Request) { req.SeekTo? ==> Fits64(req.target) }

  ghost function View(disk: VirtioDisk): FlatDisk
    requires disk.Valid()
    reads disk, disk.driver
  {
    FlatDisk(disk.Image(), disk.pos)
  }

  /** Positions are 64-bit numbers; the device may have faults. */
  ghost predicate Usable(disk: VirtioDisk)
    reads disk, disk.driver
  {
    disk.Valid() && |disk.Image()| < TWO64 && disk.pos < TWO64
  }

  /** A transfer that ended after k of n bytes, without a fault only at the end of the image. */
  predicate Stopped(f: FlatDisk, n: nat, k: nat, healthy: bool) {
    && k <= n && (k > 0 ==> f.pos + k <= |f.image|)
    && (healthy && k < n ==> |f.image| <= f.pos + k)
  }

  lemma StoppedAtRoom(f: FlatDisk, n: nat, k: nat, healthy: bool)
    requires Stopped(f, n, k, healthy)
    ensures k <= Room(f, n) && (healthy ==> k == Room(f, n))
  {
  }

  /** A read into a fresh buffer. */
  method ReadOut(disk: VirtioDisk, n: nat) returns (bytes: seq<Byte>, moved: nat)
    requires Usable(disk)
    modifies disk, disk.driver
    ensures disk.Valid() && View(disk) == old(View(disk)).(pos := old(disk.pos) + moved)
    ensures |bytes| == n && moved <= n && HoldsAt(old(disk.Image()), old(disk.pos), bytes[..moved])
    ensures disk.driver.transfers >= old(disk.driver.transfers)
    ensures Stopped(old(View(disk)), n, moved,
                    Healthy(disk.driver.faulty, old(disk.driver.transfers), disk.driver.transfers))
  {
    var buf := new Byte[n](_ => 0);
    var before := disk.pos;
    var r := disk.Read(buf);
    moved := disk.pos - before;
    bytes := buf[..];
    assert bytes[..moved] == buf[..moved];
  }

  method PerformRead(disk: VirtioDisk, n: nat) returns (reply: Reply, moved: nat)
    requires Usable(disk)
    modifies disk, disk.driver
    ensures Usable(disk) && moved <= n && disk.driver.transfers >= old(disk.driver.transfers)
    ensures (View(disk), reply) == FlatStep(old(View(disk)), ReadBytes(n), moved)
    ensures Healthy(disk.driver.faulty, old(disk.driver.transfers), disk.driver.transfers) ==>
            moved == Room(old(View(disk)), n)
  {
    ghost var f := View(disk);
    var bytes;
    bytes, moved := ReadOut(disk, n);
    reply := if moved == n then Data(bytes) else Error(Other);
    ReadRefines(f, bytes, moved);
    StoppedAtRoom(f, n, moved, Healthy(disk.driver.faulty, old(disk.driver.transfers), disk.driver.transfers));
  }

  /** Bytes of the image at the cursor are what a flat disk returns. */
  lemma ReadRefines(f: FlatDisk, bytes: seq<Byte>, k: nat)
    requires k <= |bytes| && HoldsAt(f.image, f.pos, bytes[..k])
    ensures FlatStep(f, ReadBytes(|bytes|), k) ==
            (f.(pos := f.pos + k), if k < |bytes| then Error(Other) else Data(bytes))
  {
    assert bytes[..|bytes|] == bytes;
  }

  method PerformWrite(disk: VirtioDisk, data: seq<Byte>) returns (reply: Reply, moved: nat)
    requires Usable(disk)
    modifies disk, disk.driver
    ensures Usable(disk) && moved <= |data| && disk.driver.transfers >= old(disk.driver.transfers)
    ensures (View(disk), reply) == FlatStep(old(View(disk)), WriteBytes(data), moved)
    ensures Healthy(disk.driver.faulty, old(disk.driver.transfers), disk.driver.transfers) ==>
            moved == Room(old(View(disk)), |data|)
  {
    ghost var f := View(disk);
    var before := disk.pos;
    var r := disk.Write(data);
    moved := disk.pos - before;
    reply := if r.Done? then Count(r.value) else Error(r.error);
    StoppedAtRoom(f, |data|, moved, Healthy(disk.driver.faulty, old(disk.driver.transfers), disk.driver.transfers));
  }

  method Perform(disk: VirtioDisk, req: Request) returns (reply: Reply, moved: nat)
    requires Usable(disk) && Representable(req)
    modifies disk, disk.driver
    ensures Usable(disk) && moved <= Size(req) && disk.driver.transfers >= old(disk.driver.transfers)
    ensures (View(disk), reply) == FlatStep(old(View(disk)), req, moved)
    ensures Healthy(disk.driver.faulty, old(disk.driver.transfers), disk.driver.transfers) ==>
            (View(disk), reply) == FlatStep(old(View(disk)), req, Size(req))
  {
    match req {
      case ReadBytes(n) => reply, moved := PerformRead(disk, n);
      case WriteBytes(data) => reply, moved := PerformWrite(disk, data);
      case SeekTo(target) =>
        var r := disk.Seek(target);
        reply, moved := if r.Done? then Position(r.value) else Error(r.error), 0;
    }
  }

  /** Disk refinement: on every device, however it fails, a session gives the answers of a
      flat disk that lets some bytes of each request through, and ends in its state; while
      no transfer fails, these are all the bytes there are. */
  method Serve(disk: VirtioDisk, reqs: seq<Request>) returns (replies: seq<Reply>, moved: seq<nat>)
    requires Usable(disk) && forall i :: 0 <= i < |reqs| ==> Representable(reqs[i])
    modifies disk, disk.driver
    ensures Usable(disk) && |moved| == |reqs| && disk.driver.transfers >= old(disk.driver.transfers)
    ensures forall i :: 0 <= i < |reqs| ==> moved[i] <= Size(reqs[i])
    ensures (View(disk), replies) == FlatRun(old(View(disk)), reqs, moved)
    ensures Healthy(disk.driver.faulty, old(disk.driver.transfers), disk.driver.transfers) ==>
            (View(disk), replies) == FlatRun(old(View(disk)), reqs, Sizes(reqs))
    decreases |reqs|
  {
    if reqs == [] {
      return [], [];
    }
    var reply, count := Perform(disk, reqs[0]);
    ghost var f1 := View(disk);
    var rest, counts := Serve(disk, reqs[1..]);
    replies, moved := [reply] + rest, [count] + counts;
    assert moved[1..] == counts && Sizes(reqs)[1..] == Sizes(reqs[1..]);
    assert (View(disk), rest) == FlatRun(f1, reqs[1..], counts);
  }

  // ----- what the flat disk promises

  lemma OneRequest(f: FlatDisk, req: Request, limit: nat, reqs: seq<Request>, limits: seq<nat>)
    requires |limits| == |reqs|
    ensures var (f1, reply) := FlatStep(f, req, limit);
            FlatRun(f, [req] + reqs, [limit] + limits).1 == [reply] + FlatRun(f1, reqs, limits).1
  {
    assert ([req] + reqs)[1..] == reqs && ([limit] + limits)[1..] == limits;
  }

  lemma ReadsWritten(f: FlatDisk, data: seq<Byte>)
    requires f.pos + |data| <= |f.image|
    ensures FlatStep(FlatDisk(Overwrite(f.image, f.pos, data), f.pos), ReadBytes(|data|), |data|).1 == Data(data)
  {
    OverwriteHolds(f.image, f.pos, data);
  }

  lemma WritesThrough(f: FlatDisk, data: seq<Byte>, k: nat)
    requires k <= |data| && f.pos + k <= |f.image| && f.pos < TWO63
    ensures var (f1, reply) := FlatStep(f, WriteBytes(data), k);
            && reply == (if k < |data| then Error(Other) else Count(k))
            && FlatStep(f1, SeekTo(Start(f.pos)), 0) ==
               (FlatDisk(Overwrite(f.image, f.pos, data[..k]), f.pos), Position(f.pos))
  {
  }

  /** A write of which k bytes get through, followed by a seek back and a read, returns
      these k bytes. */
  lemma {:induction false} ReadBack(f: FlatDisk, data: seq<Byte>, k: nat)
    requires k <= |data| && f.pos + k <= |f.image| && f.pos < TWO63
    ensures FlatRun(f, [WriteBytes(data), SeekTo(Start(f.pos)), ReadBytes(k)], [k, 0, k]).1 ==
            [if k < |data| then Error(Other) else Count(k), Position(f.pos), Data(data[..k])]
  {
    var back, again := SeekTo(Start(f.pos)), ReadBytes(k);
    var f1 := FlatStep(f, WriteBytes(data), k).0;
    var f2 := FlatDisk(Overwrite(f.image, f.pos, data[..k]), f.pos);
    OneRequest(f, WriteBytes(data), k, [back] + [again], [0] + [k]);
    WritesThrough(f, data, k);
    OneRequest(f1, back, 0, [again], [k]);
    ReadsWritten(f, data[..k]);
    OneRequest(f2, again, k, [], []);
    assert [again] + [] == [again] && [k] + [] == [k];
    assert [WriteBytes(data), back, again] == [WriteBytes(data)] + ([back] + [again]);
    assert [k, 0, k] == [k] + ([0] + [k]);
  }

  /** Two writes in a row, the first of them complete, are one write of the concatenation. */
  lemma {:induction false} WritesConcatenate(f: FlatDisk, first: seq<Byte>, second: seq<Byte>, limit: nat)
    requires f.pos + |first| <= |f.image|
    ensures FlatRun(f, [WriteBytes(first), WriteBytes(second)], [|first|, limit]).0 ==
            FlatStep(f, WriteBytes(first + second), |first| + limit).0
  {
    var f1 := FlatStep(f, WriteBytes(first), |first|).0;
    var k := Min(limit, Room(f1, |second|));
    assert Min(|first| + limit, Room(f, |first + second|)) == |first| + k;
    assert first[..|first|] == first && (first + second)[..|first| + k] == first + second[..k];
    OverwriteAppends(f.image, f.pos, first, second[..k]);
    assert [WriteBytes(first), WriteBytes(second)][1..] == [WriteBytes(second)] && [|first|, limit][1..] == [limit];
    assert FlatRun(f1, [WriteBytes(second)], [limit]).0 == FlatStep(f1, WriteBytes(second), limit).0;
  }
}
