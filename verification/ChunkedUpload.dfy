/** The streamed, resumable upload: a body of any length sent through one reused chunk, and what the
    bucket then holds. */
module ChunkedUpload {
  import opened Prelude

  const DEFAULT_CHUNK_SIZE := 0x80_0000   // 8 MiB

  type Byte = bv8

  // --- Content-Range, section 14.4 of RFC 9110 ---

  /** "bytes a-b/*", "bytes a-b/total" and, for a last request without bytes, "bytes */total". */
  datatype Range = Open(first: nat, last: int) | Last(first: nat, last: int, total: nat) | Nothing(total: nat) {
    predicate Final() { !Open? }
    function Start(): nat { if Nothing? then total else first }
    function Length(): int { if Nothing? then 0 else last - first + 1 }
  }

  datatype Put = Put(range: Range, payload: seq<Byte>)

  /** The requests that carry `body` from offset `sent` on. */
  function Plan(body: seq<Byte>, size: nat, sent: nat): seq<Put>
    requires size >= 1 && sent <= |body|
    decreases |body| - sent
  {
    if |body| - sent >= size then
      [Put(Open(sent, sent + size - 1), body[sent..sent + size])] + Plan(body, size, sent + size)
    else if sent == |body| then
      [Put(Nothing(sent), [])]
    else
      [Put(Last(sent, |body| - 1, |body|), body[sent..])]
  }

  /** There are len/size + 1 of them, so a body that fills its last chunk takes an empty request more. */
  lemma {:induction false} PlanLength(body: seq<Byte>, size: nat, sent: nat)
    requires size >= 1 && sent <= |body|
    ensures |Plan(body, size, sent)| == (|body| - sent) / size + 1
    decreases |body| - sent
  {
    if |body| - sent >= size {
      PlanLength(body, size, sent + size);
      OneChunkFewer(|body| - sent, size);
    }
  }

  lemma OneChunkFewer(n: nat, size: nat)
    requires 1 <= size <= n
    ensures n / size == (n - size) / size + 1
  {
    var q, r := (n - size) / size, (n - size) % size;
    assert n - size == q * size + r;
    assert (q + 1) * size == q * size + size;
    QuotientOf(n, size, q + 1, r);
  }

  lemma QuotientOf(n: nat, size: nat, q: nat, r: nat)
    requires r < size && n == q * size + r
    ensures n / size == q
  {
    var d := n / size;
    assert n == d * size + n % size;
    if d < q {
      Times(d + 1, q, size);
    } else if q < d {
      Times(q + 1, d, size);
    }
  }

  lemma Times(a: nat, b: nat, size: nat)
    requires a <= b
    ensures a * size <= b * size
  {
    assert b * size == a * size + (b - a) * size;
  }

  /** Request k starts where the ones before it end, is full unless it is the last, and states the
      length it carries; only the last states a total, which is the true one. */
  lemma {:induction false} PlanIsContiguous(body: seq<Byte>, size: nat, sent: nat, k: nat)
    requires size >= 1 && sent <= |body| && k < |Plan(body, size, sent)|
    ensures var plan := Plan(body, size, sent);
            && plan[k].range.Start() == sent + k * size && plan[k].range.Length() == |plan[k].payload|
            && (plan[k].range.Final() <==> k == |plan| - 1)
            && (if plan[k].range.Final() then plan[k].range.total == |body| && |plan[k].payload| < size
                else |plan[k].payload| == size)
    decreases |body| - sent
  {
    if |body| - sent >= size && k > 0 {
      PlanIsContiguous(body, size, sent + size, k - 1);
      assert (k - 1) * size + size == k * size;
    }
  }

  /** What a session holds after storing one more payload at its stated range. */
  function Placed(stored: seq<Byte>, p: Put): seq<Byte>
    requires p.range.Start() <= |stored|
  {
    var next := p.range.Start() + |p.payload|;
    stored[..p.range.Start()] + p.payload + if next < |stored| then stored[next..] else []
  }

  /** And after a run of requests; `None` when one of them would leave a gap before it. */
  function Reassembled(stored: seq<Byte>, puts: seq<Put>): Option<seq<Byte>>
    decreases |puts|
  {
    if puts == [] then Some(stored)
    else if puts[0].range.Start() > |stored| then None
    else Reassembled(Placed(stored, puts[0]), puts[1..])
  }

  lemma PlacedNext(body: seq<Byte>, sent: nat, p: Put)
    requires sent + |p.payload| <= |body| && p.range.Start() == sent && p.payload == body[sent..sent + |p.payload|]
    ensures Placed(body[..sent], p) == body[..sent + |p.payload|]
  {
  }

  /** The plan puts the body back together, byte for byte, for every length and chunk size. */
  lemma {:induction false} PlanReassembles(body: seq<Byte>, size: nat, sent: nat)
    requires size >= 1 && sent <= |body|
    ensures Reassembled(body[..sent], Plan(body, size, sent)) == Some(body)
    decreases |body| - sent
  {
    var plan := Plan(body, size, sent);
    PlacedNext(body, sent, plan[0]);
    if |body| - sent >= size {
      assert plan[1..] == Plan(body, size, sent + size);
      PlanReassembles(body, size, sent + size);
    } else {
      assert plan[1..] == [] && body[..|body|] == body;
    }
  }

  // --- the body ---

  /** How a reader ends: at its end, with the bare error "unexpected EOF", or with any other error. */
  datatype End = Eof | UnexpectedEof | Broken

  datatype ReadError = NoError | AtEof | ShortRead | ReadFailed

  /** Yields the first `cut` bytes of what was to be sent. */
  class Reader {
    const whole: seq<Byte>
    const cut: nat
    const end: End
    var pos: nat

    predicate Valid()
      reads this
    {
      pos <= cut <= |whole| && (end.Eof? ==> cut == |whole|)
    }

    constructor (whole: seq<Byte>, cut: nat, end: End)
      requires cut <= |whole| && (end.Eof? ==> cut == |whole|)
      ensures Valid() && pos == 0 && this.whole == whole && this.cut == cut && this.end == end
    {
      this.whole, this.cut, this.end, pos := whole, cut, end, 0;
    }

    /** Fills the chunk or says why not. A body that stops with "unexpected EOF" reads like one that ends. */
    method ReadFull(chunk: array<Byte>) returns (n: nat, err: ReadError)
      requires Valid() && chunk.Length >= 1
      modifies this, chunk
      ensures Valid() && pos == old(pos) + n
      ensures n == if cut - old(pos) >= chunk.Length then chunk.Length else cut - old(pos)
      ensures chunk[..n] == whole[old(pos)..old(pos) + n]
      ensures err == if n == chunk.Length then NoError
                     else if end.Broken? then ReadFailed
                     else if end.Eof? && n == 0 then AtEof else ShortRead
    {
      n := 0;
      while n < chunk.Length && pos < cut
        invariant Valid() && pos == old(pos) + n && n <= chunk.Length
        invariant chunk[..n] == whole[old(pos)..old(pos) + n]
      {
        chunk[n] := whole[pos];
        n, pos := n + 1, pos + 1;
      }
      err := if n == chunk.Length then NoError else if end.Broken? then ReadFailed
             else if end.Eof? && n == 0 then AtEof else ShortRead;
    }
  }

  // --- the bucket ---

  /** One object and the session that is writing it. `cooperative` says that nothing goes wrong on the
      server or on the way to it, `alone` that nobody else writes the object; `ours` records that the session
      wrote it. */
  class Bucket {
    var content: Option<seq<Byte>>
    var parts: seq<Byte>
    const cooperative: bool
    const alone: bool
    ghost var ours: bool
    ghost var inSession: bool   // one has been opened
    ghost var answer: nat    // the last status answered
    ghost var puts: seq<Put>

    constructor (content: Option<seq<Byte>>, cooperative: bool, alone: bool)
      ensures this.content == content && this.cooperative == cooperative && this.alone == alone
      ensures !ours && !inSession && answer == 0 && puts == []
    {
      this.content, this.cooperative, this.alone, parts := content, cooperative, alone, [];
      ours, inSession, answer, puts := false, false, 0, [];
    }

    /** Another writer may create the object at any moment. */
    method Elsewhere()
      modifies this`content
      ensures old(content).Some? || cooperative || alone ==> content == old(content)
    {
      var raced: bool, rival: seq<Byte> := *, *;
      if content.None? && raced && !cooperative && !alone {
        content := Some(rival);
      }
    }

    /** An answer that is none of the four that mean something here. */
    method OtherStatus() returns (status: nat)
      ensures status !in {200, 201, 308, 412}
    {
      var other: int := *;
      status := if other >= 0 && other !in {200, 201, 308, 412} then other else 0;
    }

    /** With a create-only session, 412 says that the object is already there. */
    method OpenSession(createOnly: bool) returns (status: nat)
      modifies this
      ensures content == old(content) && parts == [] && puts == [] && !ours
      ensures (inSession <==> status == 200) && answer == status
      ensures status == 412 ==> createOnly && content.Some?
      ensures cooperative ==> status == if createOnly && content.Some? then 412 else 200
    {
      parts, puts, ours := [], [], false;
      var refused := *;
      if refused && !cooperative {
        status := OtherStatus();
      } else {
        status := if createOnly && content.Some? then 412 else 200;
      }
      inSession, answer := status == 200, status;
    }

    /** 308: the chunk is stored. 200 and 201: the object is written. 412: a create-only object is already
        there. Anything else, or no answer at all (0), says nothing about what has happened. */
    method Receive(range: Range, payload: seq<Byte>, createOnly: bool) returns (status: nat)
      requires inSession && !ours
      modifies this
      ensures puts == old(puts) + [Put(range, payload)] && inSession && answer == status
      ensures ours ==> range.Final() && Fits(old(parts), Put(range, payload)) && content == Some(Placed(old(parts), Put(range, payload)))
      ensures Honest(old(content), content, ours, alone, createOnly)
      ensures status == 308 ==> !ours && Fits(old(parts), Put(range, payload)) && parts == Placed(old(parts), Put(range, payload))
      ensures status == 200 || status == 201 ==> ours
      ensures status == 412 ==> createOnly && content.Some?
      ensures cooperative && Fits(old(parts), Put(range, payload)) && (createOnly ==> old(content).None?) ==>
        if range.Final() then status == 200 else status == 308 && content == old(content)
    {
      Elsewhere();
      puts := puts + [Put(range, payload)];
      var refused, lost := *, *;
      if !Fits(parts, Put(range, payload)) || (refused && !cooperative) {
        status := OtherStatus();
      } else {
        var all := Placed(parts, Put(range, payload));
        if !range.Final() {
          parts := all;
          status := if lost && !cooperative then 0 else 308;
        } else if createOnly && content.Some? {
          status := 412;
        } else {
          content, ours := Some(all), true;
          status := if lost && !cooperative then 0 else 200;
        }
      }
      answer := status;
    }
  }

  /** How a session may change the object: not at all unless it wrote it or another writer did, and never
      an object that a create-only session found there. */
  ghost predicate Honest(before: Option<seq<Byte>>, after: Option<seq<Byte>>, ours: bool, alone: bool, createOnly: bool) {
    && (!ours && alone ==> after == before)
    && (createOnly && before.Some? ==> after == before && !ours)
    && (before.Some? ==> after.Some?)
  }

  /** A request a server can store: it leaves no gap, its range has its payload's length, and the total it
      states is what is then stored. */
  predicate Fits(stored: seq<Byte>, p: Put) {
    && p.range.Start() <= |stored| && p.range.Length() == |p.payload|
    && (p.range.Final() ==> p.range.total == |Placed(stored, p)|)
  }

  // --- archive.go ---

  /** The range of a chunk of `n` bytes sent after `sent` others. */
  function RangeOf(sent: nat, n: nat, last: bool): Range {
    if last && n == 0 then Nothing(sent) else if last then Last(sent, sent + n - 1, sent + n) else Open(sent, sent + n - 1)
  }

  /** The requests still to come. */
  ghost function Rest(body: seq<Byte>, size: nat, sent: nat, done: bool): seq<Put>
    requires size >= 1 && sent <= |body|
  {
    if done then [] else Plan(body, size, sent)
  }

  /** A turn that reads a full chunk, or the rest of the body, sends the request that is planned next. */
  lemma TurnIsPlanned(body: seq<Byte>, size: nat, sent: nat, n: nat, last: bool, p: Put)
    requires size >= 1 && sent + n <= |body| && (if last then n < size && sent + n == |body| else n == size)
    requires p == Put(RangeOf(sent, n, last), body[sent..sent + n])
    ensures Fits(body[..sent], p) && Placed(body[..sent], p) == body[..sent + n] && p.range.Final() == last
    ensures last ==> Placed(body[..sent], p) == body
    ensures Plan(body, size, sent) == [p] + Rest(body, size, sent + n, last)
  {
    PlacedNext(body, sent, p);
    assert body[..|body|] == body;
    assert last ==> body[sent..] == body[sent..sent + n];
  }

  datatype Outcome = Stored | AlreadyThere | Failed

  /** However it ends, an object the session wrote is exactly the bytes that were read, from a body that did
      not break, and nothing else of the bucket has changed. `Stored` says that it was written, by exactly the
      planned requests. With nothing going wrong outside it, the upload succeeds exactly when the body did
      not break. */
  method UploadStream(bucket: Bucket, body: Reader, chunkSize: int, createOnly: bool) returns (outcome: Outcome, ghost size: nat)
    requires body.Valid() && body.pos == 0 && !bucket.ours && bucket.answer == 0
    modifies bucket, body
    ensures size == if chunkSize <= 0 then DEFAULT_CHUNK_SIZE else chunkSize
    ensures bucket.puts <= Plan(body.whole[..body.cut], size, 0) || bucket.puts == old(bucket.puts)
    ensures bucket.ours ==> bucket.content == Some(body.whole[..body.cut]) && !body.end.Broken?
    ensures Honest(old(bucket.content), bucket.content, bucket.ours, bucket.alone, createOnly)
    ensures outcome.Stored? ==> bucket.ours && bucket.puts == Plan(body.whole[..body.cut], size, 0)
    ensures outcome.AlreadyThere? ==> createOnly && bucket.content.Some?
    ensures outcome.AlreadyThere? <==> createOnly && bucket.answer == 412
    ensures bucket.cooperative && (createOnly ==> old(bucket.content).None?) ==> (outcome.Stored? <==> !body.end.Broken?)
    ensures bucket.cooperative && createOnly && old(bucket.content).Some? ==> outcome.AlreadyThere?
  {
    var bytes := if chunkSize <= 0 then DEFAULT_CHUNK_SIZE else chunkSize;
    size := bytes;
    var ready := *;   // an access token and a request
    if !ready && !bucket.cooperative {
      return Failed, size;
    }
    var status := bucket.OpenSession(createOnly);
    if status == 412 && createOnly {
      return AlreadyThere, size;
    }
    if status != 200 {
      return Failed, size;
    }
    var chunk := new Byte[bytes];
    outcome := SendChunks(bucket, body, chunk, createOnly);
  }

  /** One turn of the loop: the chunk is refilled in place and sent with its range. */
  method SendOne(bucket: Bucket, body: Reader, chunk: array<Byte>, createOnly: bool, sent: nat)
    returns (n: nat, broken: bool, last: bool, status: nat)
    requires body.Valid() && body.pos == sent && chunk.Length >= 1 && !bucket.ours && bucket.parts == body.whole[..sent]
    requires bucket.inSession && bucket.answer != 412
    modifies bucket, body, chunk
    ensures body.Valid() && body.pos == sent + n
    ensures broken ==> body.end.Broken? && bucket.content == old(bucket.content) && !bucket.ours && bucket.puts == old(bucket.puts)
    ensures !broken ==> bucket.puts + Rest(body.whole[..body.cut], chunk.Length, sent + n, last)
                        == old(bucket.puts) + Plan(body.whole[..body.cut], chunk.Length, sent)
    ensures !broken && last ==> !body.end.Broken?
    ensures !broken && !last ==> n == chunk.Length && !bucket.ours
    ensures bucket.ours ==> bucket.content == Some(body.whole[..body.cut]) && !body.end.Broken?
    ensures Honest(old(bucket.content), bucket.content, bucket.ours, bucket.alone, createOnly)
    ensures !broken && !last && status == 308 ==> bucket.parts == body.whole[..sent + n]
    ensures !broken && last && (status == 200 || status == 201) ==> bucket.ours
    ensures !broken && status == 412 ==> createOnly && bucket.content.Some?
    ensures bucket.inSession && if broken then bucket.answer != 412 else bucket.answer == status
    ensures bucket.cooperative && (createOnly ==> old(bucket.content).None?) && !broken ==>
      if last then status == 200 else status == 308 && bucket.content == old(bucket.content)
    ensures body.end.Eof? || body.end.UnexpectedEof? ==> !broken
  {
    var err;
    n, err := body.ReadFull(chunk);
    broken, last, status := err.ReadFailed?, err.AtEof? || err.ShortRead?, 0;
    if broken {
      return;
    }
    var p := Put(RangeOf(sent, n, last), chunk[..n]);
    ghost var data := body.whole[..body.cut];
    assert data[..sent] == body.whole[..sent] && data[sent..sent + n] == chunk[..n] && data[..sent + n] == body.whole[..sent + n];
    TurnIsPlanned(data, chunk.Length, sent, n, last, p);
    ghost var before := bucket.puts;
    status := bucket.Receive(p.range, p.payload, createOnly);
    assert bucket.puts + Rest(data, chunk.Length, sent + n, last) == before + Plan(data, chunk.Length, sent);
  }

  /** The loop: what has been sent is always a prefix of the plan. */
  method SendChunks(bucket: Bucket, body: Reader, chunk: array<Byte>, createOnly: bool) returns (outcome: Outcome)
    requires body.Valid() && body.pos == 0 && chunk.Length >= 1
    requires bucket.parts == [] && bucket.puts == [] && !bucket.ours && bucket.inSession && bucket.answer != 412
    modifies bucket, body, chunk
    ensures bucket.puts <= Plan(body.whole[..body.cut], chunk.Length, 0)
    ensures bucket.ours ==> bucket.content == Some(body.whole[..body.cut]) && !body.end.Broken?
    ensures Honest(old(bucket.content), bucket.content, bucket.ours, bucket.alone, createOnly)
    ensures outcome.Stored? ==> bucket.ours && bucket.puts == Plan(body.whole[..body.cut], chunk.Length, 0)
    ensures outcome.AlreadyThere? ==> createOnly && bucket.content.Some?
    ensures outcome.AlreadyThere? <==> createOnly && bucket.answer == 412
    ensures bucket.cooperative && (createOnly ==> old(bucket.content).None?) ==> (outcome.Stored? <==> !body.end.Broken?)
  {
    ghost var data, size := body.whole[..body.cut], chunk.Length;
    ghost var plan := Plan(data, size, 0);
    var sent := 0;
    while true
      invariant body.Valid() && sent == body.pos && bucket.parts == body.whole[..sent] && !bucket.ours
      invariant bucket.inSession && bucket.answer != 412
      invariant bucket.puts + Rest(data, size, sent, false) == plan
      invariant Honest(old(bucket.content), bucket.content, false, bucket.alone, createOnly)
      invariant bucket.cooperative && (createOnly ==> old(bucket.content).None?) ==> (createOnly ==> bucket.content.None?)
      decreases |data| - sent
    {
      var n, broken, last, status := SendOne(bucket, body, chunk, createOnly, sent);
      if broken {
        return Failed;
      }
      if !last && status == 308 {
        sent := sent + n;
        continue;
      }
      if last && (status == 200 || status == 201) {
        return Stored;
      }
      return if status == 412 && createOnly then AlreadyThere else Failed;
    }
  }

  /** So a body whose source fails with the bare "unexpected EOF" after its first byte leaves a truncated
      object behind, and is reported as stored. */
  method ATruncatedBodyIsReportedAsStored(whole: seq<Byte>) returns (content: Option<seq<Byte>>, outcome: Outcome)
    requires |whole| >= 2
    ensures outcome.Stored? && content == Some(whole[..1]) && content != Some(whole)
  {
    var bucket := new Bucket(None, true, true);
    var body := new Reader(whole, 1, UnexpectedEof);
    ghost var size;
    outcome, size := UploadStream(bucket, body, 0, true);
    content := bucket.content;
  }
}
