/** Readers share one file position and still each deliver their own entry. */
module Readers {
  import opened ByteStrings
  import opened Outcomes
  import opened PakStates
  import opened PakCopying
  import opened Disks

  /** The handle an archive has on its file, if it has one. */
  ghost predicate Live(disk: Disk, path: Path, fp: Option<Handle>)
    reads disk`files, disk`cursors, disk`next, disk`log
  {
    && disk.Valid()
    && (fp.Some? ==> fp.value in disk.cursors && disk.cursors[fp.value].path == path && path in disk.files)
  }

  /** Goes to a place in the file and reads up to n bytes there. */
  method ReadAt(disk: Disk, path: Path, fp: Handle, at: nat, n: nat) returns (data: seq<byte>)
    requires Live(disk, path, Some(fp)) && at + n <= |disk.files[path]|
    modifies disk`cursors, disk`trouble
    ensures Live(disk, path, Some(fp)) && SameHandles(old(disk.cursors), disk.cursors)
    ensures (old(disk.trouble) ==> disk.trouble)
    ensures |data| <= n && (|data| < n ==> disk.trouble)
    ensures data != [] ==> data == disk.files[path][at..at + |data|]
  {
    data := [];
    var ok := disk.Seek(fp, at);
    if ok && n > 0 {
      data := disk.Read(fp, n);
    }
  }

  class Reader {
    const disk: Disk
    const path: Path

    /** Readers of ZIP archives deliver nothing of a read that comes short. */
    const zip: bool

    /** Where the next byte is in the file, unless the entry has been read into a buffer. */
    var nextOffset: nat
    var remaining: nat
    const buffer: Option<seq<byte>>
    var cursor: nat

    /** What there is to read, and what has been read. */
    ghost const content: seq<byte>
    ghost var delivered: seq<byte>

    ghost predicate Valid()
      reads this, disk`files
    {
      && delivered <= content && remaining == |content| - |delivered|
      && match buffer
         case Some(b) => b == content && cursor == |delivered|
         case None =>
           || remaining == 0
           || (path in disk.files
               && Slice(disk.files[path], nextOffset, remaining) == content[|delivered|..])
    }

    constructor (disk: Disk, path: Path, zip: bool, offset: nat, buffer: Option<seq<byte>>, length: nat,
                 ghost content: seq<byte>)
      requires |content| == length
      requires match buffer
               case Some(b) => b == content
               case None => length == 0 || (path in disk.files && Slice(disk.files[path], offset, length) == content)
      ensures Valid() && this.disk == disk && this.path == path && this.content == content && delivered == []
    {
      this.disk, this.path, this.zip, nextOffset, remaining, this.buffer, cursor := disk, path, zip, offset, length,
        buffer, 0;
      this.content, delivered := content, [];
    }

    /** Up to len bytes from where the reader is, through the archive's handle fp; it goes to its own place in the
        file first, because another reader may have moved the position. */
    method Read(fp: Option<Handle>, len: nat) returns (s: Status, data: seq<byte>)
      requires Valid() && Live(disk, path, fp)
      modifies this`nextOffset, this`remaining, this`cursor, this`delivered, disk`cursors, disk`trouble
      ensures Valid() && Live(disk, path, fp) && SameHandles(old(disk.cursors), disk.cursors)
      ensures (old(disk.trouble) ==> disk.trouble)
      ensures delivered == old(delivered) + data && |data| <= len && remaining == old(remaining) - |data|
      ensures fp.None? ==> s == InvalidArgument && data == []
      ensures fp.Some? ==> s == Ok || (s == IoError && disk.trouble)
      ensures s == Ok ==> |data| == Min(len, old(remaining))
    {
      hide Slice;
      data := [];
      if fp.None? { return InvalidArgument, data; }
      if remaining == 0 || len == 0 { return Ok, data; }
      if buffer.Some? {
        data := buffer.value[cursor..cursor + Min(len, |buffer.value| - cursor)];
        Advance(data);
        return Ok, data;
      }
      var chunk := Min(len, remaining);
      NextBytes(chunk);
      data := ReadAt(disk, path, fp.value, nextOffset, chunk);
      if zip && |data| < chunk { return IoError, []; }
      FirstBytes(data);
      Advance(data);
      return if |data| == chunk then Ok else IoError, data;
    }

    /** What is next in the file is what is next in the entry. */
    lemma NextBytes(n: nat)
      requires Valid() && buffer.None? && 0 < n <= remaining
      ensures path in disk.files && nextOffset + n <= |disk.files[path]|
      ensures Slice(disk.files[path], nextOffset, n) == content[|delivered|..|delivered| + n]
    {
      var file := disk.files[path];
      assert file[nextOffset..nextOffset + remaining] == content[|delivered|..];
      assert content[|delivered|..][..n] == content[|delivered|..|delivered| + n];
    }

    lemma FirstBytes(data: seq<byte>)
      requires Valid() && buffer.None? && |data| <= remaining
      requires data != [] ==>
        && path in disk.files && nextOffset + |data| <= |disk.files[path]|
        && data == disk.files[path][nextOffset..nextOffset + |data|]
      ensures data == content[|delivered|..|delivered| + |data|]
    {
      if data != [] { NextBytes(|data|); }
    }

    method Advance(data: seq<byte>)
      requires Valid() && |data| <= remaining && data == content[|delivered|..|delivered| + |data|]
      modifies this`nextOffset, this`remaining, this`cursor, this`delivered
      ensures Valid() && delivered == old(delivered) + data && remaining == old(remaining) - |data|
    {
      ghost var file := if path in disk.files then disk.files[path] else [];
      if buffer.None? && remaining > 0 {
        assert content[|delivered|..][|data|..] == content[|delivered| + |data|..];
        assert file[nextOffset..nextOffset + remaining][|data|..] == file[nextOffset + |data|..nextOffset + remaining];
      }
      if buffer.Some? { cursor := cursor + |data|; }
      if buffer.None? { nextOffset := nextOffset + |data|; }
      remaining, delivered := remaining - |data|, delivered + data;
    }
  }

  /** Reads until the reader has delivered everything. */
  method Drain(reader: Reader, fp: Handle) returns (s: Status, data: seq<byte>)
    requires reader.Valid() && Live(reader.disk, reader.path, Some(fp)) && reader.delivered == []
    modifies reader, reader.disk`cursors, reader.disk`trouble
    ensures Live(reader.disk, reader.path, Some(fp)) && SameHandles(old(reader.disk.cursors), reader.disk.cursors)
    ensures (old(reader.disk.trouble) ==> reader.disk.trouble) && (s == Ok || (s == IoError && reader.disk.trouble))
    ensures s == Ok ==> data == reader.content
  {
    hide Live;
    data := [];
    var total := reader.remaining;
    while |data| < total
      invariant reader.Valid() && Live(reader.disk, reader.path, Some(fp))
      invariant SameHandles(old(reader.disk.cursors), reader.disk.cursors)
      invariant reader.delivered == data && total == |reader.content|
      invariant old(reader.disk.trouble) ==> reader.disk.trouble
      decreases total - |data|
    {
      var more;
      s, more := reader.Read(Some(fp), reader.remaining);
      if s != Ok { return; }
      data := data + more;
    }
    s := Ok;
  }

  // ----- Many readers -----

  /** One read: which reader, and how much it asks for. */
  datatype Request = Request(reader: nat, len: nat)

  /** What came of a request. */
  datatype Answer = Answer(reader: nat, status: Status, data: seq<byte>)

  /** All that one of the readers got, in order. */
  function GotBy(answers: seq<Answer>, i: nat): seq<byte> {
    if answers == [] then []
    else
      var last := answers[|answers| - 1];
      GotBy(answers[..|answers| - 1], i) + if last.reader == i then last.data else []
  }

  lemma GotByMore(answers: seq<Answer>, x: Answer, i: nat)
    ensures GotBy(answers + [x], i) == GotBy(answers, i) + if x.reader == i then x.data else []
  {
    assert (answers + [x])[..|answers|] == answers;
  }

  /** Readers over one archive, none of them twice. */
  ghost predicate Sharing(disk: Disk, path: Path, readers: seq<Reader>)
    reads readers, disk`files
  {
    && (forall i :: 0 <= i < |readers| ==> readers[i].disk == disk && readers[i].path == path && readers[i].Valid())
    && (forall i, j :: 0 <= i < j < |readers| ==> readers[i] != readers[j])
  }

  /** What a reader that had so much left has left after these answers. */
  function Left(remaining: nat, answers: seq<Answer>, i: nat): int {
    remaining - |GotBy(answers, i)|
  }

  /** The answer to a request of a reader with so much left: all that was asked for or is left, or a
      part of it and an error. */
  ghost predicate Answers(x: Answer, q: Request, left: int, live: bool, trouble: bool) {
    && x.reader == q.reader && |x.data| <= q.len && |x.data| <= left
    && (x.status == Ok ==> |x.data| == Min(q.len, left) && live)
    && (x.status != Ok ==> if live then x.status == IoError && trouble else x.status == InvalidArgument && x.data == [])
  }

  /** Every request so far has been answered, given what the readers had left at the start. */
  ghost predicate AllAnswered(answers: seq<Answer>, requests: seq<Request>, start: seq<nat>, live: bool,
                              trouble: bool)
  {
    && |answers| <= |requests| && (forall q <- requests :: q.reader < |start|)
    && forall k :: 0 <= k < |answers| ==>
         Answers(answers[k], requests[k], Left(start[requests[k].reader], answers[..k], requests[k].reader), live,
                 trouble)
  }

  /** What the readers have delivered, and have left, is what the answers say. */
  ghost predicate Tracked(remains: seq<nat>, delivered: seq<seq<byte>>, start: seq<nat>, before: seq<seq<byte>>,
                          answers: seq<Answer>)
  {
    && |remains| == |delivered| == |start| == |before|
    && (forall i :: 0 <= i < |start| ==> delivered[i] == before[i] + GotBy(answers, i))
    && (forall i :: 0 <= i < |start| ==> remains[i] == Left(start[i], answers, i))
  }

  ghost function Remains(readers: seq<Reader>): (r: seq<nat>)
    reads readers
    ensures |r| == |readers| && forall i :: 0 <= i < |r| ==> r[i] == readers[i].remaining
  {
    seq(|readers|, i requires 0 <= i < |readers| reads readers => readers[i].remaining)
  }

  ghost function Deliveries(readers: seq<Reader>): (r: seq<seq<byte>>)
    reads readers
    ensures |r| == |readers| && forall i :: 0 <= i < |r| ==> r[i] == readers[i].delivered
  {
    seq(|readers|, i requires 0 <= i < |readers| reads readers => readers[i].delivered)
  }

  /** Whatever the order of the reads, each reader delivers its own entry from front to back, and every
      read without an error gives as much as it asked for or as its reader has left. */
  method Interleave(disk: Disk, path: Path, fp: Option<Handle>, readers: seq<Reader>, requests: seq<Request>)
    returns (answers: seq<Answer>)
    requires Live(disk, path, fp) && Sharing(disk, path, readers) && forall q <- requests :: q.reader < |readers|
    modifies readers, disk`cursors, disk`trouble
    ensures Live(disk, path, fp) && SameHandles(old(disk.cursors), disk.cursors) && Sharing(disk, path, readers)
    ensures |answers| == |requests| && (old(disk.trouble) ==> disk.trouble)
    ensures Tracked(Remains(readers), Deliveries(readers), old(Remains(readers)), old(Deliveries(readers)), answers)
    ensures forall i :: 0 <= i < |readers| ==>
      && readers[i].delivered <= readers[i].content
      && readers[i].remaining + |readers[i].delivered| == |readers[i].content|
    ensures AllAnswered(answers, requests, old(Remains(readers)), fp.Some?, disk.trouble)
  {
    hide Live, SameHandles, Sharing, Reader.Valid, AllAnswered, Tracked, Remains, Deliveries;
    answers := [];
    ghost var start, before := Remains(readers), Deliveries(readers);
    NothingYet(requests, start, before, fp.Some?, disk.trouble);
    SameSoFar(disk.cursors);
    for k := 0 to |requests|
      invariant Live(disk, path, fp) && SameHandles(old(disk.cursors), disk.cursors) && Sharing(disk, path, readers)
      invariant |answers| == k && (old(disk.trouble) ==> disk.trouble)
      invariant Tracked(Remains(readers), Deliveries(readers), start, before, answers)
      invariant AllAnswered(answers, requests, start, fp.Some?, disk.trouble)
    {
      var q := requests[k];
      assert q in requests;
      ghost var remains, delivered, trouble := Remains(readers), Deliveries(readers), disk.trouble;
      ghost var c0 := disk.cursors;
      var s, data := ReadOne(disk, path, fp, readers, q);
      SameStill(old(disk.cursors), c0, disk.cursors);
      OneMoreAnswer(answers, requests, remains, delivered, start, before, fp.Some?, trouble, disk.trouble,
                    Answer(q.reader, s, data));
      answers := answers + [Answer(q.reader, s, data)];
    }
    AllInOrder(disk, path, readers);
  }

  lemma SameSoFar(c: map<Handle, Cursor>)
    ensures SameHandles(c, c)
  {}

  lemma SameStill(c0: map<Handle, Cursor>, c1: map<Handle, Cursor>, c2: map<Handle, Cursor>)
    requires SameHandles(c0, c1) && SameHandles(c1, c2)
    ensures SameHandles(c0, c2)
  {}

  lemma OneMoreAnswer(answers: seq<Answer>, requests: seq<Request>, remains: seq<nat>, delivered: seq<seq<byte>>,
                      start: seq<nat>, before: seq<seq<byte>>, live: bool, trouble: bool, later: bool, x: Answer)
    requires Tracked(remains, delivered, start, before, answers) && AllAnswered(answers, requests, start, live, trouble)
    requires |answers| < |requests| && (trouble ==> later)
    requires var q := requests[|answers|]; q.reader < |start| && Answers(x, q, remains[q.reader], live, later)
    ensures |x.data| <= remains[x.reader]
    ensures Tracked(remains[x.reader := remains[x.reader] - |x.data|],
                    delivered[x.reader := delivered[x.reader] + x.data],
                    start, before, answers + [x])
    ensures AllAnswered(answers + [x], requests, start, live, later)
  {
    hide GotBy;
    forall i | 0 <= i < |start|
      ensures GotBy(answers + [x], i) == GotBy(answers, i) + if x.reader == i then x.data else [] {
      GotByMore(answers, x, i);
    }
    forall k | 0 <= k <= |answers| ensures (answers + [x])[..k] == answers[..k] {}
    assert answers[..|answers|] == answers;
  }

  lemma AllInOrder(disk: Disk, path: Path, readers: seq<Reader>)
    requires Sharing(disk, path, readers)
    ensures forall i :: 0 <= i < |readers| ==>
      && readers[i].delivered <= readers[i].content
      && readers[i].remaining + |readers[i].delivered| == |readers[i].content|
  {}

  /** A read moves one reader; the others stay where they are and stay sound. */
  method ReadOne(disk: Disk, path: Path, fp: Option<Handle>, readers: seq<Reader>, q: Request)
    returns (s: Status, data: seq<byte>)
    requires Live(disk, path, fp) && Sharing(disk, path, readers) && q.reader < |readers|
    modifies readers, disk`cursors, disk`trouble
    ensures SameHandles(old(disk.cursors), disk.cursors)
    ensures Live(disk, path, fp) && SameHandles(old(disk.cursors), disk.cursors) && Sharing(disk, path, readers)
    ensures (old(disk.trouble) ==> disk.trouble)
    ensures Answers(Answer(q.reader, s, data), q, old(Remains(readers))[q.reader], fp.Some?, disk.trouble)
    ensures |data| <= old(Remains(readers))[q.reader]
    ensures Remains(readers) == old(Remains(readers))[q.reader := old(Remains(readers))[q.reader] - |data|]
    ensures Deliveries(readers) == old(Deliveries(readers))[q.reader := old(Deliveries(readers))[q.reader] + data]
  {
    hide Live, SameHandles, Reader.Valid;
    s, data := readers[q.reader].Read(fp, q.len);
  }

  lemma NothingYet(requests: seq<Request>, start: seq<nat>, before: seq<seq<byte>>, live: bool, trouble: bool)
    requires |start| == |before| && forall q <- requests :: q.reader < |start|
    ensures Tracked(start, before, start, before, []) && AllAnswered([], requests, start, live, trouble)
  {}
}
