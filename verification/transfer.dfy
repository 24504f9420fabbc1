/**
 * Per-connection file transfer framing over a stream socket. A connection is
 * modelled by what its reads will return (`inbox`, one element per `recv`) and
 * by the log of everything done on it. Message 1 is the relative path, message
 * 2 the two bytes "OK" back, then the file bytes until the sender closes.
 */
module Transfer {

  import opened Common

  const FILE_TRANSFER_PORT: nat := 5001
  const BUFFER_SIZE: nat := 8192

  /** The acknowledgement `b"OK"`. */
  const ACK: Bytes := [79, 75]

  /** One thing done on a connection, as seen from this end. */
  datatype Event = Got(data: Bytes) | Sent(data: Bytes) | Closed

  /** One file to send: where it is read from, and the path the receiver stores it under. */
  datatype Item = Item(source: string, relPath: string)

  /** How a receiving connection ended. */
  datatype Received = Stored(path: Bytes, content: Bytes) | StoreFailed(path: Bytes)

  datatype Failure = ConnectFailed | FileUnreadable

  /** What the sender reports once the batch is over. */
  datatype SendOutcome = AllSent(count: nat, ip: string) | SendFailed(at: nat, reason: Failure)

  function Min(a: int, b: int): int { if a <= b then a else b }

  /** What `recv` returns next: after the peer has closed, every read is empty. */
  function Head(inbox: seq<Bytes>): Bytes { if inbox == [] then [] else inbox[0] }

  function Tail(inbox: seq<Bytes>): seq<Bytes> { if inbox == [] then [] else inbox[1..] }

  function Reads(chunks: seq<Bytes>): seq<Event>
  {
    if chunks == [] then [] else [Got(chunks[0])] + Reads(chunks[1..])
  }

  function Writes(chunks: seq<Bytes>): seq<Event>
  {
    if chunks == [] then [] else [Sent(chunks[0])] + Writes(chunks[1..])
  }

  lemma {:induction false} ReadsSnoc(chunks: seq<Bytes>, c: Bytes)
    ensures Reads(chunks + [c]) == Reads(chunks) + [Got(c)]
  {
    if chunks != [] {
      assert (chunks + [c])[1..] == chunks[1..] + [c];
      ReadsSnoc(chunks[1..], c);
    }
  }

  lemma {:induction false} WritesSnoc(chunks: seq<Bytes>, c: Bytes)
    ensures Writes(chunks + [c]) == Writes(chunks) + [Sent(c)]
  {
    if chunks != [] {
      assert (chunks + [c])[1..] == chunks[1..] + [c];
      WritesSnoc(chunks[1..], c);
    }
  }

  /** The payloads this end wrote, in order. */
  function Outgoing(log: seq<Event>): seq<Bytes>
  {
    if log == [] then []
    else (if log[0].Sent? then [log[0].data] else []) + Outgoing(log[1..])
  }

  lemma {:induction false} OutgoingAppend(a: seq<Event>, b: seq<Event>)
    ensures Outgoing(a + b) == Outgoing(a) + Outgoing(b)
  {
    if a == [] {
      assert a + b == b;
    } else {
      assert (a + b)[1..] == a[1..] + b;
      OutgoingAppend(a[1..], b);
    }
  }

  lemma {:induction false} OutgoingWrites(chunks: seq<Bytes>)
    ensures Outgoing(Writes(chunks)) == chunks
  {
    if chunks != [] {
      OutgoingWrites(chunks[1..]);
      assert Writes(chunks) == [Sent(chunks[0])] + Writes(chunks[1..]);
      OutgoingAppend([Sent(chunks[0])], Writes(chunks[1..]));
    }
  }

  lemma {:induction false} OutgoingReads(chunks: seq<Bytes>)
    ensures Outgoing(Reads(chunks)) == []
  {
    if chunks != [] {
      OutgoingReads(chunks[1..]);
      OutgoingAppend([Got(chunks[0])], Reads(chunks[1..]));
    }
  }

  /** UTF-8 encoding of one character (`str.encode()`). */
  function EncodeChar(c: char): (b: Bytes)
    ensures 1 <= |b| <= 4
    ensures (c as int) < 0x80 ==> b == [c as int]
  {
    var n := c as int;
    if n < 0x80 then [n]
    else if n < 0x800 then [0xC0 + n / 0x40, 0x80 + n % 0x40]
    else if n < 0x10000 then [0xE0 + n / 0x1000, 0x80 + (n / 0x40) % 0x40, 0x80 + n % 0x40]
    else [0xF0 + n / 0x40000, 0x80 + (n / 0x1000) % 0x40, 0x80 + (n / 0x40) % 0x40, 0x80 + n % 0x40]
  }

  /** UTF-8 encoding of a path (`rel_path.encode()`). */
  function EncodeText(s: string): (b: Bytes)
    ensures |s| <= |b| <= 4 * |s|
    ensures (forall i :: 0 <= i < |s| ==> (s[i] as int) < 0x80) ==>
      |b| == |s| && forall i :: 0 <= i < |s| ==> b[i] == s[i] as int
  {
    if s == [] then [] else EncodeChar(s[0]) + EncodeText(s[1..])
  }

  class Connection {
    /** What the coming reads return, one element per `recv`. */
    var inbox: seq<Bytes>
    /** Everything done on this connection so far. */
    var log: seq<Event>

    constructor (inbox: seq<Bytes>)
      ensures this.inbox == inbox && log == []
    {
      this.inbox := inbox;
      log := [];
    }

    /** `recv`: the next chunk, or empty once the peer has closed. */
    method Recv() returns (data: Bytes)
      modifies this
      ensures data == Head(old(inbox)) && inbox == Tail(old(inbox))
      ensures log == old(log) + [Got(data)]
    {
      if inbox == [] {
        data := [];
      } else {
        data := inbox[0];
        inbox := inbox[1..];
      }
      log := log + [Got(data)];
    }

    /** `send` / `sendall`: the whole of `data` goes out. */
    method Send(data: Bytes)
      modifies this
      ensures inbox == old(inbox) && log == old(log) + [Sent(data)]
    {
      log := log + [Sent(data)];
    }

    method Close()
      modifies this
      ensures inbox == old(inbox) && log == old(log) + [Closed]
    {
      log := log + [Closed];
    }
  }

  /** The file part of a stream: the chunks before the first empty read. */
  function BodyChunks(s: seq<Bytes>): (body: seq<Bytes>)
    ensures |body| <= |s| && body == s[..|body|]
    ensures forall i :: 0 <= i < |body| ==> body[i] != []
    ensures |body| < |s| ==> s[|body|] == []
  {
    if s == [] || s[0] == [] then [] else [s[0]] + BodyChunks(s[1..])
  }

  /** However the sender's bytes are cut into non-empty reads, the body is exactly those reads. */
  lemma {:induction false} BodyOfClosedStream(chunks: seq<Bytes>, rest: seq<Bytes>)
    requires forall i :: 0 <= i < |chunks| ==> chunks[i] != []
    ensures BodyChunks(chunks + [[]] + rest) == chunks
    ensures BodyChunks(chunks) == chunks
  {
    if chunks != [] {
      assert (chunks + [[]] + rest)[1..] == chunks[1..] + [[]] + rest;
      BodyOfClosedStream(chunks[1..], rest);
    }
  }

  /**
   * The receiving side of one connection: read the path, answer "OK", then
   * append every read to the file until the first empty one. When the file
   * cannot be created (`storeOk` false) the handler stops right after the
   * answer, leaving the connection open.
   */
  method HandleIncomingFile(conn: Connection, storeOk: bool) returns (r: Received)
    modifies conn
    ensures var path := Head(old(conn.inbox));
            var body := BodyChunks(Tail(old(conn.inbox)));
            if storeOk then
              && r == Stored(path, Flatten(body))
              && conn.log == old(conn.log) + [Got(path), Sent(ACK)] + Reads(body) + [Got([]), Closed]
              && conn.inbox == Tail(Tail(old(conn.inbox))[|body|..])
            else
              && r == StoreFailed(path)
              && conn.log == old(conn.log) + [Got(path), Sent(ACK)]
              && conn.inbox == Tail(old(conn.inbox))
    ensures |old(conn.log)| <= |conn.log| && Outgoing(conn.log[|old(conn.log)|..]) == [ACK]
  {
    ghost var start := conn.log;
    var path := conn.Recv();
    conn.Send(ACK);
    if !storeOk {
      assert conn.log[|start|..] == [Got(path), Sent(ACK)];
      assert [Sent(ACK)][1..] == [];
      assert Outgoing([Sent(ACK)]) == [ACK];
      OutgoingAppend([Got(path)], [Sent(ACK)]);
      return StoreFailed(path);
    }
    ghost var body := BodyChunks(conn.inbox);
    var content := ReceiveBody(conn);
    conn.Close();
    r := Stored(path, content);
    assert conn.log[|start|..] == [Got(path), Sent(ACK)] + Reads(body) + [Got([]), Closed];
    ServerAnswersOnce(path, body);
  }

  /** The `while True` loop of the receiver: append reads to the file until an empty one. */
  method ReceiveBody(conn: Connection) returns (content: Bytes)
    modifies conn
    ensures var body := BodyChunks(old(conn.inbox));
      && content == Flatten(body)
      && conn.log == old(conn.log) + Reads(body) + [Got([])]
      && conn.inbox == Tail(old(conn.inbox)[|body|..])
  {
    ghost var stream := conn.inbox;
    ghost var body := BodyChunks(stream);
    ghost var start := conn.log;
    ghost var k := 0;
    content := [];
    while true
      invariant 0 <= k <= |body|
      invariant conn.inbox == stream[k..]
      invariant content == Flatten(body[..k])
      invariant conn.log == start + Reads(body[..k])
      decreases |body| - k
    {
      var data := conn.Recv();
      if data == [] {
        assert k == |body|;
        assert body[..k] == body;
        break;
      }
      assert k < |stream| && data == stream[k];
      assert k < |body|;
      assert body[..k + 1] == body[..k] + [data];
      FlattenAppend(body[..k], [data]);
      ReadsSnoc(body[..k], data);
      content := content + data;
      k := k + 1;
    }
  }

  /**
   * On a connection it stores, the receiver writes exactly one thing, the
   * "OK", and it does so right after reading the path, before any file data.
   */
  lemma ServerAnswersOnce(path: Bytes, body: seq<Bytes>)
    ensures var log := [Got(path), Sent(ACK)] + Reads(body) + [Got([]), Closed];
      && Outgoing(log) == [ACK]
      && log[1] == Sent(ACK)
      && forall i :: 2 <= i < |log| ==> !log[i].Sent?
  {
    var log := [Got(path), Sent(ACK)] + Reads(body) + [Got([]), Closed];
    OutgoingAppend([Got(path), Sent(ACK)] + Reads(body), [Got([]), Closed]);
    OutgoingAppend([Got(path), Sent(ACK)], Reads(body));
    OutgoingReads(body);
    assert Outgoing([Got(path), Sent(ACK)]) == [ACK];
    assert Outgoing([Got([]), Closed]) == [];
    forall i | 2 <= i < |log|
      ensures !log[i].Sent?
    {
      if i < 2 + |Reads(body)| {
        ReadsAreGots(body, i - 2);
      }
    }
  }

  lemma {:induction false} ReadsAreGots(chunks: seq<Bytes>, i: nat)
    requires i < |Reads(chunks)|
    ensures |Reads(chunks)| == |chunks| && Reads(chunks)[i] == Got(chunks[i])
  {
    if i > 0 {
      ReadsAreGots(chunks[1..], i - 1);
    } else if |chunks| > 1 {
      ReadsAreGots(chunks[1..], 0);
    }
  }

  /** The reads `f.read(BUFFER_SIZE)` returns before the empty one at end of file. */
  function Chunked(content: Bytes): seq<Bytes>
    decreases |content|
  {
    if |content| == 0 then [] else
      var n := Min(BUFFER_SIZE, |content|);
      [content[..n]] + Chunked(content[n..])
  }

  /**
   * The reads give back the file's bytes, none is empty or longer than
   * BUFFER_SIZE, and all but the last are full.
   */
  lemma {:induction false} ChunkedSpec(content: Bytes)
    ensures var chunks := Chunked(content);
      && Flatten(chunks) == content
      && (forall i :: 0 <= i < |chunks| ==> 0 < |chunks[i]| <= BUFFER_SIZE)
      && (forall i :: 0 <= i < |chunks| - 1 ==> |chunks[i]| == BUFFER_SIZE)
    decreases |content|
  {
    if |content| > 0 {
      var n := Min(BUFFER_SIZE, |content|);
      ChunkedSpec(content[n..]);
      assert content == content[..n] + content[n..];
      var chunks := Chunked(content);
      assert chunks[1..] == Chunked(content[n..]);
    }
  }

  /** What goes on one connection when the item's file could be opened. */
  function ItemTrace(relPath: string, ack: Bytes, content: Bytes): seq<Event>
  {
    [Sent(EncodeText(relPath)), Got(ack)] + Writes(Chunked(content)) + [Closed]
  }

  /**
   * The sending side of one connection: send the path, read the answer and
   * ignore it, then send the file in reads of at most BUFFER_SIZE bytes. A file
   * that cannot be opened (`file` None) raises before anything else is sent.
   */
  method SendItem(conn: Connection, relPath: string, file: Option<Bytes>) returns (ok: bool)
    modifies conn
    ensures ok <==> file.Some?
    ensures ok ==> conn.log == old(conn.log) + ItemTrace(relPath, Head(old(conn.inbox)), file.value)
    ensures !ok ==> conn.log == old(conn.log) + [Sent(EncodeText(relPath)), Got(Head(old(conn.inbox)))]
    ensures conn.inbox == Tail(old(conn.inbox))
  {
    conn.Send(EncodeText(relPath));
    var ack := conn.Recv();
    if file.None? {
      return false;
    }
    SendBody(conn, file.value);
    conn.Close();
    ok := true;
  }

  /** Reading on from offset `pos` yields the next read and then the reads after it. */
  lemma ChunkedStep(content: Bytes, pos: nat)
    requires pos < |content|
    ensures var n := Min(BUFFER_SIZE, |content| - pos);
      Chunked(content[pos..]) == [content[pos..pos + n]] + Chunked(content[pos + n..])
  {
    var rest := content[pos..];
    var n := Min(BUFFER_SIZE, |content| - pos);
    assert rest[..n] == content[pos..pos + n];
    assert rest[n..] == content[pos + n..];
  }

  /** The `while True` loop of the sender: `sendall` every read of the file until the empty one. */
  method SendBody(conn: Connection, content: Bytes)
    modifies conn
    ensures conn.log == old(conn.log) + Writes(Chunked(content))
    ensures conn.inbox == old(conn.inbox)
  {
    ghost var sent: seq<Bytes> := [];
    var pos := 0;
    while true
      invariant 0 <= pos <= |content|
      invariant sent + Chunked(content[pos..]) == Chunked(content)
      invariant conn.log == old(conn.log) + Writes(sent)
      invariant conn.inbox == old(conn.inbox)
      decreases |content| - pos
    {
      var n := Min(BUFFER_SIZE, |content| - pos);
      var chunk := content[pos..pos + n];
      if |chunk| == 0 {
        assert content[pos..] == [];
        break;
      }
      ChunkedStep(content, pos);
      assert (sent + [chunk]) + Chunked(content[pos + n..]) == sent + Chunked(content[pos..]);
      conn.Send(chunk);
      WritesSnoc(sent, chunk);
      sent := sent + [chunk];
      pos := pos + n;
    }
    assert sent == Chunked(content);
  }

  /**
   * The reads the server sees on a connection are what the client wrote, then
   * the close. Each write is taken to arrive as one read; a relative path is a
   * base name or a folder name joined with a listing entry, never empty, so
   * its write is a non-empty read.
   */
  lemma ClientServerRoundTrip(relPath: string, ack: Bytes, content: Bytes)
    requires relPath != []
    ensures var inbox := Outgoing(ItemTrace(relPath, ack, content));
      && Head(inbox) == EncodeText(relPath) && Head(inbox) != []
      && Flatten(BodyChunks(Tail(inbox))) == content
  {
    var chunks := Chunked(content);
    OutgoingAppend([Sent(EncodeText(relPath)), Got(ack)] + Writes(chunks), [Closed]);
    OutgoingAppend([Sent(EncodeText(relPath)), Got(ack)], Writes(chunks));
    OutgoingWrites(chunks);
    assert Outgoing([Sent(EncodeText(relPath)), Got(ack)]) == [EncodeText(relPath)];
    var inbox := [EncodeText(relPath)] + chunks;
    assert Outgoing(ItemTrace(relPath, ack, content)) == inbox;
    assert Tail(inbox) == chunks;
    ChunkedSpec(content);
    BodyOfClosedStream(chunks, []);
  }

  /**
   * `send_files`: one fresh connection per item, in list order; the batch
   * stops at the first failure. `connects(i)` says whether the i-th connection
   * attempt succeeds, `files` maps readable paths to their bytes. Each
   * returned log is one connection's; every peer answers "OK".
   */
  method SendFiles(ip: string, items: seq<Item>, files: map<string, Bytes>, connects: nat -> bool)
    returns (wires: seq<seq<Event>>, outcome: SendOutcome)
    ensures outcome.AllSent? <==> forall i :: 0 <= i < |items| ==> connects(i) && items[i].source in files
    ensures outcome.AllSent? ==> outcome == AllSent(|items|, ip) && |wires| == |items|
    ensures outcome.SendFailed? ==>
      var k := outcome.at;
      && k < |items|
      && (forall i :: 0 <= i < k ==> connects(i) && items[i].source in files)
      && (outcome.reason == ConnectFailed <==> !connects(k))
      && (outcome.reason == ConnectFailed ==> |wires| == k)
      && (outcome.reason == FileUnreadable ==>
            && items[k].source !in files
            && |wires| == k + 1
            && wires[k] == [Sent(EncodeText(items[k].relPath)), Got(ACK)])
    ensures |wires| <= |items|
    ensures forall i :: 0 <= i < |wires| && items[i].source in files ==>
      wires[i] == ItemTrace(items[i].relPath, ACK, files[items[i].source])
  {
    wires := [];
    for i := 0 to |items|
      invariant |wires| == i
      invariant forall j :: 0 <= j < i ==> connects(j) && items[j].source in files
      invariant forall j :: 0 <= j < i ==> wires[j] == ItemTrace(items[j].relPath, ACK, files[items[j].source])
    {
      if !connects(i) {
        return wires, SendFailed(i, ConnectFailed);
      }
      var conn := new Connection([ACK]);
      var file := if items[i].source in files then Some(files[items[i].source]) else None;
      var ok := SendItem(conn, items[i].relPath, file);
      wires := wires + [conn.log];
      if !ok {
        return wires, SendFailed(i, FileUnreadable);
      }
    }
    outcome := AllSent(|items|, ip);
  }
}
