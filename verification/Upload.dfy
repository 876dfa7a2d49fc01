/** The TCP receive path and the reassembly of an upload (in-order delivery as in section 3.10.7 of RFC 9293). */
module Upload {
  import opened Wrappers
  import opened Bytes

  const REQ_MAX: nat := 2047                 // sizeof(req) - 1
  const UPLOAD_MAX: nat := 256 * 1024

  datatype State = Listen | SynRcvd | Estab | FinSent

  datatype File = File(name: seq<byte>, bytes: seq<byte>)

  /** The header parser: name and length of an upload, or None for any other request. */
  type Parser = seq<byte> -> Option<(seq<byte>, nat)>

  /** req and body are the parts of the two buffers that are filled. */
  datatype Conn = Conn(state: State, rcvNxt: nat, req: seq<byte>, uploading: bool, name: seq<byte>, contentLen: nat,
                       body: seq<byte>) {
    predicate Sized() { |req| <= REQ_MAX && |body| <= UPLOAD_MAX && (uploading ==> |body| < contentLen <= UPLOAD_MAX) }
  }

  datatype Segment = Segment(seq_: nat, data: seq<byte>, ack: bool, fin: bool)

  predicate BlankAt(bs: seq<byte>, i: nat) {
    i + 4 <= |bs| && bs[i] == 13 && bs[i + 1] == 10 && bs[i + 2] == 13 && bs[i + 3] == 10
  }

  /** strstr_simple for the blank line: the first one, unless a NUL comes before it. */
  function FindBlank(bs: seq<byte>, i: nat): (r: Option<nat>)
    requires i <= |bs|
    ensures r.Some? ==> i <= r.value && BlankAt(bs, r.value)
    decreases |bs| - i
  {
    if i == |bs| || bs[i] == 0 then None else if BlankAt(bs, i) then Some(i) else FindBlank(bs, i + 1)
  }

  /** It finds k exactly if the first blank line is there and no NUL stands before it. */
  lemma {:induction false} FindBlankIs(bs: seq<byte>, i: nat, k: nat)
    requires i <= k <= |bs|
    ensures FindBlank(bs, i) == Some(k) <==> BlankAt(bs, k) && forall j :: i <= j < k ==> bs[j] != 0 && !BlankAt(bs, j)
    decreases k - i
  {
    if i < k { FindBlankIs(bs, i + 1, k); }
  }

  function Take(data: seq<byte>, space: nat): (r: seq<byte>) { if |data| < space then data else data[..space] }

  /** http_respond: the answer to a request whose headers are complete, and the file saved, if any. */
  function Respond(c: Conn, parse: Parser): (r: (Conn, Option<File>))
    requires c.Sized() && FindBlank(c.req, 0).Some?
    ensures r.0.Sized()
  {
    var start := FindBlank(c.req, 0).value + 4;
    match parse(c.req[..start])
    case None => (c.(state := FinSent, uploading := false), None)
    case Some((name, len)) =>
      if len == 0 || len > UPLOAD_MAX then (c.(state := FinSent, uploading := false), None)
      else
        var already := Take(c.req[start..], len);
        var d := c.(name := name, contentLen := len, body := already);
        if |already| >= len then Finish(d.(uploading := false)) else (d.(uploading := true), None)
  }

  /** http_finish_upload. */
  function Finish(c: Conn): (r: (Conn, Option<File>))
    requires c.Sized() && |c.body| >= c.contentLen
    ensures r.0.Sized() == c.(uploading := false).Sized()
  {
    (c.(state := FinSent, uploading := false), Some(File(c.name, c.body[..c.contentLen])))
  }

  /** In-order data. */
  function Accept(c: Conn, data: seq<byte>, parse: Parser): (r: (Conn, Option<File>))
    requires c.Sized()
    ensures r.0.Sized()
  {
    if c.uploading then
      var body := c.body + Take(data, UPLOAD_MAX - |c.body|);
      if |body| >= c.contentLen then Finish(c.(body := body, uploading := false)) else (c.(body := body), None)
    else
      var d := c.(req := c.req + Take(data, REQ_MAX - |c.req|));
      if FindBlank(d.req, 0).Some? then Respond(d, parse) else (d, None)
  }

  /** handle_tcp for a segment of the connection's peer, with neither SYN nor RST. */
  function Handle(c: Conn, s: Segment, parse: Parser): (r: (Conn, Option<File>))
    requires c.Sized()
    ensures r.0.Sized()
  {
    match c.state
    case Listen => (c, None)
    case FinSent => (if s.fin then c.(rcvNxt := (c.rcvNxt + 1) % WORD, state := Listen) else c, None)
    case _ =>
      var b := if c.state == SynRcvd && s.ack then c.(state := Estab) else c;
      var (d, f) := if s.data != [] && s.seq_ == b.rcvNxt
                    then Accept(b.(rcvNxt := (b.rcvNxt + |s.data|) % WORD), s.data, parse) else (b, None);
      (if s.fin then d.(rcvNxt := (d.rcvNxt + 1) % WORD, state := FinSent) else d, f)
  }

  /** A SYN: a fresh connection. */
  function Opened(c: Conn, isn: nat): (d: Conn)
    requires c.Sized()
    ensures d.Sized()
  {
    c.(state := SynRcvd, rcvNxt := (isn + 1) % WORD, req := [], uploading := false)
  }

  // ---- What the peer sent ----

  /** A segment carries a piece of the stream, numbered where it belongs. */
  ghost predicate Genuine(s: Segment, stream: seq<byte>, isn: nat) {
    exists off :: SegmentAt(s, stream, isn, off)
  }

  ghost predicate SegmentAt(s: Segment, stream: seq<byte>, isn: nat, off: nat) {
    off + |s.data| <= |stream| && s.data == stream[off..off + |s.data|] && s.seq_ == (isn + 1 + off) % WORD
  }

  /** Sequence numbers name one place of a stream shorter than 2^32. */
  lemma SequenceUnique(isn: nat, a: nat, b: nat)
    requires a < WORD && b < WORD && (isn + 1 + a) % WORD == (isn + 1 + b) % WORD
    ensures a == b
  {}

  lemma {:induction false} FindBlankPrefix(bs: seq<byte>, n: nat, i: nat)
    requires i <= n <= |bs|
    ensures FindBlank(bs[..n], i).Some? ==> FindBlank(bs, i) == FindBlank(bs[..n], i)
    decreases n - i
  {
    if i < n && bs[i] != 0 && !BlankAt(bs[..n], i) {
      FindBlankPrefix(bs, n, i + 1);
      if BlankAt(bs, i) { NotBefore(bs[..n], i + 1); }
    }
  }

  /** A blank line that is cut off by the end is followed by no whole one. */
  lemma NotBefore(bs: seq<byte>, i: nat)
    requires 0 < i <= |bs| && |bs| < i + 3
    ensures FindBlank(bs, i) == None
  {}

  /** The part of the first e bytes that the request buffer keeps. */
  function Kept(stream: seq<byte>, e: nat): (k: seq<byte>)
    requires e <= |stream|
    ensures |k| <= REQ_MAX
  {
    if e <= REQ_MAX then stream[..e] else stream[..REQ_MAX]
  }

  /** The headers were complete once e bytes had come in: the upload's name and length, and where its body begins. */
  ghost predicate Headers(stream: seq<byte>, parse: Parser, e: nat, start: nat, name: seq<byte>, len: nat) {
    && e <= |stream| && 4 <= start <= |Kept(stream, e)| && FindBlank(Kept(stream, e), 0) == Some(start - 4)
    && parse(stream[..start]) == Some((name, len)) && 0 < len <= UPLOAD_MAX
  }

  /** The bytes that reach the upload buffer: what followed the headers in the request buffer, then all that came after
      the segment which completed them. */
  ghost function Reaching(stream: seq<byte>, e: nat, start: nat): (bs: seq<byte>)
    requires e <= |stream| && start <= |Kept(stream, e)|
  {
    Kept(stream, e)[start..] + stream[e..]
  }

  /** A saved file is the beginning of what reached the buffer. */
  ghost predicate SavedOk(stream: seq<byte>, parse: Parser, f: File, e: nat, start: nat, len: nat) {
    && Headers(stream, parse, e, start, f.name, len)
    && len <= |Reaching(stream, e, start)| && f.bytes == Reaching(stream, e, start)[..len]
  }

  /** Of the first r bytes of the stream, len have reached the upload buffer. */
  ghost predicate Arrived(stream: seq<byte>, e: nat, start: nat, r: nat, len: nat) {
    e <= r <= |stream| && start <= |Kept(stream, e)| && len <= |Kept(stream, e)| - start + (r - e)
  }

  /** A file has been saved from the first r bytes. */
  ghost predicate SavedFrom(stream: seq<byte>, parse: Parser, f: File, r: nat, e: nat, start: nat) {
    exists len :: SavedOk(stream, parse, f, e, start, len) && Arrived(stream, e, start, r, len)
  }

  /** The headers were complete once e bytes had come in, and ask for no upload, or for one that is empty or too long.
      */
  ghost predicate Refused(stream: seq<byte>, parse: Parser, e: nat, start: nat) {
    && e <= |stream| && 4 <= start <= |Kept(stream, e)| && FindBlank(Kept(stream, e), 0) == Some(start - 4)
    && var p := parse(stream[..start]); p.Some? ==> p.value.1 == 0 || p.value.1 > UPLOAD_MAX
  }

  /** r bytes of the stream have been accepted; e of them completed the headers. fin tells whether the peer has said
      that it is done. A connection that is over without a file was refused, or closed by the peer. */
  ghost predicate Inv(stream: seq<byte>, isn: nat, parse: Parser, c: Conn, saved: Option<File>, r: nat, e: nat,
                      start: nat, fin: bool) {
    && c.Sized() && r <= |stream| < WORD
    && if c.state == SynRcvd || c.state == Estab then
         && c.rcvNxt == (isn + 1 + r) % WORD && saved == None
         && if c.uploading then Uploading(stream, parse, c, r, e, start)
            else c.req == Kept(stream, r) && FindBlank(c.req, 0) == None && start == 0
       else if saved == None then fin || Refused(stream, parse, e, start)
       else SavedFrom(stream, parse, saved.value, r, e, start)
  }

  ghost predicate Uploading(stream: seq<byte>, parse: Parser, c: Conn, r: nat, e: nat, start: nat) {
    e <= r <= |stream| && Headers(stream, parse, e, start, c.name, c.contentLen)
        && c.body == Kept(stream, e)[start..] + stream[e..r]
  }

  lemma OpenedInv(stream: seq<byte>, isn: nat, parse: Parser, c: Conn)
    requires c.Sized() && |stream| < WORD
    ensures Inv(stream, isn, parse, Opened(c, isn), None, 0, 0, 0, false)
  {}

  /** What one step may do to a live connection: finish it, or bring it to r bytes of a body. */
  ghost predicate Onward(stream: seq<byte>, parse: Parser, c: Conn, d: Conn, f: Option<File>, r: nat, e: nat,
                         start: nat) {
    if d.state == FinSent then
      if f == None then Refused(stream, parse, e, start) else SavedFrom(stream, parse, f.value, r, e, start)
    else
      && f == None && d.state == c.state && d.rcvNxt == c.rcvNxt && d.uploading
      && Uploading(stream, parse, d, r, e, start)
  }

  predicate Live(c: Conn) { c.state == SynRcvd || c.state == Estab }

  /** The segment that completes the headers. */
  lemma RespondKeeps(stream: seq<byte>, parse: Parser, c: Conn, e: nat)
    requires c.Sized() && Live(c) && e <= |stream| && c.req == Kept(stream, e) && FindBlank(c.req, 0).Some?
             && !c.uploading
    ensures var (d, f) := Respond(c, parse); Onward(stream, parse, c, d, f, e, e, FindBlank(c.req, 0).value + 4)
  {
    hide FindBlank;
    var start := FindBlank(c.req, 0).value + 4;
    assert c.req[..start] == stream[..start];
    assert stream[e..e] == [];
    var p := parse(c.req[..start]);
    if p.Some? && 0 < p.value.1 <= UPLOAD_MAX {
      var len := p.value.1;
      assert Headers(stream, parse, e, start, p.value.0, len);
      var all := c.req[start..];
      if |all| >= len {
        assert Take(all, len)[..len] == all[..len] == Reaching(stream, e, start)[..len];
        assert SavedOk(stream, parse, Respond(c, parse).1.value, e, start, len);
      } else {
        assert Take(all, len) == all;
      }
    }
  }

  /** Taking no more than fits changes nothing below the upload's length. */
  lemma TakenPrefix(body: seq<byte>, data: seq<byte>, len: nat)
    requires |body| < len <= UPLOAD_MAX
    ensures var all := body + Take(data, UPLOAD_MAX - |body|);
            && (|all| >= len <==> |body + data| >= len)
            && if |all| >= len then all[..len] == (body + data)[..len] else all == body + data
  {}

  lemma ReachingMore(stream: seq<byte>, parse: Parser, c: Conn, data: seq<byte>, r: nat, e: nat, start: nat)
    requires Uploading(stream, parse, c, r, e, start) && r + |data| <= |stream| && data == stream[r..r + |data|]
    ensures c.body + data == Kept(stream, e)[start..] + stream[e..r + |data|]
    ensures |c.body + data| <= |Reaching(stream, e, start)|
            && c.body + data == Reaching(stream, e, start)[..|c.body + data|]
  {
    hide Headers, FindBlank;
    var q := r + |data|;
    assert stream[e..q] == stream[e..r] + data;
    assert stream[e..] == stream[e..q] + stream[q..];
  }

  /** A segment of an upload's body. */
  lemma BodyKeeps(stream: seq<byte>, parse: Parser, c: Conn, data: seq<byte>, r: nat, e: nat, start: nat)
    requires c.Sized() && Live(c) && c.uploading && Uploading(stream, parse, c, r, e, start)
    requires r + |data| <= |stream| && data == stream[r..r + |data|]
    ensures var (d, f) := Accept(c, data, parse); Onward(stream, parse, c, d, f, r + |data|, e, start)
  {
    hide FindBlank, Kept, Reaching, Take;
    var len := c.contentLen;
    TakenPrefix(c.body, data, len);
    ReachingMore(stream, parse, c, data, r, e, start);
    if |c.body + data| >= len {
      assert (c.body + data)[..len] == Reaching(stream, e, start)[..len];
      assert SavedOk(stream, parse, Accept(c, data, parse).1.value, e, start, len);
    }
  }

  lemma KeptMore(stream: seq<byte>, r: nat, data: seq<byte>)
    requires r + |data| <= |stream| && data == stream[r..r + |data|]
    ensures Kept(stream, r) + Take(data, REQ_MAX - |Kept(stream, r)|) == Kept(stream, r + |data|)
  {
    var q := r + |data|;
    assert stream[..q] == stream[..r] + data;
    if r <= REQ_MAX < q {
      assert stream[..REQ_MAX] == stream[..r] + data[..REQ_MAX - r];
    }
  }

  lemma SameUpload(stream: seq<byte>, parse: Parser, c: Conn, b: Conn, r: nat, e: nat, start: nat)
    requires Uploading(stream, parse, c, r, e, start) && b == c.(rcvNxt := b.rcvNxt)
    ensures Uploading(stream, parse, b, r, e, start)
  {}

  /** In-order data before the headers are complete. */
  lemma HeadersKeep(stream: seq<byte>, parse: Parser, c: Conn, data: seq<byte>, r: nat)
    requires c.Sized() && Live(c) && !c.uploading && r + |data| <= |stream| && data == stream[r..r + |data|]
             && c.req == Kept(stream, r)
    ensures var (d, f) := Accept(c, data, parse);
            var q := Kept(stream, r + |data|);
            if FindBlank(q, 0).Some?
              then Onward(stream, parse, c, d, f, r + |data|, r + |data|, FindBlank(q, 0).value + 4)
            else d == c.(req := q) && f == None
  {
    hide FindBlank, Respond, Kept, Uploading, SavedOk, Take;
    KeptMore(stream, r, data);
    var q := c.(req := Kept(stream, r + |data|));
    if FindBlank(q.req, 0).Some? {
      RespondKeeps(stream, parse, q, r + |data|);
    }
  }

  /** In-order data on a live connection: where the headers end is settled by the segment that completes them. */
  lemma AcceptKeeps(stream: seq<byte>, isn: nat, parse: Parser, c: Conn, data: seq<byte>, r: nat, e: nat, start: nat,
                    fin: bool)
      returns (e1: nat, start1: nat)
    requires Inv(stream, isn, parse, c, None, r, e, start, fin) && Live(c) && data != []
    requires r + |data| <= |stream| && data == stream[r..r + |data|]
    ensures var b := c.(rcvNxt := (c.rcvNxt + |data|) % WORD);
            var (d, f) := Accept(b, data, parse);
            Inv(stream, isn, parse, d, f, r + |data|, e1, start1, fin) && (d.state == FinSent || (Live(d) && f == None))
  {
    hide FindBlank, Accept, Kept, Uploading, SavedOk;
    e1, start1 := e, start;
    var b := c.(rcvNxt := (c.rcvNxt + |data|) % WORD);
    if c.uploading {
      SameUpload(stream, parse, c, b, r, e, start);
      BodyKeeps(stream, parse, b, data, r, e, start);
    } else {
      HeadersKeep(stream, parse, b, data, r);
      var q := Kept(stream, r + |data|);
      if FindBlank(q, 0).Some? {
        e1, start1 := r + |data|, FindBlank(q, 0).value + 4;
      }
    }
  }

  /** Any segment of the connection. */
  lemma HandleKeeps(stream: seq<byte>, isn: nat, parse: Parser, c: Conn, saved: Option<File>, s: Segment, r: nat,
                    e: nat, start: nat, fin: bool)
    returns (r1: nat, e1: nat, start1: nat)
    requires Inv(stream, isn, parse, c, saved, r, e, start, fin) && Genuine(s, stream, isn)
    ensures var (d, f) := Handle(c, s, parse);
            Inv(stream, isn, parse, d, if f.Some? then f else saved, r1, e1, start1, fin || s.fin)
                && (f.Some? ==> saved == None)
    ensures r1 == r + Taken(c, s)
  {
    hide FindBlank, Accept, Kept, SavedOk;
    r1, e1, start1 := r, e, start;
    if Live(c) {
      var b := if c.state == SynRcvd && s.ack then c.(state := Estab) else c;
      if s.data != [] && s.seq_ == b.rcvNxt {
        var off :| SegmentAt(s, stream, isn, off);
        SequenceUnique(isn, off, r);
        r1 := r + |s.data|;
        e1, start1 := AcceptKeeps(stream, isn, parse, b, s.data, r, e, start, fin);
      }
    }
  }

  /** How many bytes of a segment are taken: all if it is the next in order, else none. */
  function Taken(c: Conn, s: Segment): (n: nat) {
    if Live(c) && s.data != [] && s.seq_ == c.rcvNxt then |s.data| else 0
  }

  // ---- Whole connections ----

  /** A connection from its SYN on: the last state, and the file that was saved. */
  function Run(c: Conn, segments: seq<Segment>, parse: Parser): (r: (Conn, Option<File>))
    requires c.Sized()
    ensures r.0.Sized()
    decreases |segments|
  {
    if segments == [] then (c, None)
    else
      var (d, f) := Run(c, segments[..|segments| - 1], parse);
      var (x, g) := Handle(d, segments[|segments| - 1], parse);
      (x, if g.Some? then g else f)
  }

  /** The bytes that a run takes. */
  function Accepted(c: Conn, segments: seq<Segment>, parse: Parser): (n: nat)
    requires c.Sized()
    decreases |segments|
  {
    if segments == [] then 0
    else
      var front := segments[..|segments| - 1];
      Accepted(c, front, parse) + Taken(Run(c, front, parse).0, segments[|segments| - 1])
  }

  predicate AnyFin(segments: seq<Segment>) {
    segments != [] && (AnyFin(segments[..|segments| - 1]) || segments[|segments| - 1].fin)
  }

  lemma {:induction false} RunKeeps(stream: seq<byte>, isn: nat, parse: Parser, c: Conn, segments: seq<Segment>)
    returns (r: nat, e: nat, start: nat)
    requires c.Sized() && |stream| < WORD && forall i :: 0 <= i < |segments| ==> Genuine(segments[i], stream, isn)
    ensures var (d, f) := Run(Opened(c, isn), segments, parse);
            Inv(stream, isn, parse, d, f, r, e, start, AnyFin(segments))
                && r == Accepted(Opened(c, isn), segments, parse)
    decreases |segments|
  {
    hide Inv, Handle, Genuine, Opened, Taken;
    if segments == [] {
      OpenedInv(stream, isn, parse, c);
      r, e, start := 0, 0, 0;
    } else {
      var front := segments[..|segments| - 1];
      r, e, start := RunKeeps(stream, isn, parse, c, front);
      var (d, f) := Run(Opened(c, isn), front, parse);
      r, e, start := HandleKeeps(stream, isn, parse, d, f, segments[|segments| - 1], r, e, start, AnyFin(front));
    }
  }

  /** For any cutting, repetition and reordering of the peer's segments, a saved file holds the first len bytes of what
      reached the upload buffer, under the name and with the length that the headers gave. */
  lemma UploadGetsStream(stream: seq<byte>, isn: nat, parse: Parser, c: Conn, segments: seq<Segment>)
    returns (e: nat, start: nat, len: nat)
    requires c.Sized() && |stream| < WORD && forall i :: 0 <= i < |segments| ==> Genuine(segments[i], stream, isn)
    requires Run(Opened(c, isn), segments, parse).1.Some?
    ensures SavedOk(stream, parse, Run(Opened(c, isn), segments, parse).1.value, e, start, len)
  {
    hide SavedOk, Run, Opened;
    var r;
    r, e, start := RunKeeps(stream, isn, parse, c, segments);
    var (d, f) := Run(Opened(c, isn), segments, parse);
    len :| SavedOk(stream, parse, f.value, e, start, len);
  }

  /** And a file is saved exactly if it has come: unless the peer ends the connection, the upload is saved once the
      headers are complete, ask for one, and len bytes have reached the buffer. */
  lemma SavedExactly(stream: seq<byte>, isn: nat, parse: Parser, c: Conn, segments: seq<Segment>)
    returns (e: nat, start: nat)
    requires c.Sized() && |stream| < WORD && forall i :: 0 <= i < |segments| ==> Genuine(segments[i], stream, isn)
    requires !AnyFin(segments)
    ensures var (o, r) := (Opened(c, isn), Accepted(Opened(c, isn), segments, parse));
            Run(o, segments, parse).1.Some? <==>
              exists name, len: nat :: Headers(stream, parse, e, start, name, len) && Arrived(stream, e, start, r, len)
    ensures var (d, f) := Run(Opened(c, isn), segments, parse);
            f == None && !Live(d) ==> Refused(stream, parse, e, start)
  {
    hide SavedOk, Run, Opened, Accepted, FindBlank, Kept, AnyFin;
    var r;
    r, e, start := RunKeeps(stream, isn, parse, c, segments);
    var (d, f) := Run(Opened(c, isn), segments, parse);
    if f.Some? {
      var len :| SavedOk(stream, parse, f.value, e, start, len) && Arrived(stream, e, start, r, len);
      assert Headers(stream, parse, e, start, f.value.name, len) by {
        SavedHeaders(stream, parse, f.value, e, start, len);
      }
    }
  }

  /** The segments come in order, with nothing missing, and cover the stream from byte off on. */
  ghost predicate InOrderFrom(segments: seq<Segment>, stream: seq<byte>, isn: nat, off: nat)
    decreases |segments|
  {
    if segments == [] then off == 0
    else
      var s := segments[|segments| - 1];
      && s.data != [] && !s.fin && |s.data| <= off && SegmentAt(s, stream, isn, off - |s.data|)
      && InOrderFrom(segments[..|segments| - 1], stream, isn, off - |s.data|)
  }

  /** The sequence number of byte off. */
  function Number(isn: nat, off: nat): (n: nat) { (isn + 1 + off) % WORD }

  /** The next segment in order is taken as a whole. */
  lemma InOrderStep(c: Conn, s: Segment, parse: Parser, stream: seq<byte>, isn: nat, off: nat)
    requires c.Sized() && s.data != [] && !s.fin && SegmentAt(s, stream, isn, off)
    requires Live(c) ==> c.rcvNxt == Number(isn, off)
    ensures Genuine(s, stream, isn)
    ensures Live(Handle(c, s, parse).0) ==>
              Live(c) && Handle(c, s, parse).0.rcvNxt == Number(isn, off + |s.data|) && Taken(c, s) == |s.data|
  {
    hide FindBlank, Kept;
    NextNumber(isn, off, |s.data|);
  }

  /** Then every byte is taken while the connection lives. */
  lemma {:induction false} InOrderTakes(stream: seq<byte>, isn: nat, parse: Parser, c: Conn, segments: seq<Segment>,
                                        off: nat)
    requires c.Sized() && off <= |stream| < WORD && InOrderFrom(segments, stream, isn, off)
    ensures !AnyFin(segments) && forall i :: 0 <= i < |segments| ==> Genuine(segments[i], stream, isn)
    ensures var (d, f) := Run(Opened(c, isn), segments, parse);
            Live(d) ==> d.rcvNxt == Number(isn, off) && Accepted(Opened(c, isn), segments, parse) == off
    decreases |segments|
  {
    hide SegmentAt, Handle, Genuine, Number, Taken;
    if segments == [] {
      OpenedNumber(c, isn);
    } else {
      var front, s := segments[..|segments| - 1], segments[|segments| - 1];
      InOrderTakes(stream, isn, parse, c, front, off - |s.data|);
      InOrderStep(Run(Opened(c, isn), front, parse).0, s, parse, stream, isn, off - |s.data|);
      assert forall i :: 0 <= i < |front| ==> segments[i] == front[i];
    }
  }

  lemma OpenedNumber(c: Conn, isn: nat)
    requires c.Sized()
    ensures Opened(c, isn).rcvNxt == Number(isn, 0)
  {}

  /** An upload that comes in order, cut in any way, is saved exactly if its headers ask for one and as many bytes as
      they announce reach the buffer. */
  lemma InOrderIsSaved(stream: seq<byte>, isn: nat, parse: Parser, c: Conn, segments: seq<Segment>)
    returns (e: nat, start: nat)
    requires c.Sized() && |stream| < WORD && InOrderFrom(segments, stream, isn, |stream|)
    ensures Run(Opened(c, isn), segments, parse).1.Some? <==>
              exists name, len: nat :: Headers(stream, parse, e, start, name, len)
                  && len <= |Reaching(stream, e, start)|
  {
    hide Run, Opened, Accepted, FindBlank, Kept, AnyFin, InOrderFrom;
    InOrderTakes(stream, isn, parse, c, segments, |stream|);
    e, start := SavedExactly(stream, isn, parse, c, segments);
    var r := Accepted(Opened(c, isn), segments, parse);
    assert forall name, len: nat :: Headers(stream, parse, e, start, name, len) && Arrived(stream, e, start, r, len) ==>
      len <= |Reaching(stream, e, start)|;
  }

  lemma SavedHeaders(stream: seq<byte>, parse: Parser, f: File, e: nat, start: nat, len: nat)
    requires SavedOk(stream, parse, f, e, start, len)
    ensures Headers(stream, parse, e, start, f.name, len)
  {}

  lemma ReachingSplit(stream: seq<byte>, e: nat, start: nat, len: nat)
    requires e <= |stream| && start <= |Kept(stream, e)| && len <= |Reaching(stream, e, start)|
    ensures start + len <= |stream|
    ensures e <= REQ_MAX || start + len <= REQ_MAX ==> Reaching(stream, e, start)[..len] == stream[start..start + len]
    ensures e > REQ_MAX && start + len > REQ_MAX ==>
              var n := start + len - REQ_MAX;
              && e + n <= |stream| && Reaching(stream, e, start)[..len] == stream[start..REQ_MAX] + stream[e..e + n]
              && stream[start..start + len] == stream[start..REQ_MAX] + stream[REQ_MAX..REQ_MAX + n]
  {}

  /** That is the body, the first len bytes behind the first blank line, exactly if the bytes that did not fit the
      request buffer when the headers were completed are missed by nobody: they fitted, or the whole body had come
      with the headers, or the bytes that took their place happen to be the same. */
  lemma SavedIsBody(stream: seq<byte>, parse: Parser, f: File, e: nat, start: nat, len: nat)
    requires SavedOk(stream, parse, f, e, start, len)
    ensures FindBlank(stream, 0) == Some(start - 4) && parse(stream[..start]) == Some((f.name, len))
    ensures start + len <= |stream|
    ensures f.bytes == stream[start..start + len] <==>
              || e <= REQ_MAX || start + len <= REQ_MAX
              || (var n := start + len - REQ_MAX; e + n <= |stream| && stream[e..e + n] == stream[REQ_MAX..REQ_MAX + n])
  {
    var kept := Kept(stream, e);
    FindBlankPrefix(stream, |kept|, 0);
    assert kept == stream[..|kept|];
    hide FindBlank, Reaching;
    ReachingSplit(stream, e, start, len);
    if e > REQ_MAX && start + len > REQ_MAX {
      var n := start + len - REQ_MAX;
      SameTail(stream[start..REQ_MAX], stream[e..e + n], stream[REQ_MAX..REQ_MAX + n]);
    }
  }

  lemma SameTail(a: seq<byte>, b: seq<byte>, c: seq<byte>)
    ensures a + b == a + c <==> b == c
  {
    assert (a + b)[|a|..] == b && (a + c)[|a|..] == c;
  }

  /** The promise, for requests whose headers are completed within the request buffer. */
  lemma UploadIsExact(stream: seq<byte>, isn: nat, parse: Parser, c: Conn, segments: seq<Segment>, e: nat, start: nat,
                      len: nat)
    requires c.Sized() && |stream| < WORD && forall i :: 0 <= i < |segments| ==> Genuine(segments[i], stream, isn)
    requires var f := Run(Opened(c, isn), segments, parse).1; f.Some? && SavedOk(stream, parse, f.value, e, start, len)
    requires e <= REQ_MAX || start + len <= REQ_MAX
    ensures Run(Opened(c, isn), segments, parse).1 ==
            Some(File(parse(stream[..start]).value.0, stream[start..start + len]))
    ensures FindBlank(stream, 0) == Some(start - 4)
  {
    hide Run, Opened, SavedOk;
    var f := Run(Opened(c, isn), segments, parse).1;
    SavedIsBody(stream, parse, f.value, e, start, len);
  }

  // ---- A FIN ----

  /** A FIN ends the connection, whatever its place in the sequence, and takes one number. */
  lemma FinEnds(c: Conn, s: Segment, parse: Parser)
    requires c.Sized() && Live(c) && s.fin && c.rcvNxt < WORD
    ensures var d := Handle(c, s, parse).0;
            d.state == FinSent && d.rcvNxt == ((c.rcvNxt + Taken(c, s)) % WORD + 1) % WORD
  {
    hide FindBlank;
  }

  lemma OverStays(c: Conn, s: Segment, parse: Parser)
    requires c.Sized() && !Live(c)
    ensures !Live(Handle(c, s, parse).0) && Handle(c, s, parse).1 == None
  {}

  lemma {:induction false} OverForGood(c: Conn, segments: seq<Segment>, parse: Parser)
    requires c.Sized() && !Live(c)
    ensures !Live(Run(c, segments, parse).0) && Run(c, segments, parse).1 == None
    decreases |segments|
  {
    hide Handle;
    if segments != [] {
      OverForGood(c, segments[..|segments| - 1], parse);
      OverStays(Run(c, segments[..|segments| - 1], parse).0, segments[|segments| - 1], parse);
    }
  }

  lemma {:induction false} RunsOn(c: Conn, a: seq<Segment>, b: seq<Segment>, parse: Parser)
    requires c.Sized()
    ensures var (d, f) := Run(c, a, parse);
            var (x, g) := Run(d, b, parse);
            Run(c, a + b, parse) == (x, if g.Some? then g else f)
    decreases |b|
  {
    hide Handle;
    if b == [] {
      assert a + b == a;
    } else {
      assert (a + b)[..|a + b| - 1] == a + b[..|b| - 1];
      RunsOn(c, a, b[..|b| - 1], parse);
    }
  }

  /** So a FIN that overtakes the data loses the upload: whatever comes behind it, nothing is saved. */
  lemma EarlyFinLoses(c: Conn, isn: nat, parse: Parser, s: Segment, rest: seq<Segment>)
    requires c.Sized() && s.fin && s.data == []
    ensures Run(Opened(c, isn), [s] + rest, parse).1 == None
  {
    hide Handle;
    RunsOn(Opened(c, isn), [s], rest, parse);
    assert [s][..0] == [];
    FinEnds(Opened(c, isn), s, parse);
    OverForGood(Handle(Opened(c, isn), s, parse).0, rest, parse);
    assert Handle(Opened(c, isn), s, parse).1 == None by { NoData(Opened(c, isn), s, parse); }
  }

  lemma NoData(c: Conn, s: Segment, parse: Parser)
    requires c.Sized() && s.data == []
    ensures Handle(c, s, parse).1 == None
  {}

  // ---- Bytes that are dropped ----

  const LINE: nat := 1400              // bytes before the blank line, and bytes to a segment
  const BLANK: seq<byte> := [13, 10, 13, 10]
  const LENGTH: nat := 644             // one more than the request buffer has room for

  /** Headers that fill a segment: the first blank line comes behind them. */
  predicate HeadOk(head: seq<byte>) {
    |head| == LINE && forall j :: 0 <= j < LINE ==> head[j] != 0 && !BlankAt(head + BLANK, j)
  }

  /** The headers, the blank line, and a body whose bytes are all the same up to a last one. */
  function Long(head: seq<byte>): (stream: seq<byte>)
    requires |head| == LINE
    ensures |stream| == 2 * LINE + 1
  {
    head + BLANK + seq(LINE - 4, i => 65) + [66]
  }

  /** It comes in three segments, in order. */
  function Pieces(head: seq<byte>, isn: nat): (ss: seq<Segment>)
    requires |head| == LINE
    ensures |ss| == 3
  {
    var stream := Long(head);
    [Segment((isn + 1) % WORD, stream[..LINE], true, false),
        Segment((isn + 1 + LINE) % WORD, stream[LINE..2 * LINE], true, false),
     Segment((isn + 1 + 2 * LINE) % WORD, stream[2 * LINE..], true, false)]
  }

  lemma PiecesGenuine(head: seq<byte>, isn: nat)
    requires |head| == LINE
    ensures forall i :: 0 <= i < 3 ==> Genuine(Pieces(head, isn)[i], Long(head), isn)
  {
    assert SegmentAt(Pieces(head, isn)[0], Long(head), isn, 0);
    assert SegmentAt(Pieces(head, isn)[1], Long(head), isn, LINE);
    assert SegmentAt(Pieces(head, isn)[2], Long(head), isn, 2 * LINE);
  }

  /** The next segment in order goes to Accept. */
  lemma InOrder(c: Conn, s: Segment, parse: Parser)
    requires c.Sized() && Live(c) && s.data != [] && s.seq_ == c.rcvNxt && s.ack && !s.fin
    ensures Handle(c, s, parse) == Accept(c.(state := Estab, rcvNxt := (c.rcvNxt + |s.data|) % WORD), s.data, parse)
  {
    hide Accept;
  }

  lemma NextNumber(isn: nat, a: nat, n: nat)
    ensures ((isn + 1 + a) % WORD + n) % WORD == (isn + 1 + a + n) % WORD
  {}

  /** The first segment: no blank line yet. */
  lemma FirstPiece(c: Conn, head: seq<byte>, isn: nat, parse: Parser)
    requires c.Sized() && HeadOk(head)
    ensures Handle(Opened(c, isn), Pieces(head, isn)[0], parse)
            == (Opened(c, isn).(state := Estab, rcvNxt := (isn + 1 + LINE) % WORD, req := Long(head)[..LINE]), None)
  {
    hide Long, FindBlank, Handle;
    LongAt(head);
    assert FindBlank(Long(head)[..LINE], 0) == None by {
      forall i | 0 <= i < LINE ensures !BlankAt(head, i) { assert BlankAt(head, i) ==> BlankAt(Long(head), i); }
    }
    assert [] + Long(head)[..LINE] == Long(head)[..LINE];
    InOrder(Opened(c, isn), Pieces(head, isn)[0], parse);
    NextNumber(isn, 0, LINE);
  }

  lemma LongAt(head: seq<byte>)
    requires HeadOk(head)
    ensures Long(head)[..LINE] == head && (forall i :: 0 <= i < LINE ==> Long(head)[i] == head[i])
    ensures BlankAt(Long(head), LINE) && (forall i :: 0 <= i < LINE ==> Long(head)[i] != 0 && !BlankAt(Long(head), i))
    ensures Long(head)[2 * LINE] == 66 && forall i :: LINE + 4 <= i < 2 * LINE ==> Long(head)[i] == 65
  {
    forall i | 0 <= i < LINE ensures !BlankAt(Long(head), i) {
      assert !BlankAt(head + BLANK, i);
      assert forall j :: 0 <= j < LINE + 4 ==> Long(head)[j] == (head + BLANK)[j];
    }
  }

  /** The second one completes the headers and fills the request buffer: the rest of it is dropped. */
  lemma SecondPiece(c: Conn, head: seq<byte>, isn: nat, parse: Parser, name: seq<byte>)
    requires HeadOk(head) && c.Sized() && c.state == Estab && c.rcvNxt == (isn + 1 + LINE) % WORD
             && c.req == Long(head)[..LINE] && !c.uploading
    requires parse(Long(head)[..LINE + 4]) == Some((name, LENGTH))
    ensures Handle(c, Pieces(head, isn)[1], parse)
            == (Conn(Estab, (isn + 1 + 2 * LINE) % WORD, Long(head)[..REQ_MAX], true, name, LENGTH,
                Long(head)[LINE + 4..REQ_MAX]), None)
  {
    hide Long, FindBlank, Handle, Respond;
    var b := c.(rcvNxt := (isn + 1 + 2 * LINE) % WORD);
    InOrder(c, Pieces(head, isn)[1], parse);
    NextNumber(isn, LINE, LINE);
    assert Long(head)[..LINE] + Long(head)[LINE..2 * LINE][..REQ_MAX - LINE] == Long(head)[..REQ_MAX];
    LongResponds(b.(req := Long(head)[..REQ_MAX]), head, parse, name);
  }

  lemma LongResponds(c: Conn, head: seq<byte>, parse: Parser, name: seq<byte>)
    requires HeadOk(head) && c.Sized() && c.req == Long(head)[..REQ_MAX]
             && parse(Long(head)[..LINE + 4]) == Some((name, LENGTH))
    ensures FindBlank(c.req, 0) == Some(LINE)
    ensures Respond(c, parse) ==
            (c.(uploading := true, name := name, contentLen := LENGTH, body := Long(head)[LINE + 4..REQ_MAX]), None)
  {
    hide Long, FindBlank;
    LongAt(head);
    FindBlankIs(c.req, 0, LINE);
    assert c.req[..LINE + 4] == Long(head)[..LINE + 4] && c.req[LINE + 4..] == Long(head)[LINE + 4..REQ_MAX];
  }

  /** The third is taken for the bytes that were dropped, and completes the upload. */
  lemma ThirdPiece(head: seq<byte>, isn: nat, parse: Parser, name: seq<byte>)
    requires HeadOk(head)
    ensures var c :=
            Conn(Estab, (isn + 1 + 2 * LINE) % WORD, Long(head)[..REQ_MAX], true, name, LENGTH,
                Long(head)[LINE + 4..REQ_MAX]);
            Handle(c, Pieces(head, isn)[2], parse).1 == Some(File(name, Long(head)[LINE + 4..REQ_MAX] + [66]))
  {
    hide Long;
    LongAt(head);
    assert Long(head)[2 * LINE..] == [66];
    var body := Long(head)[LINE + 4..REQ_MAX] + [66];
    assert body[..LENGTH] == body;
  }

  /** Whatever the headers are, if they fill the first segment and the parser takes them for an upload of LENGTH bytes:
      the saved file is not the body. */
  lemma DroppedBytes(c: Conn, head: seq<byte>, isn: nat, parse: Parser, name: seq<byte>)
    requires c.Sized() && HeadOk(head) && parse(Long(head)[..LINE + 4]) == Some((name, LENGTH))
    ensures forall i :: 0 <= i < 3 ==> Genuine(Pieces(head, isn)[i], Long(head), isn)
    ensures FindBlank(Long(head), 0) == Some(LINE)
    ensures var f := Run(Opened(c, isn), Pieces(head, isn), parse).1;
            f.Some? && |f.value.bytes| == LENGTH && f.value.bytes != Long(head)[LINE + 4..LINE + 4 + LENGTH]
  {
    hide Long, FindBlank, Handle, Genuine;
    PiecesGenuine(head, isn);
    LongAt(head);
    FindBlankIs(Long(head), 0, LINE);
    var ss := Pieces(head, isn);
    FirstPiece(c, head, isn, parse);
    SecondPiece(Handle(Opened(c, isn), ss[0], parse).0, head, isn, parse, name);
    ThirdPiece(head, isn, parse, name);
    assert ss[..2][..1] == ss[..1] && ss[..1][..0] == [];
    assert Run(Opened(c, isn), ss[..1], parse) == Handle(Opened(c, isn), ss[0], parse);
    assert Run(Opened(c, isn), ss[..2], parse).0 == Handle(Run(Opened(c, isn), ss[..1], parse).0, ss[1], parse).0;
    LastDiffers(Long(head));
  }

  lemma LastDiffers(stream: seq<byte>)
    requires |stream| == 2 * LINE + 1 && stream[REQ_MAX] == 65
    ensures stream[LINE + 4..REQ_MAX] + [66] != stream[LINE + 4..LINE + 4 + LENGTH]
  {
    assert (stream[LINE + 4..REQ_MAX] + [66])[LENGTH - 1] == 66;
    assert stream[LINE + 4..LINE + 4 + LENGTH][LENGTH - 1] == stream[REQ_MAX];
  }
}
