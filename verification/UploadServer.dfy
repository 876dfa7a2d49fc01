/** The single TCP connection and its two buffers, filled in place. */
module UploadServer {
  import opened Wrappers
  import opened Bytes
  import opened Upload

  /** The scalars of conn. */
  datatype Control = Control(state: State, rcvNxt: nat, uploading: bool, name: seq<byte>, contentLen: nat)

  class Server {
    var ctl: Control
    const req: array<byte>
    var reqLen: nat
    const buf: array<byte>
    var bodyHave: nat
    const parse: Parser

    constructor (parse: Parser)
      ensures Valid() && fresh(req) && fresh(buf) && ctl.state == Listen
    {
      this.parse := parse;
      ctl, reqLen, bodyHave := Control(Listen, 0, false, [], 0), 0, 0;
      req := new byte[REQ_MAX + 1](i => 0);
      buf := new byte[UPLOAD_MAX](i => 0);
    }

    ghost predicate Valid()
      reads this
    {
      && req.Length == REQ_MAX + 1 && buf.Length == UPLOAD_MAX && req != buf && reqLen <= REQ_MAX
      && bodyHave <= UPLOAD_MAX
      && (ctl.uploading ==> bodyHave < ctl.contentLen <= UPLOAD_MAX)
    }

    ghost function Value(): (c: Conn)
      reads this, req, buf
      requires Valid()
      ensures c.Sized()
    {
      Conn(ctl.state, ctl.rcvNxt, req[..reqLen], ctl.uploading, ctl.name, ctl.contentLen, buf[..bodyHave])
    }

    /** memcpy(dst + off, src, |src|). */
    static method Copy(dst: array<byte>, off: nat, src: seq<byte>)
      requires off + |src| <= dst.Length
      modifies dst
      ensures dst[..off] == old(dst[..off]) && dst[off..off + |src|] == src
    {
      var i := 0;
      while i < |src|
        invariant i <= |src| && dst[..off] == old(dst[..off]) && dst[off..off + i] == src[..i]
      {
        dst[off + i] := src[i];
        i := i + 1;
      }
    }

    /** Data behind what a buffer holds already. */
    static method Append(dst: array<byte>, off: nat, src: seq<byte>)
      requires off + |src| <= dst.Length
      modifies dst
      ensures dst[..off + |src|] == old(dst[..off]) + src
    {
      Copy(dst, off, src);
      assert dst[..off + |src|] == dst[..off] + dst[off..off + |src|];
    }

    /** strstr_simple(conn.req, CR LF CR LF). */
    method FindBlankLine() returns (r: Option<nat>)
      requires Valid()
      ensures r == FindBlank(req[..reqLen], 0)
    {
      var i := 0;
      while i < reqLen && req[i] != 0
        invariant i <= reqLen && FindBlank(req[..reqLen], 0) == FindBlank(req[..reqLen], i)
      {
        if i + 4 <= reqLen && req[i] == 13 && req[i + 1] == 10 && req[i + 2] == 13 && req[i + 3] == 10 {
          return Some(i);
        }
        i := i + 1;
      }
      r := None;
    }

    /** http_finish_upload; the file is what goes to fat32_save. */
    method FinishUpload() returns (f: File)
      requires Valid() && !ctl.uploading && bodyHave >= ctl.contentLen
      modifies this`ctl
      ensures Valid() && (Value(), Some(f)) == Finish(old(Value()))
    {
      f := File(ctl.name, buf[..ctl.contentLen]);
      assert buf[..bodyHave][..ctl.contentLen] == buf[..ctl.contentLen];
      ctl := ctl.(state := FinSent, uploading := false);
    }

    /** http_respond. */
    method RespondTo(start: nat) returns (f: Option<File>)
      requires Valid() && !ctl.uploading && FindBlank(req[..reqLen], 0) == Some(start - 4) && 4 <= start <= reqLen
      modifies this`ctl, this`bodyHave, buf
      ensures Valid() && (Value(), f) == Respond(old(Value()), parse)
    {
      hide FindBlank;
      ghost var c := Value();
      f := None;
      assert req[..reqLen][..start] == req[..start] && req[..reqLen][start..] == req[start..reqLen];
      var p := parse(req[..start]);
      if p == None || p.value.1 == 0 || p.value.1 > UPLOAD_MAX {
        ctl := ctl.(state := FinSent, uploading := false);
        return;
      }
      var already := Take(req[start..reqLen], p.value.1);
      Append(buf, 0, already);
      bodyHave := |already|;
      ctl := ctl.(name := p.value.0, contentLen := p.value.1);
      assert buf[..bodyHave] == already;
      if bodyHave >= ctl.contentLen {
        var g := FinishUpload();
        f := Some(g);
      } else {
        ctl := ctl.(uploading := true);
      }
    }

    /** In-order data. */
    method AcceptData(data: seq<byte>) returns (f: Option<File>)
      requires Valid()
      modifies this, req, buf
      ensures Valid() && (Value(), f) == Accept(old(Value()), data, parse)
    {
      hide FindBlank, Respond;
      ghost var c := Value();
      f := None;
      if ctl.uploading {
        var taken := Take(data, UPLOAD_MAX - bodyHave);
        Append(buf, bodyHave, taken);
        bodyHave := bodyHave + |taken|;
        if bodyHave >= ctl.contentLen {
          ctl := ctl.(uploading := false);
          var g := FinishUpload();
          f := Some(g);
        }
      } else {
        var taken := Take(data, REQ_MAX - reqLen);
        Append(req, reqLen, taken);
        reqLen := reqLen + |taken|;
        var b := FindBlankLine();
        if b.Some? {
          f := RespondTo(b.value + 4);
        }
      }
    }

    /** handle_tcp for a SYN. */
    method HandleSyn(isn: nat)
      requires Valid()
      modifies this`ctl, this`reqLen
      ensures Valid() && Value() == Opened(old(Value()), isn)
    {
      reqLen := 0;
      ctl := ctl.(state := SynRcvd, rcvNxt := (isn + 1) % WORD, uploading := false);
    }

    /** handle_tcp for any other segment of the peer without RST. */
    method HandleTcp(s: Segment) returns (f: Option<File>)
      requires Valid()
      modifies this, req, buf
      ensures Valid() && (Value(), f) == Handle(old(Value()), s, parse)
    {
      hide Accept;
      f := None;
      if ctl.state == Listen {
        return;
      }
      if ctl.state == FinSent {
        if s.fin {
          ctl := ctl.(rcvNxt := (ctl.rcvNxt + 1) % WORD, state := Listen);
        }
        return;
      }
      if ctl.state == SynRcvd && s.ack {
        ctl := ctl.(state := Estab);
      }
      if s.data != [] && s.seq_ == ctl.rcvNxt {
        ctl := ctl.(rcvNxt := (ctl.rcvNxt + |s.data|) % WORD);
        f := AcceptData(s.data);
      }
      if s.fin {
        ctl := ctl.(rcvNxt := (ctl.rcvNxt + 1) % WORD, state := FinSent);
      }
    }
  }
}
