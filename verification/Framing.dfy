/** How messages are delimited: the peek at a body of unknown length, the choice
    of transfer coding, and the keep-alive decision built on it. */
module Framing {
  import opened Wrappers
  import opened Literal
  import opened Readers

  /** The fields of a request or response that decide its framing. */
  datatype Fields = Fields(major: int, minor: int, te: seq<string>, length: int, close: bool)

  const PEEK := 8192

  predicate IsHttp11(f: Fields) {
    f.major == 1 && f.minor == 1
  }

  predicate AtLeastHttp11(f: Fields) {
    f.major > 1 || (f.major == 1 && f.minor >= 1)
  }

  /** The fields after framing; `found` is the length of a body whose end the peek saw. */
  function Framed(f: Fields, found: Option<nat>): Fields {
    var g := if found.Some? then f.(length := found.value) else f;
    if g.length >= 0 || g.close then g
    else if IsHttp11(g) then g.(te := ["chunked"])
    else g.(te := ["identity"], close := true)
  }

  /** How the receiver finds the end of the body (section 3.3.3 of RFC 7230). */
  datatype Delimiter = ByLength(n: nat) | ByChunks | ByClose

  /** net/http looks at the first transfer coding only. */
  predicate Chunked(te: seq<string>) {
    te != [] && te[0] == "chunked"
  }

  /** What net/http writes for these fields: no transfer coding before HTTP/1.1 or
      without a body, the chunked coding if asked for, else the length if known. */
  function Wire(f: Fields, hasBody: bool): Delimiter {
    if AtLeastHttp11(f) && hasBody && Chunked(f.te) then ByChunks
    else if !hasBody then ByLength(0)
    else if f.length >= 0 then ByLength(f.length)
    else ByClose
  }

  /** A message that is not going to close the connection delimits its body itself. */
  lemma FramedIsDelimited(f: Fields, found: Option<nat>, hasBody: bool)
    requires !Framed(f, found).close
    ensures !Wire(Framed(f, found), hasBody).ByClose?
    ensures Wire(Framed(f, found), hasBody).ByChunks? ==> f.major > 1 || (f.major == 1 && f.minor >= 1)
    ensures found.Some? && hasBody && !Chunked(f.te) ==> Wire(Framed(f, found), hasBody) == ByLength(found.value)
  {
  }

  /** What becomes of a message with a body that asks for nothing: the length known or
      found, else chunks with HTTP/1.1 and the end of the connection with any other
      version; and the connection is closed only then. */
  lemma FramedExact(f: Fields, found: Option<nat>)
    requires f.te == [] && !f.close
    ensures Wire(Framed(f, found), true) ==
              if found.Some? then ByLength(found.value)
              else if f.length >= 0 then ByLength(f.length)
              else if f.major == 1 && f.minor == 1 then ByChunks
              else ByClose
    ensures Framed(f, found).close <==> Wire(Framed(f, found), true).ByClose?
  {
  }

  /** The fields on which the loop goes round again: the response neither asked for
      closing nor has to be ended by it. */
  predicate KeepsAlive(f: Fields, closeAfterRequest: bool, found: Option<nat>) {
    && !closeAfterRequest && !f.close
    && (|| f.length >= 0
        || (f.length == -1 && "chunked" in f.te && (found.Some? || IsHttp11(f)))
        || (f.length < -1 && IsHttp11(f)))
  }

  /** The fields after the loop's guard against responses nobody can find the end of. */
  function Guarded(f: Fields, closeAfterRequest: bool): Fields {
    f.(close := f.close || closeAfterRequest || ("chunked" !in f.te && f.length == -1))
  }

  /** The peek at a body with `content` left has found this: the length exactly if the
      answer to its one read is EOF. A source from outside may choose its answer. */
  ghost predicate Peeked(fin: Error, eager: bool, content: Bytes, f: nat, silent: bool, found: Option<nat>) {
    exists n: nat, err ::
      && MayAnswer(fin, eager, content, f, PEEK, n, err) && (silent ==> err.None?)
      && found == if err == Some(EOF) then Some(n) else None
  }

  lemma Answered(fin: Error, eager: bool, all: Bytes, f: nat, left': Bytes, f': nat, silent: bool,
                 piece: Bytes, n: nat, err: Option<Error>)
    requires LegalRead(fin, eager, all, f, left', f', PEEK, piece, err) && |piece| == n && (silent ==> err.None?)
    ensures piece + left' == all && (err.Some? ==> n == |all|)
    ensures Peeked(fin, eager, all, f, silent, if err == Some(EOF) then Some(n) else None)
  {
    assert MayAnswer(fin, eager, all, f, PEEK, n, err);
  }

  /** Where it has no choice: the length of an empty body that does not stall is found,
      that of a body which is longer than the peek, fails, or is text at hand is not. */
  lemma PeekIsSure(fin: Error, eager: bool, content: Bytes, f: nat, silent: bool, found: Option<nat>)
    requires Peeked(fin, eager, content, f, silent, found)
    ensures f == 0 && fin == EOF ==> found == Some(|content|)
    ensures silent || fin != EOF || |content| > PEEK || (|content| == PEEK && !eager) ==> found.None?
    ensures found.Some? ==> found.value == |content|
  {
    var n: nat, err :| MayAnswer(fin, eager, content, f, PEEK, n, err) && (silent ==> err.None?)
                  && found == if err == Some(EOF) then Some(n) else None;
  }

  /** A request or a response. */
  class Message {
    var major: int
    var minor: int
    var transferEncoding: seq<string>
    var contentLength: int
    var close: bool
    var body: Option<Reader>

    constructor (f: Fields, body: Option<Reader>)
      ensures State() == f && this.body == body
    {
      this.major, this.minor, this.transferEncoding := f.major, f.minor, f.te;
      this.contentLength, this.close, this.body := f.length, f.close, body;
    }

    ghost function State(): Fields
      reads this
    {
      Fields(major, minor, transferEncoding, contentLength, close)
    }

    ghost function BodyRepr(): set<object>
      reads this, if body.Some? then {body.value.Obj()} else {}
    {
      if body.Some? then body.value.Repr() else {}
    }

    ghost predicate Valid()
      reads this, if body.Some? then {body.value.Obj()} + body.value.Repr() else {}
    {
      body.Some? ==> body.value.Valid() && this !in body.value.Repr()
    }

    /** What the body has still to deliver. */
    ghost function Content(): Bytes
      reads this, if body.Some? then {body.value.Obj()} else {}
    {
      if body.Some? then body.value.Left() else []
    }

    /** Reads up to 8192 bytes of a body of unknown length and puts them back in
        front of it. If that read already reports EOF, what it returned is the whole body. */
    method Peek() returns (found: Option<nat>)
      requires Valid() && body.Some?
      modifies this`body, BodyRepr()
      ensures Valid() && body.Some? && fresh(BodyRepr() - old(BodyRepr()))
      ensures Content() == old(Content())
      ensures Peeked(old(body.value.Fin()), old(body.value.Eager()), old(Content()), old(body.value.Fuel()),
                     old(body.value.Silent()), found)
      ensures found.Some? ==> found.value == |Content()| <= PEEK
    {
      var bodyBytes := new Byte[PEEK];
      var n, err := ReadAhead(bodyBytes);
      PutBack(bodyBytes[..n]);
      found := if err == Some(EOF) then Some(n) else None;
    }

    /** The one read of the peek. */
    method ReadAhead(p: array<Byte>) returns (n: nat, err: Option<Error>)
      requires Valid() && body.Some? && p.Length == PEEK && p !in BodyRepr()
      modifies BodyRepr(), p
      ensures Valid() && body == old(body) && fresh(BodyRepr() - old(BodyRepr()))
      ensures n <= PEEK && p[..n] + Content() == old(Content()) && (err.Some? ==> n == |old(Content())|)
      ensures Peeked(body.value.Fin(), body.value.Eager(), old(Content()), old(body.value.Fuel()), old(body.value.Silent()),
                     if err == Some(EOF) then Some(n) else None)
    {
      ghost var all, f, silent := Content(), body.value.Fuel(), body.value.Silent();
      n, err := body.value.Read(p, 0, PEEK);
      Answered(body.value.Fin(), body.value.Eager(), all, f, body.value.Left(), body.value.Fuel(), silent, p[0..n], n, err);
      assert p[0..n] == p[..n];
    }

    /** Puts what was read in front of the body. */
    method PutBack(piece: Bytes)
      requires Valid() && body.Some?
      modifies this`body
      ensures Valid() && body.Some? && fresh(BodyRepr() - old(BodyRepr()))
      ensures Content() == piece + old(Content())
    {
      var stitched := new PrependReader(piece, body.value);
      body := Some(FromPrepend(stitched));
    }

    /** Decides how the message is delimited. */
    method Frame() returns (found: Option<nat>)
      requires Valid()
      modifies this, BodyRepr()
      ensures Valid() && State() == Framed(old(State()), found)
      ensures fresh(BodyRepr() - old(BodyRepr()))
      ensures body.Some? <==> old(body.Some?) && old(contentLength) != 0
      ensures body.Some? ==> Content() == old(Content())
      ensures found.Some? ==> old(contentLength) == -1 && body.Some? && found.value == |Content()|
      ensures old(body.Some?) && old(contentLength) == -1 ==>
                Peeked(old(body.value.Fin()), old(body.value.Eager()), old(Content()), old(body.value.Fuel()),
                       old(body.value.Silent()), found)
    {
      found := None;
      if contentLength == 0 {
        body := None;
      }
      if body.Some? && contentLength == -1 {
        found := Peek();
        if found.Some? {
          contentLength := found.value;
        }
      }
      if contentLength < 0 && !close {
        if major == 1 && minor == 1 {
          transferEncoding := ["chunked"];
        } else {
          transferEncoding := ["identity"];
          close := true;
        }
      }
    }

    /** What the loop does to a response before writing it: a connection over the
        limit is closed, a nil body becomes an empty one, and an unknown length without
        the chunked coding can only be ended by closing. */
    method Guard(closeAfterRequest: bool)
      requires Valid()
      modifies this
      ensures Valid() && body.Some? && State() == Guarded(old(State()), closeAfterRequest)
      ensures Content() == old(Content()) && (old(body.Some?) ==> body == old(body)) && (old(body.None?) ==> fresh(BodyRepr()))
      ensures old(body.None?) ==> body.value.Fin() == EOF && body.value.Fuel() == 0
    {
      if closeAfterRequest {
        close := true;
      }
      if body.None? {
        var nothing := new TextReader([]);
        body := Some(FromText(nothing));
      }
      if !("chunked" in transferEncoding) && contentLength == -1 && !close {
        close := true;
      }
    }

    /** One turn of the connection loop from the response on: `again` says that the
        same connection is used for the next request. */
    method Respond(closeAfterRequest: bool, writeFails: bool) returns (again: bool, found: Option<nat>)
      requires Valid()
      modifies this, BodyRepr()
      ensures State() == Framed(Guarded(old(State()), closeAfterRequest), found)
      ensures again <==> !writeFails && !close
      ensures close <==> !KeepsAlive(old(State()), closeAfterRequest, found)
      ensures again ==> !Wire(State(), body.Some?).ByClose?
      ensures again && Wire(State(), body.Some?).ByChunks? ==> major > 1 || (major == 1 && minor >= 1)
      ensures body.Some? ==> Valid() && Content() == old(Content())
      ensures found.Some? ==> contentLength == found.value == |old(Content())|
      ensures old(contentLength) == -1 ==>
                if old(body.None?) then found == Some(0)
                else Peeked(old(body.value.Fin()), old(body.value.Eager()), old(Content()), old(body.value.Fuel()),
                            old(body.value.Silent()), found)
    {
      Guard(closeAfterRequest);
      ghost var g := State();
      ghost var b, f, silent := body.value, body.value.Fuel(), body.value.Silent();
      found := Frame();
      if old(contentLength) == -1 { PeekIsSure(b.Fin(), b.Eager(), old(Content()), f, silent, found); }
      if close {
        again := false;
      } else {
        FramedIsDelimited(g, found, body.Some?);
        again := !writeFails;
      }
    }
  }

  /** For every body of unknown length, however its source splits, stalls and ends:
      after framing, reading gives exactly the original bytes, and a length that the
      peek has found is their number. */
  method ReadFramed(f: Fields, data: Bytes, stalls: nat, fin: Error, eager: bool, capacity: nat, idle: nat)
    returns (out: Bytes, found: Option<nat>)
    requires f.length == -1 && capacity >= 1
    ensures out == data
    ensures found.Some? ==> found.value == |data|
    ensures data == [] && stalls == 0 && fin == EOF ==> found.Some?
    ensures fin != EOF || |data| > PEEK || (|data| == PEEK && !eager) ==> found.None?
  {
    var source := new Readers.Body(data, stalls, fin, eager);
    var m := new Message(f, Some(FromBody(source)));
    found := m.Frame();
    PeekIsSure(fin, eager, data, |data| + stalls, false, found);
    var e;
    out, e := Drain(m.body.value, capacity, idle);
  }
}
