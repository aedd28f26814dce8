/** The reader stack of the body rewriter: `regexReader` over
    `fixedChunkRegexReader` over any other reader, and the stack `AlterBody` builds. */
module Readers {
  import opened Wrappers
  import opened Literal
  import opened Window
  import Budget

  type Byte = char

  datatype Error = EOF | Failure(code: int)

  /** The io.Reader contract: `left` is what the reader still has to deliver before its
      error `fin`, and `f` bounds the number of its further answers without error. With
      `eager` the error comes together with the last byte, always; otherwise it never
      comes with a destination that this byte has filled. */
  ghost predicate LegalRead(fin: Error, eager: bool, left: Bytes, f: nat, left': Bytes, f': nat,
                            room: nat, piece: Bytes, err: Option<Error>)
  {
    && |piece| <= room && |piece| <= |left|
    && piece == left[..|piece|] && left' == left[|piece|..]
    && f' <= f
    && (err.None? && room > 0 ==> f' < f)
    && (err.Some? ==> err.value == fin && left' == [])
    && (err.Some? && room > 0 && |piece| == room ==> eager)
    && (eager && piece != [] && left' == [] ==> err.Some?)
  }

  /** One of the answers that a reader may give to a read with that much room: `n` bytes
      and `err`. */
  ghost predicate MayAnswer(fin: Error, eager: bool, left: Bytes, f: nat, room: nat, n: nat, err: Option<Error>) {
    n <= |left| && exists f': nat :: LegalRead(fin, eager, left, f, left[n..], f', room, left[..n], err)
  }

  /** An interface value of type io.Reader. */
  datatype Reader =
    | FromBody(body: Body)
    | FromText(text: TextReader)
    | FromPrepend(prepend: PrependReader)
    | FromRegex(regex: RegexReader)
  {
    function Obj(): object {
      match this
      case FromBody(b) => b
      case FromText(t) => t
      case FromPrepend(p) => p
      case FromRegex(r) => r
    }

    ghost function Depth(): nat {
      match this
      case FromBody(b) => 0
      case FromText(t) => 0
      case FromPrepend(p) => p.depth
      case FromRegex(r) => r.depth
    }

    ghost function Fin(): Error {
      match this
      case FromBody(b) => b.fin
      case FromText(t) => EOF
      case FromPrepend(p) => p.fin
      case FromRegex(r) => r.fin
    }

    /** Whether the error comes with the last byte; without bytes it means nothing. */
    ghost function Eager(): bool {
      match this
      case FromBody(b) => b.eager
      case FromText(t) => false
      case FromPrepend(p) => p.eager
      case FromRegex(r) => false
    }

    /** What is still to be delivered. */
    ghost function Left(): Bytes
      reads Obj()
    {
      match this
      case FromBody(b) => b.data
      case FromText(t) => t.rest
      case FromPrepend(p) => p.left
      case FromRegex(r) => r.left
    }

    ghost function Fuel(): nat
      reads Obj()
    {
      match this
      case FromBody(b) => |b.data| + b.stalls
      case FromText(t) => |t.rest|
      case FromPrepend(p) => p.fuel
      case FromRegex(r) => r.fuel
    }

    /** The next read cannot report the error: text that is at hand comes first. */
    ghost predicate Silent()
      reads Obj()
    {
      match this
      case FromBody(b) => false
      case FromText(t) => t.rest != []
      case FromPrepend(p) => p.prefix != []
      case FromRegex(r) => false
    }

    ghost function Repr(): set<object>
      reads Obj()
    {
      match this
      case FromBody(b) => {b}
      case FromText(t) => {t}
      case FromPrepend(p) => p.Repr
      case FromRegex(r) => r.Repr
    }

    ghost predicate Valid()
      reads Obj(), Repr()
      decreases Depth(), 6
    {
      && Obj() in Repr()
      && match this
         case FromBody(b) => true
         case FromText(t) => true
         case FromPrepend(p) => p.Valid()
         case FromRegex(r) => r.Valid()
    }

    method Read(p: array<Byte>, lo: nat, hi: nat) returns (n: nat, err: Option<Error>)
      requires Valid() && lo <= hi <= p.Length && p !in Repr()
      modifies Repr(), p
      ensures Valid() && fresh(Repr() - old(Repr())) && p !in Repr()
      ensures n <= hi - lo && p[..lo] == old(p[..lo])
      ensures LegalRead(Fin(), Eager(), old(Left()), old(Fuel()), Left(), Fuel(), hi - lo, p[lo..lo + n], err)
      ensures old(Silent()) ==> err.None?
      decreases Depth(), 5
    {
      match this
      case FromBody(b) => n, err := b.Read(p, lo, hi);
      case FromText(t) => n, err := t.Read(p, lo, hi);
      case FromPrepend(q) => n, err := q.Read(p, lo, hi);
      case FromRegex(r) => n, err := r.Read(p, lo, hi);
    }
  }

  /** Go's `copy`: writes `s` into `dst` from index `at` on. */
  method CopyInto(dst: array<Byte>, at: nat, s: Bytes)
    requires at + |s| <= dst.Length
    modifies dst
    ensures dst[..at] == old(dst[..at]) && dst[at..at + |s|] == s && dst[at + |s|..] == old(dst[at + |s|..])
  {
    forall i | 0 <= i < |s| {
      dst[at + i] := s[i];
    }
  }

  // ------------------------------------------------------------- the source

  /** Any reader from outside the rewriter: it delivers `data` in pieces of its own
      choosing and may answer (0, nil) `stalls` times in all. When `eager` it reports
      `fin` with its last byte, otherwise in a read of its own or, if it likes, with a
      last byte that leaves room in the destination. */
  class Body {
    var data: Bytes
    var stalls: nat
    const fin: Error
    const eager: bool

    constructor (data: Bytes, stalls: nat, fin: Error, eager: bool)
      ensures this.data == data && this.stalls == stalls && this.fin == fin && this.eager == eager
    {
      this.data, this.stalls, this.fin, this.eager := data, stalls, fin, eager;
    }

    method Read(p: array<Byte>, lo: nat, hi: nat) returns (n: nat, err: Option<Error>)
      requires lo <= hi <= p.Length
      modifies this, p
      ensures n <= hi - lo && p[..lo] == old(p[..lo])
      ensures LegalRead(fin, eager, old(data), old(|data| + stalls), data, |data| + stalls, hi - lo, p[lo..lo + n], err)
    {
      n, err := 0, None;
      if stalls > 0 {
        var stall: bool := *;
        if stall {
          stalls := stalls - 1;
          return;
        }
      }
      if data == [] {
        err := Some(fin);
        return;
      }
      var most := Min(hi - lo, |data|);
      assert lo < hi ==> most >= 1;
      n :| n <= most && (n > 0 || lo == hi);
      CopyInto(p, lo, data[..n]);
      data := data[n..];
      var early: bool := *;
      if data == [] && (eager || (early && n < hi - lo)) {
        err := Some(fin);
      }
    }
  }

  /** strings.Reader */
  class TextReader {
    var rest: Bytes

    constructor (text: Bytes)
      ensures rest == text
    {
      rest := text;
    }

    method Read(p: array<Byte>, lo: nat, hi: nat) returns (n: nat, err: Option<Error>)
      requires lo <= hi <= p.Length
      modifies this, p
      ensures n <= hi - lo && p[..lo] == old(p[..lo])
      ensures LegalRead(EOF, false, old(rest), old(|rest|), rest, |rest|, hi - lo, p[lo..lo + n], err)
      ensures err.Some? <==> old(rest) == []
    {
      if rest == [] {
        n, err := 0, Some(EOF);
        return;
      }
      n, err := Min(hi - lo, |rest|), None;
      CopyInto(p, lo, rest[..n]);
      rest := rest[n..];
    }
  }

  /** io.MultiReader over a string and another reader. */
  class PrependReader {
    var prefix: Bytes
    const rest: Reader
    ghost const fin: Error
    ghost const eager: bool
    ghost const depth: nat
    ghost var left: Bytes
    ghost var fuel: nat
    ghost var Repr: set<object>

    ghost predicate Valid()
      reads this, Repr
      decreases depth, 1
    {
      && this in Repr && rest.Obj() in Repr && rest.Repr() <= Repr && this !in rest.Repr()
      && rest.Depth() < depth && rest.Valid()
      && fin == rest.Fin()
      && left == prefix + rest.Left()
      && fuel >= |prefix| + rest.Fuel()
      && (rest.Left() != [] ==> eager == rest.Eager())
      && (prefix != [] && rest.Left() == [] ==> !eager)
    }

    constructor (prefix: Bytes, rest: Reader)
      requires rest.Valid()
      ensures Valid() && fresh(Repr - rest.Repr())
      ensures fin == rest.Fin() && left == prefix + rest.Left() && eager == (rest.Eager() && rest.Left() != [])
    {
      this.prefix, this.rest, this.fin := prefix, rest, rest.Fin();
      this.depth := rest.Depth() + 1;
      this.eager := rest.Eager() && rest.Left() != [];
      this.left := prefix + rest.Left();
      this.fuel := |prefix| + rest.Fuel();
      this.Repr := {this} + rest.Repr();
    }

    method Read(p: array<Byte>, lo: nat, hi: nat) returns (n: nat, err: Option<Error>)
      requires Valid() && lo <= hi <= p.Length && p !in Repr
      modifies Repr, p
      ensures Valid() && fresh(Repr - old(Repr))
      ensures n <= hi - lo && p[..lo] == old(p[..lo])
      ensures LegalRead(fin, eager, old(left), old(fuel), left, fuel, hi - lo, p[lo..lo + n], err)
      ensures old(prefix) != [] ==> err.None?
      decreases depth, 2
    {
      if prefix != [] {
        n, err := Min(hi - lo, |prefix|), None;
        CopyInto(p, lo, prefix[..n]);
        Advanced(prefix, rest.Left(), n);
        left, fuel, prefix := left[n..], fuel - n, prefix[n..];
        assert eager ==> left != [];
      } else {
        n, err := ReadOn(p, lo, hi);
      }
    }

    /** Once the string is used up. */
    method ReadOn(p: array<Byte>, lo: nat, hi: nat) returns (n: nat, err: Option<Error>)
      requires Valid() && lo <= hi <= p.Length && p !in Repr && prefix == []
      modifies Repr, p
      ensures Valid() && fresh(Repr - old(Repr))
      ensures n <= hi - lo && p[..lo] == old(p[..lo])
      ensures LegalRead(fin, eager, old(left), old(fuel), left, fuel, hi - lo, p[lo..lo + n], err)
      decreases depth, 1
    {
      ghost var l, f := rest.Left(), rest.Fuel();
      assert prefix + l == l;
      n, err := rest.Read(p, lo, hi);
      SameBit(fin, rest.Eager(), eager, l, f, rest.Left(), rest.Fuel(), hi - lo, p[lo..lo + n], err);
      left, fuel, Repr := rest.Left(), rest.Fuel(), {this} + rest.Repr();
      assert prefix + rest.Left() == rest.Left();
    }
  }

  lemma Advanced(s: Bytes, t: Bytes, n: nat)
    requires n <= |s|
    ensures (s + t)[..n] == s[..n] && (s + t)[n..] == s[n..] + t
  {
  }

  /** Without bytes the bit means nothing. */
  lemma SameBit(fin: Error, e: bool, e': bool, left: Bytes, f: nat, left': Bytes, f': nat,
                room: nat, piece: Bytes, err: Option<Error>)
    requires LegalRead(fin, e, left, f, left', f', room, piece, err) && (left != [] ==> e' == e)
    ensures LegalRead(fin, e', left, f, left', f', room, piece, err)
  {
  }

  // --------------------------------------------------- the sliding window

  /** Where a window reader stands: before its first window, or carrying text. */
  datatype Stage = Fresh | Carrying(c: Bytes)

  /** What the window reader delivers from there over a source with `d` left. */
  ghost function Output(R: Bytes -> Bytes, B: nat, st: Stage, d: Bytes, eager: bool): Bytes
    requires B >= 1
  {
    match st
    case Fresh => Windows(R, B, d, eager)
    case Carrying(c) => Rest(R, B, c, d, eager)
  }

  ghost predicate StageFits(R: Bytes -> Bytes, B: nat, st: Stage, d: Bytes, eager: bool)
    requires B >= 1
  {
    match st
    case Fresh => Fits(R, B, d, eager)
    case Carrying(c) => RestFits(R, B, c, d, eager)
  }

  /** Bounds the bytes and the answers without error still to come. */
  ghost function StageBudget(growth: nat -> nat, B: nat, st: Stage, f: nat): nat {
    match st
    case Fresh => Budget.First(growth, B, f)
    case Carrying(c) => Budget.Later(growth, B, f, |c|)
  }

  /** After a first window that is not the last one. */
  lemma StartHandsOver(R: Bytes -> Bytes, B: nat, d: Bytes, w: Bytes, d': Bytes, eager: bool)
    requires B >= 1 && !Final(d, 2 * B, eager) && w == d[..2 * B] && d' == d[2 * B..]
    ensures var o := R(w);
            && Output(R, B, Fresh, d, eager) == o[..|o| / 2] + Output(R, B, Carrying(o[|o| / 2..]), d', eager)
            && (Fits(R, B, d, eager) ==> StageFits(R, B, Carrying(o[|o| / 2..]), d', eager))
  {
  }

  /** After a later window that is not the last one. */
  lemma RunHandsOver(R: Bytes -> Bytes, B: nat, c: Bytes, d: Bytes, b: Bytes, d': Bytes, eager: bool)
    requires B >= 1 && !Final(d, B, eager) && b == d[..B] && d' == d[B..] && RestFits(R, B, c, d, eager)
    ensures var o := R(c + b);
            && |o| <= 2 * |c + b| + 1
            && Output(R, B, Carrying(c), d, eager) == o[..|o| / 2] + Output(R, B, Carrying(CarryOf(c + b, o)), d', eager)
            && StageFits(R, B, Carrying(CarryOf(c + b, o)), d', eager)
  {
  }

  /** One read into a slice that starts at index `from` and has `n` bytes already, of
      the source's text `all`. */
  method ReadMore(buffer: array<Byte>, from: nat, n: nat, reader: Reader, ghost all: Bytes) returns (n': nat, err: Option<Error>)
    requires reader.Valid() && from + n < buffer.Length && buffer !in reader.Repr()
    requires n <= |all| && buffer[from..from + n] == all[..n] && reader.Left() == all[n..]
    modifies reader.Repr(), buffer
    ensures reader.Valid() && fresh(reader.Repr() - old(reader.Repr())) && buffer !in reader.Repr()
    ensures n <= n' <= |all| && from + n' <= buffer.Length && buffer[..from] == old(buffer[..from])
    ensures buffer[from..from + n'] == all[..n'] && reader.Left() == all[n'..]
    ensures EndSeen(reader.Fin(), reader.Eager(), all, buffer.Length - from, n', err)
    ensures err.None? ==> reader.Fuel() < old(reader.Fuel())
    decreases reader.Depth(), 6
  {
    ghost var head, l, f := buffer[..from + n], reader.Left(), reader.Fuel();
    HeadOf(buffer, from, n);
    var k;
    k, err := reader.Read(buffer, from + n, buffer.Length);
    Received(reader.Fin(), reader.Eager(), all, l, f, reader.Left(), reader.Fuel(), head, buffer, from, n, k, err);
    n' := n + k;
  }

  lemma HeadOf(buffer: array<Byte>, from: nat, n: nat)
    requires from + n <= buffer.Length
    ensures buffer[..from + n][..from] == buffer[..from] && buffer[..from + n][from..] == buffer[from..from + n]
  {
  }

  /** Reads until the buffer is full from index `from` on, or the source reports its
      error: that depends on what the source has left and on whether it is eager. */
  method ReadUntilFull(buffer: array<Byte>, from: nat, reader: Reader) returns (n: nat, err: Option<Error>)
    requires reader.Valid() && from < buffer.Length && buffer !in reader.Repr()
    modifies reader.Repr(), buffer
    ensures reader.Valid() && fresh(reader.Repr() - old(reader.Repr()))
    ensures n <= |old(reader.Left())| && from + n <= buffer.Length && buffer[..from] == old(buffer[..from])
    ensures buffer[from..from + n] == old(reader.Left())[..n] && reader.Left() == old(reader.Left())[n..]
    ensures err.Some? <==> Final(old(reader.Left()), buffer.Length - from, reader.Eager())
    ensures err.None? ==> from + n == buffer.Length && reader.Fuel() < old(reader.Fuel())
    ensures err.Some? ==> err.value == reader.Fin() && reader.Left() == []
    decreases reader.Depth(), 7
  {
    ghost var all := reader.Left();
    n, err := ReadMore(buffer, from, 0, reader, all);
    while err.None? && from + n < buffer.Length
      invariant reader.Valid() && fresh(reader.Repr() - old(reader.Repr())) && buffer !in reader.Repr()
      invariant n <= |all| && from + n <= buffer.Length && buffer[..from] == old(buffer[..from])
      invariant buffer[from..from + n] == all[..n] && reader.Left() == all[n..]
      invariant EndSeen(reader.Fin(), reader.Eager(), all, buffer.Length - from, n, err)
      invariant err.None? ==> reader.Fuel() < old(reader.Fuel())
      decreases err.None?, reader.Fuel()
    {
      n, err := ReadMore(buffer, from, n, reader, all);
    }
  }

  /** An error has come if the source ends in the slice; while there is room for more
      bytes, and no error, that is open. */
  ghost predicate EndSeen(fin: Error, eager: bool, all: Bytes, size: nat, n: nat, err: Option<Error>) {
    && (err.Some? ==> err.value == fin && n == |all| && Final(all, size, eager))
    && (err.None? && n == size ==> !Final(all, size, eager))
  }

  /** One more piece, of `k` bytes, for a slice that has `n`: the buffer began with `head`. */
  lemma Received(fin: Error, eager: bool, all: Bytes, left: Bytes, f: nat, left': Bytes, f': nat,
                 head: Bytes, buffer: array<Byte>, from: nat, n: nat, k: nat, err: Option<Error>)
    requires from + n < buffer.Length && from + n + k <= buffer.Length
    requires |head| == from + n && buffer[..from + n] == head
    requires n <= |all| && head[from..] == all[..n] && left == all[n..]
    requires LegalRead(fin, eager, left, f, left', f', buffer.Length - (from + n), buffer[from + n..from + n + k], err)
    ensures n + k <= |all| && buffer[..from] == head[..from]
    ensures buffer[from..from + (n + k)] == all[..n + k] && left' == all[n + k..]
    ensures EndSeen(fin, eager, all, buffer.Length - from, n + k, err)
  {
    HeadOf(buffer, from, n);
    assert buffer[from..from + n] + buffer[from + n..from + n + k] == buffer[from..from + (n + k)];
    Taken(all, n, k);
  }

  lemma Taken(all: Bytes, n: nat, k: nat)
    requires n + k <= |all|
    ensures all[..n] + all[n..][..k] == all[..n + k] && all[n..][k..] == all[n + k..]
  {
  }

  /** The bytes from `mid` up to `right` of a buffer, padded with the zero bytes
      of a freshly made one where `right` lies beyond its end. */
  ghost function CarryIn(buf: Bytes, mid: nat, right: nat): Bytes
    requires mid <= |buf| && mid <= right
  {
    buf[mid..Min(right, |buf|)] + Zeros(right - Min(right, |buf|))
  }

  lemma CopiedBack(w: Bytes, o: Bytes, buf: Bytes)
    requires |o| / 2 <= |w| == |buf|
    requires buf[..Min(|o|, |w|)] == o[..Min(|o|, |w|)]
    ensures CarryIn(buf, |o| / 2, |o|) == CarryOf(w, o) && buf[..|o| / 2] == o[..|o| / 2]
  {
    var kept := Min(|o|, |w|);
    assert buf[|o| / 2..kept] == buf[..kept][|o| / 2..] == o[|o| / 2..kept];
    assert buf[..|o| / 2] == buf[..kept][..|o| / 2];
  }

  lemma CopiedOver(buf: Bytes, mid: nat, right: nat, fresh': Bytes, k: nat, B: nat)
    requires mid <= |buf| && mid <= right
    requires k == Min(right - mid + B, |buf| - mid) && |fresh'| == right - mid + B
    requires fresh'[..k] == buf[mid..mid + k]
    requires fresh'[k..] == Zeros(right - mid + B)[k..]
    ensures fresh'[..right - mid] == CarryIn(buf, mid, right)
  {
    forall i | 0 <= i < right - mid
      ensures fresh'[i] == CarryIn(buf, mid, right)[i]
    {
      if i < k {
        assert fresh'[i] == fresh'[..k][i] == buf[mid + i];
      } else {
        assert fresh'[i] == fresh'[k..][i - k];
      }
    }
  }

  /** `fixedChunkRegexReader`; `rewrite` is `find.ReplaceAll(_, replace)`. */
  class FixedChunkRegexReader {
    const dataSource: Reader
    const rewrite: Bytes -> Bytes
    const bufferSize: nat

    var buffer: array?<Byte>
    var leftIndex: nat
    var midIndex: nat
    var rightIndex: nat

    ghost const growth: nat -> nat
    ghost const depth: nat
    ghost var Repr: set<object>

    /** The buffer and its indices in order; without growth they stay small. */
    ghost predicate Shape()
      reads this, Repr
      decreases depth, 0
    {
      && this in Repr && dataSource.Obj() in Repr && dataSource.Repr() <= Repr && this !in dataSource.Repr()
      && dataSource.Depth() < depth && dataSource.Valid()
      && bufferSize >= 1 && Budget.Bounds(rewrite, growth)
      && (buffer != null ==>
            && buffer in Repr && buffer !in dataSource.Repr()
            && midIndex <= buffer.Length && midIndex <= rightIndex
            && (NonGrowing(rewrite) ==> rightIndex - midIndex <= bufferSize && buffer.Length <= 2 * bufferSize))
    }

    /** And no window still to come more than doubles. */
    ghost predicate Valid()
      reads this, Repr
      decreases depth, 3
    {
      Shape() && StageFits(rewrite, bufferSize, At(), dataSource.Left(), dataSource.Eager())
    }

    constructor (data: Reader, bufferSize: nat, rewrite: Bytes -> Bytes)
      requires data.Valid() && bufferSize >= 1 && Fits(rewrite, bufferSize, data.Left(), data.Eager())
      ensures Valid() && fresh(Repr - data.Repr()) && buffer == null
      ensures dataSource == data && this.rewrite == rewrite && this.bufferSize == bufferSize && depth == data.Depth() + 1
    {
      this.dataSource, this.bufferSize, this.rewrite := data, bufferSize, rewrite;
      this.buffer, this.leftIndex, this.midIndex, this.rightIndex := null, 0, 0, 0;
      this.growth, this.depth := Budget.Growth(rewrite), data.Depth() + 1;
      this.Repr := {this} + data.Repr();
      Budget.GrowthBounds(rewrite);
    }

    /** What the next window starts with. */
    ghost function Carry(): Bytes
      requires Shape() && buffer != null
      reads this, Repr
      decreases depth, 1
    {
      CarryIn(buffer[..], midIndex, rightIndex)
    }

    ghost function At(): Stage
      requires Shape()
      reads this, Repr
      decreases depth, 2
    {
      if buffer == null then Fresh else Carrying(Carry())
    }

    /** What it delivers from now on. */
    ghost function Left(): Bytes
      requires Shape()
      reads this, Repr
      decreases depth, 3
    {
      Output(rewrite, bufferSize, At(), dataSource.Left(), dataSource.Eager())
    }

    /** Bounds the bytes and the answers without error still to come. */
    ghost function Allowance(): nat
      requires Shape()
      reads this, Repr
      decreases depth, 3
    {
      StageBudget(growth, bufferSize, At(), dataSource.Fuel())
    }

    /** Fills the first buffer; `w` is what was read into it. */
    method LoadFirst() returns (w: Bytes, err: Option<Error>)
      requires Shape() && buffer == null
      modifies Repr
      ensures Shape() && fresh(Repr - old(Repr)) && buffer != null
      ensures |w| <= |old(dataSource.Left())| && |w| <= 2 * bufferSize
      ensures w == old(dataSource.Left())[..|w|] && dataSource.Left() == old(dataSource.Left())[|w|..]
      ensures err.Some? <==> Final(old(dataSource.Left()), 2 * bufferSize, dataSource.Eager())
      ensures err.None? ==> |w| == 2 * bufferSize && dataSource.Fuel() < old(dataSource.Fuel())
      ensures err.Some? ==> err.value == dataSource.Fin() && dataSource.Left() == []
      decreases depth, 0
    {
      var buf := new Byte[bufferSize * 2](_ => 0 as char);
      var n;
      n, err := ReadUntilFull(buf, 0, dataSource);
      buffer, leftIndex, midIndex, rightIndex := buf, 0, bufferSize, bufferSize * 2;
      Repr := {this, buf} + dataSource.Repr();
      w := buf[..n];
      assert buf[0..n] == w;
    }

    /** Keeps the rewritten first window in a buffer of its own length. */
    method StoreFirst(o: Bytes)
      requires Shape() && (NonGrowing(rewrite) ==> |o| <= 2 * bufferSize)
      modifies this
      ensures Shape() && fresh(Repr - old(Repr)) && buffer != null
      ensures dataSource.Left() == old(dataSource.Left()) && dataSource.Fuel() == old(dataSource.Fuel())
      ensures midIndex == |o| / 2 && Carry() == o[|o| / 2..]
    {
      var copied := new Byte[|o|](_ => 0 as char);
      CopyInto(copied, 0, o);
      assert copied[..] == o;
      buffer, rightIndex, midIndex := copied, |o|, |o| / 2;
      Repr := {this, copied} + dataSource.Repr();
    }

    /** A new buffer that starts with the carry. */
    method MoveCarry(rightBufferSize: nat) returns (buf: array<Byte>)
      requires Shape() && buffer != null && rightBufferSize == rightIndex - midIndex
      ensures fresh(buf) && buf.Length == rightBufferSize + bufferSize && buf[..rightBufferSize] == Carry()
    {
      buf := new Byte[rightBufferSize + bufferSize](_ => 0 as char);
      var k := Min(buf.Length, buffer.Length - midIndex);
      CopyInto(buf, 0, buffer[midIndex..midIndex + k]);
      assert buf[..k] == buf[0..k];
      CopiedOver(buffer[..], midIndex, rightIndex, buf[..], k, bufferSize);
    }

    /** Moves the carry to the front of a new buffer and fills the rest of it. */
    method LoadNext() returns (w: Bytes, ghost b: Bytes, err: Option<Error>)
      requires Shape() && buffer != null
      modifies Repr
      ensures Shape() && fresh(Repr - old(Repr)) && buffer != null
      ensures w == old(Carry()) + b && |b| <= bufferSize
      ensures |b| <= |old(dataSource.Left())|
      ensures b == old(dataSource.Left())[..|b|] && dataSource.Left() == old(dataSource.Left())[|b|..]
      ensures err.Some? <==> Final(old(dataSource.Left()), bufferSize, dataSource.Eager())
      ensures err.None? ==> |b| == bufferSize && buffer[..] == w && dataSource.Fuel() < old(dataSource.Fuel())
      ensures err.Some? ==> err.value == dataSource.Fin() && dataSource.Left() == []
      decreases depth, 0
    {
      ghost var c := Carry();
      var rightBufferSize := rightIndex - midIndex;
      var buf := MoveCarry(rightBufferSize);
      var n;
      n, err := ReadUntilFull(buf, rightBufferSize, dataSource);
      midIndex, rightIndex, buffer := rightBufferSize, buf.Length, buf;
      Repr := {this, buf} + dataSource.Repr();
      b := buf[rightBufferSize..rightBufferSize + n];
      w := buf[..rightBufferSize + n];
      assert w == buf[..rightBufferSize] + b;
    }

    /** Copies the rewritten window back into the buffer it came from. */
    method StoreNext(w: Bytes, o: Bytes)
      requires Shape() && buffer != null && buffer[..] == w
      requires |o| <= 2 * |w| + 1 && (NonGrowing(rewrite) ==> |o| <= |w|)
      modifies this, buffer
      ensures Shape() && fresh(Repr - old(Repr)) && buffer != null
      ensures dataSource.Left() == old(dataSource.Left()) && dataSource.Fuel() == old(dataSource.Fuel())
      ensures midIndex == |o| / 2 <= buffer.Length && buffer[..midIndex] == o[..|o| / 2]
      ensures Carry() == CarryOf(w, o)
    {
      rightIndex, midIndex := |o|, |o| / 2;
      var kept := Min(|o|, buffer.Length);
      CopyInto(buffer, 0, o[..kept]);
      assert buffer[..kept] == buffer[0..kept];
      CopiedBack(w, o, buffer[..]);
    }

    /** The first chunk: half of the first window, or all of it when the source ends. */
    method FirstChunk() returns (chunk: Bytes, err: Option<Error>)
      requires Valid() && buffer == null
      modifies Repr
      ensures Shape() && fresh(Repr - old(Repr))
      ensures err.None? ==> Valid() && old(Left()) == chunk + Left() && |chunk| + Allowance() < old(Allowance())
      ensures err.Some? ==> err.value == dataSource.Fin() && old(Left()) == chunk && |chunk| < old(Allowance())
      decreases depth, 1
    {
      ghost var d, f := dataSource.Left(), dataSource.Fuel();
      var w;
      w, err := LoadFirst();
      var o := rewrite(w);
      StartBudget(rewrite, growth, bufferSize, f, dataSource.Fuel(), w);
      if err.Some? {
        assert w == d;
        return o, err;
      }
      StartHandsOver(rewrite, bufferSize, d, w, dataSource.Left(), dataSource.Eager());
      StoreFirst(o);
      chunk := o[..midIndex];
    }

    method NextChunk() returns (chunk: Bytes, err: Option<Error>)
      requires Valid() && buffer != null
      modifies Repr
      ensures Shape() && fresh(Repr - old(Repr))
      ensures err.None? ==> Valid() && old(Left()) == chunk + Left() && |chunk| + Allowance() < old(Allowance())
      ensures err.Some? ==> err.value == dataSource.Fin() && old(Left()) == chunk && |chunk| < old(Allowance())
      decreases depth, 1
    {
      ghost var d, f, c := dataSource.Left(), dataSource.Fuel(), Carry();
      var w;
      ghost var b;
      w, b, err := LoadNext();
      var o := rewrite(w);
      RunBudget(rewrite, growth, bufferSize, f, dataSource.Fuel(), c, b);
      if err.Some? {
        assert b == d;
        return o, err;
      }
      RunHandsOver(rewrite, bufferSize, c, d, b, dataSource.Left(), dataSource.Eager());
      StoreNext(w, o);
      chunk := buffer[..midIndex];
    }

    /** One chunk of output: the next bytes of what is left, all of them with an error. */
    method Read() returns (chunk: Bytes, err: Option<Error>)
      requires Valid()
      modifies Repr
      ensures Shape() && fresh(Repr - old(Repr))
      ensures err.None? ==> Valid() && old(Left()) == chunk + Left() && |chunk| + Allowance() < old(Allowance())
      ensures err.Some? ==> err.value == dataSource.Fin() && old(Left()) == chunk && |chunk| < old(Allowance())
      decreases depth, 2
    {
      if buffer == null {
        chunk, err := FirstChunk();
      } else {
        chunk, err := NextChunk();
      }
    }
  }

  lemma StartBudget(R: Bytes -> Bytes, growth: nat -> nat, B: nat, f: nat, f': nat, w: Bytes)
    requires Budget.Bounds(R, growth) && |w| <= 2 * B
    ensures |R(w)| < StageBudget(growth, B, Fresh, f)
    ensures f' < f ==> |R(w)| / 2 + StageBudget(growth, B, Carrying(R(w)[|R(w)| / 2..]), f')
                       < StageBudget(growth, B, Fresh, f)
  {
    Budget.FirstBudget(R, growth, B, f, f', w);
  }

  lemma RunBudget(R: Bytes -> Bytes, growth: nat -> nat, B: nat, f: nat, f': nat, c: Bytes, b: Bytes)
    requires Budget.Bounds(R, growth) && B >= 1 && |b| <= B
    ensures |R(c + b)| < StageBudget(growth, B, Carrying(c), f)
    ensures f' < f && |b| == B && |R(c + b)| <= 2 * |c + b| + 1 ==>
      |R(c + b)| / 2 + StageBudget(growth, B, Carrying(CarryOf(c + b, R(c + b))), f') < StageBudget(growth, B, Carrying(c), f)
  {
    Budget.NextBudget(R, growth, B, f, f', |c|, c + b);
  }

  // ------------------------------------------------- chunks to any size

  /** `regexReader` */
  class RegexReader {
    const chunkReader: FixedChunkRegexReader
    var chunk: Bytes
    var err: Option<Error>

    ghost const fin: Error
    ghost const depth: nat
    ghost var left: Bytes
    ghost var fuel: nat
    ghost var Repr: set<object>

    ghost predicate Valid()
      reads this, Repr
      decreases depth, 5
    {
      && this in Repr && chunkReader in Repr && chunkReader.Repr <= Repr && this !in chunkReader.Repr
      && Holds(chunk, err, left, fuel)
    }

    /** With this chunk and error at hand, `left` is still to come. */
    ghost predicate Holds(chunk: Bytes, err: Option<Error>, left: Bytes, fuel: nat)
      reads chunkReader, chunkReader.Repr
      decreases depth, 4
    {
      && chunkReader.depth == depth && chunkReader.Shape()
      && fin == chunkReader.dataSource.Fin()
      && match err
         case None =>
           chunkReader.Valid() && left == chunk + chunkReader.Left() && fuel >= |chunk| + chunkReader.Allowance()
         case Some(e) => e == fin && left == chunk && fuel >= |chunk|
    }

    constructor (data: Reader, bufferSize: nat, rewrite: Bytes -> Bytes)
      requires data.Valid() && bufferSize >= 1 && Fits(rewrite, bufferSize, data.Left(), data.Eager())
      ensures Valid() && fresh(Repr - data.Repr())
      ensures fin == data.Fin() && left == Windows(rewrite, bufferSize, data.Left(), data.Eager())
    {
      var c := new FixedChunkRegexReader(data, bufferSize, rewrite);
      chunkReader, chunk, err := c, [], None;
      fin, depth := data.Fin(), c.depth;
      left, fuel := c.Left(), c.Allowance();
      Repr := {this} + c.Repr;
      new;
      assert chunk + chunkReader.Left() == chunkReader.Left();
    }

    /** Fetches the next chunk once the last one has been handed out. */
    method Refill()
      requires Valid() && err.None? && chunk == []
      modifies Repr
      ensures Valid() && fresh(Repr - old(Repr))
      ensures left == old(left) && fuel < old(fuel)
      decreases depth, 3
    {
      ghost var l := chunkReader.Left();
      assert chunk + l == l;
      var c, e := chunkReader.Read();
      Keep(c, e, |c| + if e.None? then chunkReader.Allowance() else 0);
    }

    method Keep(c: Bytes, e: Option<Error>, ghost f: nat)
      requires Holds(c, e, left, f) && this !in chunkReader.Repr && chunkReader in chunkReader.Repr
      modifies this
      ensures Valid() && Repr == {this} + chunkReader.Repr
      ensures left == old(left) && fuel == f
    {
      chunk, err := c, e;
      fuel, Repr := f, {this} + chunkReader.Repr;
    }

    /** Copies as much of the chunk as fits behind the first `n` bytes of `all`. */
    method HandOut(p: array<Byte>, lo: nat, n: nat, hi: nat, ghost all: Bytes) returns (k: nat)
      requires Valid() && lo + n < hi <= p.Length && p !in Repr && chunk != []
      requires n <= |all| && p[lo..lo + n] == all[..n] && left == all[n..]
      modifies this, p
      ensures Valid() && Repr == old(Repr)
      ensures 0 < k <= hi - (lo + n) && p[..lo] == old(p[..lo]) && fuel < old(fuel)
      ensures n + k <= |all| && p[lo..lo + (n + k)] == all[..n + k] && left == all[n + k..]
    {
      k := Min(hi - (lo + n), |chunk|);
      ghost var head, more := p[..lo + n], if err.None? then chunkReader.Left() else [];
      HeadOf(p, lo, n);
      CopyInto(p, lo + n, chunk[..k]);
      HandedOut(head, p, lo, n, all, chunk, more, k);
      left, chunk, fuel := all[n + k..], chunk[k..], fuel - k;
    }

    method Read(p: array<Byte>, lo: nat, hi: nat) returns (n: nat, e: Option<Error>)
      requires Valid() && lo <= hi <= p.Length && p !in Repr
      modifies Repr, p
      ensures Valid() && fresh(Repr - old(Repr))
      ensures n <= hi - lo && p[..lo] == old(p[..lo])
      ensures LegalRead(fin, false, old(left), old(fuel), left, fuel, hi - lo, p[lo..lo + n], e)
      decreases depth, 4
    {
      n := 0;
      ghost var all := left;
      while lo + n < hi
        invariant Valid() && fresh(Repr - old(Repr)) && p !in Repr
        invariant lo + n <= hi && p[..lo] == old(p[..lo])
        invariant n <= |all| && p[lo..lo + n] == all[..n] && left == all[n..]
        invariant fuel <= old(fuel) && (n > 0 ==> fuel < old(fuel))
        decreases hi - (lo + n)
      {
        if err.None? && chunk == [] {
          Refill();
        }
        if chunk == [] {
          return n, err;
        }
        var k := HandOut(p, lo, n, hi, all);
        n := n + k;
      }
      e := None;
    }
  }

  lemma HandedOut(head: Bytes, p: array<Byte>, lo: nat, n: nat, all: Bytes, chunk: Bytes, more: Bytes, k: nat)
    requires |head| == lo + n && lo + n + k <= p.Length && p[..lo + n] == head && k <= |chunk|
    requires n <= |all| && head[lo..] == all[..n] && p[lo + n..lo + n + k] == chunk[..k] && all[n..] == chunk + more
    ensures p[..lo] == head[..lo] && n + k <= |all|
    ensures p[lo..lo + (n + k)] == all[..n + k] && all[n + k..] == chunk[k..] + more
  {
    HeadOf(p, lo, n);
    assert p[lo..lo + n] + p[lo + n..lo + n + k] == p[lo..lo + (n + k)];
    Advanced(chunk, more, k);
    Taken(all, n, k);
  }

  lemma Appended(fin: Error, eager: bool, all: Bytes, out: Bytes, left: Bytes, f: nat, left': Bytes, f': nat,
                 room: nat, piece: Bytes, err: Option<Error>)
    requires |out| <= |all| && out == all[..|out|] && left == all[|out|..]
    requires LegalRead(fin, eager, left, f, left', f', room, piece, err)
    ensures var out' := out + piece;
            |out'| <= |all| && out' == all[..|out'|] && left' == all[|out'|..] && (err.Some? ==> out' == all)
  {
    Taken(all, |out|, |piece|);
  }

  /** Reads to the end with destinations of any sizes, `idle` of them empty. */
  method Drain(r: Reader, capacity: nat, idle: nat) returns (out: Bytes, e: Error)
    requires r.Valid() && capacity >= 1
    modifies r.Repr()
    ensures out == old(r.Left()) && e == r.Fin()
  {
    out := [];
    var empty := idle;
    var p := new Byte[capacity];
    ghost var all := r.Left();
    while true
      invariant r.Valid() && fresh(r.Repr() - old(r.Repr())) && p !in r.Repr()
      invariant |out| <= |all| && out == all[..|out|] && r.Left() == all[|out|..]
      decreases r.Fuel() + empty
    {
      var size: nat :| size <= capacity && (size == 0 ==> empty > 0);
      if size == 0 {
        empty := empty - 1;
      }
      ghost var l, f := r.Left(), r.Fuel();
      var n, err := r.Read(p, 0, size);
      Appended(r.Fin(), r.Eager(), all, out, l, f, r.Left(), r.Fuel(), size, p[0..n], err);
      out := out + p[0..n];
      if err.Some? {
        return out, err.value;
      }
    }
  }

  /** For every source, every way it splits, stalls and ends, and every sequence of
      destination sizes: what is read is the window recursion over the whole source. */
  method StreamedBody(data: Bytes, stalls: nat, fin: Error, eager: bool, bufferSize: nat, rewrite: Bytes -> Bytes,
                      capacity: nat, idle: nat)
    returns (out: Bytes, e: Error)
    requires bufferSize >= 1 && capacity >= 1 && Fits(rewrite, bufferSize, data, eager)
    ensures out == Windows(rewrite, bufferSize, data, eager) && e == fin
  {
    var body := new Body(data, stalls, fin, eager);
    var regex := new RegexReader(FromBody(body), bufferSize, rewrite);
    out, e := Drain(FromRegex(regex), capacity, idle);
  }
}
