/** The readers of crates/perun-cli/src/fetcher.rs: the ranged tail, its prefix, and reading in full. */
module Streams {
  import opened Bytes
  import opened Wrappers

  const WINDOW: nat := 0x80_0000

  /** What is left of `s` from `pos` on. */
  function From(s: seq<byte>, pos: nat): seq<byte> { if pos <= |s| then s[pos..] else [] }

  /** A count between one and `most`, as `wish` has it. */
  function Some1(wish: nat, most: nat): (k: nat)
    requires most > 0
    ensures 1 <= k <= most
  {
    if wish == 0 then 1 else if wish <= most then wish else most
  }

  /** A read of at most `n` bytes: a prefix of what is left, empty only when nothing was asked for or left. */
  predicate ReadsFrom(before: seq<byte>, n: nat, out: seq<byte>, after: seq<byte>) {
    && before == out + after && |out| <= n
    && (out == [] <==> n == 0 || before == [])
  }

  /** Handing out the front of a buffered window. */
  lemma TakePart(remote: seq<byte>, pos: nat, buf: seq<byte>, at: nat, take: nat)
    requires at + take <= |buf| && pos + (|buf| - at) <= |remote| && buf[at..] == remote[pos..pos + (|buf| - at)]
    ensures pos + take <= |remote| && buf[at..at + take] == remote[pos..pos + take]
    ensures buf[at + take..] == remote[pos + take..pos + take + (|buf| - (at + take))]
    ensures From(remote, pos) == buf[at..at + take] + From(remote, pos + take)
  {
    var window := buf[at..];
    assert buf[at..at + take] == window[..take] && buf[at + take..] == window[take..];
    assert remote[pos..] == remote[pos..pos + take] + remote[pos + take..];
  }

  /**
   * The remote bytes from `start` on, fetched window by window. A window asked for at `pos` is honest:
   * some of the bytes there, at least one while any are left; `serve` says how many.
   */
  class RangeTailReader {
    const remote: seq<byte>
    const serve: nat -> nat
    var pos: nat
    var buf: seq<byte>
    var at: nat

    ghost predicate Valid()
      reads this
    {
      at < |buf| ==> pos + (|buf| - at) <= |remote| && buf[at..] == remote[pos..pos + (|buf| - at)]
    }

    ghost function Left(): seq<byte>
      reads this
    {
      From(remote, pos)
    }

    constructor (remote: seq<byte>, serve: nat -> nat, start: nat)
      ensures Valid() && this.remote == remote && Left() == From(remote, start)
    {
      this.remote, this.serve := remote, serve;
      pos, buf, at := start, [], 0;
    }

    /** The window at `pos`: empty only past the end. */
    method RangeInto() returns (window: seq<byte>)
      ensures |window| <= WINDOW && (window == [] <==> pos >= |remote|)
      ensures pos < |remote| ==> pos + |window| <= |remote| && window == remote[pos..pos + |window|]
    {
      if pos >= |remote| { return []; }
      var most := if |remote| - pos < WINDOW then |remote| - pos else WINDOW;
      var k := Some1(serve(pos), most);
      window := remote[pos..pos + k];
    }

    method Refill()
      requires Valid()
      modifies this
      ensures Valid() && pos == old(pos)
      ensures at >= |buf| <==> pos >= |remote|
    {
      if at < |buf| { return; }
      buf := RangeInto();
      if buf == [] { return; }
      at := 0;
    }

    /** Hand out the front of the buffer. */
    method TakeBuffered(n: nat) returns (out: seq<byte>)
      requires Valid() && at < |buf| && n > 0
      modifies this
      ensures Valid() && ReadsFrom(old(Left()), n, out, Left())
    {
      var take := if |buf| - at < n then |buf| - at else n;
      TakePart(remote, pos, buf, at, take);
      out := buf[at..at + take];
      at := at + take;
      pos := pos + take;
    }

    method Read(n: nat) returns (out: seq<byte>)
      requires Valid()
      modifies this
      ensures Valid() && ReadsFrom(old(Left()), n, out, Left())
    {
      if n == 0 { return []; }
      if at >= |buf| {
        Refill();
        if at >= |buf| { return []; }
      }
      out := TakeBuffered(n);
    }
  }

  /** A few fixed bytes, then the tail. */
  class PrefixedTailReader {
    const prefix: seq<byte>
    var position: nat
    const tail: RangeTailReader

    ghost predicate Valid()
      reads this, tail
    {
      position <= |prefix| && tail.Valid()
    }

    ghost function Left(): seq<byte>
      reads this, tail
    {
      From(prefix, position) + tail.Left()
    }

    constructor (prefix: seq<byte>, tail: RangeTailReader)
      requires tail.Valid()
      ensures Valid() && this.prefix == prefix && this.tail == tail && Left() == prefix + tail.Left()
    {
      this.prefix, this.tail, position := prefix, tail, 0;
    }

    method Read(n: nat) returns (out: seq<byte>)
      requires Valid()
      modifies this, tail
      ensures Valid() && ReadsFrom(old(Left()), n, out, Left())
    {
      ghost var before, rest := Left(), tail.Left();
      if position < |prefix| {
        var take := if |prefix| - position < n then |prefix| - position else n;
        out := prefix[position..position + take];
        position := position + take;
        assert before == out + (prefix[position..] + rest);
        return;
      }
      out := tail.Read(n);
    }

    /** Reading on, with any request sizes, until a nonempty request brings nothing. */
    method ReadToEnd(sizes: nat -> nat) returns (out: seq<byte>)
      requires Valid()
      modifies this, tail
      ensures out == old(Left()) && Left() == []
    {
      out := [];
      var turn: nat := 0;
      var more := true;
      while more
        invariant Valid() && out + Left() == old(Left())
        invariant !more ==> Left() == []
        decreases |Left()|, more
      {
        ghost var before := Left();
        var part := Read(1 + sizes(turn));
        assert out + before == out + part + Left();
        out := out + part;
        turn := turn + 1;
        more := part != [];
      }
    }
  }

  const BZ_HEADER: seq<byte> := [0x42, 0x5A, 0x68, 0x39]

  /** Whatever the windows and the request sizes, the four header bytes and then the remote bytes from `start`. */
  method ReadPayload(remote: seq<byte>, serve: nat -> nat, start: nat, sizes: nat -> nat) returns (out: seq<byte>)
    ensures out == BZ_HEADER + From(remote, start)
  {
    var tail := new RangeTailReader(remote, serve, start);
    var reader := new PrefixedTailReader(BZ_HEADER, tail);
    out := reader.ReadToEnd(sizes);
  }

  /** A decompressed stream: its bytes, handed out in pieces of any size. */
  class Source {
    const bytes: seq<byte>
    const serve: nat -> nat
    var next: nat

    ghost predicate Valid()
      reads this
    {
      next <= |bytes|
    }

    ghost function Left(): seq<byte>
      reads this
      requires Valid()
    {
      bytes[next..]
    }

    constructor (bytes: seq<byte>, serve: nat -> nat)
      ensures Valid() && Left() == bytes
    {
      this.bytes, this.serve, next := bytes, serve, 0;
    }

    method Read(n: nat) returns (out: seq<byte>)
      requires Valid()
      modifies this
      ensures Valid() && ReadsFrom(old(Left()), n, out, Left())
    {
      var most := if |bytes| - next < n then |bytes| - next else n;
      if most == 0 { return []; }
      var k := Some1(serve(next), most);
      out := bytes[next..next + k];
      next := next + k;
    }

    /** `read_exact`: all `n` bytes, or an error when fewer are left. */
    method ReadExact(n: nat) returns (out: Option<seq<byte>>)
      requires Valid()
      modifies this
      ensures Valid()
      ensures out == if n <= |old(Left())| then Some(old(Left())[..n]) else None
      ensures n <= |old(Left())| ==> Left() == old(Left())[n..]
    {
      ghost var before := Left();
      var got: seq<byte> := [];
      while |got| < n
        invariant Valid() && before == got + Left() && |got| <= n
        decreases n - |got|
      {
        ghost var left := Left();
        var part := Read(n - |got|);
        if part == [] { return None; }
        assert got + left == got + part + Left();
        got := got + part;
      }
      out := Some(got);
    }

    /** `skip`, through a sink of one mebibyte. */
    method Skip(n: nat) returns (ok: bool)
      requires Valid()
      modifies this
      ensures Valid() && ok == (n <= |old(Left())|)
      ensures ok ==> Left() == old(Left())[n..]
    {
      ghost var before := Left();
      var rest: nat := n;
      while rest > 0
        invariant Valid() && rest <= n && n - rest <= |before| && Left() == before[n - rest..]
        decreases rest
      {
        var take := if rest < 0x10_0000 then rest else 0x10_0000;
        var part := Read(take);
        if part == [] { return false; }
        rest := rest - |part|;
      }
      ok := true;
    }

    /** The copy loop of `extract_to_file`: what reached the file, and whether it was all there. */
    method Extract(size: nat) returns (written: seq<byte>, ok: bool)
      requires Valid()
      modifies this
      ensures Valid() && ok == (size <= |old(Left())|)
      ensures ok ==> written == old(Left())[..size] && Left() == old(Left())[size..]
    {
      ghost var before := Left();
      written := [];
      var rest: nat := size;
      while rest > 0
        invariant Valid() && rest <= size && |written| == size - rest && before == written + Left()
        decreases rest
      {
        ghost var left := Left();
        var want := if 0x1_0000 < rest then 0x1_0000 else rest;
        var part := Read(want);
        if part == [] { return written, false; }
        assert written + left == written + part + Left();
        written := written + part;
        rest := rest - |part|;
      }
      assert before[..|written|] == written && before[|written|..] == Left();
      ok := true;
    }
  }
}
