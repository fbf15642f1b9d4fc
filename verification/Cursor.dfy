/** A read position in a byte string: bytes.Reader with io.ReadFull, and the cursors of the
    layout walkers. */
module Cursors {
  import opened Common
  import opened Bytes

  lemma Peel(a: seq<byte>, b: seq<byte>)
    ensures (a + b)[..|a|] == a && (a + b)[|a|..] == b
  {
  }

  lemma Rejoin(b: seq<byte>, n: nat)
    requires n <= |b|
    ensures b == b[..n] + b[n..]
  {
  }

  class Cursor {
    const raw: seq<byte>
    var pos: nat

    ghost predicate Valid()
      reads this
    {
      pos <= |raw|
    }

    ghost function Rest(): seq<byte>
      requires Valid()
      reads this
    {
      raw[pos..]
    }

    constructor (raw: seq<byte>)
      ensures Valid() && this.raw == raw && pos == 0 && Rest() == raw
    {
      this.raw := raw;
      pos := 0;
    }

    /** The next n bytes, or an error and no movement when fewer are left. */
    method Take(n: nat) returns (res: Result<seq<byte>>)
      requires Valid()
      modifies this`pos
      ensures Valid()
      ensures res.Ok? <==> n <= old(|Rest()|)
      ensures res.Ok? ==> res.value == old(Rest())[..n] && Rest() == old(Rest())[n..] && pos == old(pos) + n
      ensures res.Err? ==> pos == old(pos)
    {
      if n > |raw| - pos { return Err; }
      res := Ok(raw[pos..pos + n]);
      pos := pos + n;
    }

    /** A big-endian integer of the given width. */
    method Number(width: nat) returns (res: Result<nat>)
      requires Valid()
      modifies this`pos
      ensures Valid()
      ensures res.Ok? <==> width <= old(|Rest()|)
      ensures res.Ok? ==> res.value == Value(old(Rest())[..width]) && Rest() == old(Rest())[width..] && pos == old(pos) + width
      ensures res.Err? ==> pos == old(pos)
    {
      var b := Take(width);
      res := if b.Ok? then Ok(Value(b.value)) else Err;
    }

    method Left() returns (n: nat)
      requires Valid()
      ensures n == |Rest()|
    {
      n := |raw| - pos;
    }
  }
}
