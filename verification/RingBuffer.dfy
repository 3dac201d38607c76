/** The byte ring buffer that carries trace samples (`trace_samples`, app/src/plc_debug.c:47-49).
    A claim grants the least of what is asked, what is free (or used), and the distance to the physical end. */
module RingBuffers {
  import opened Bytes

  function Min(a: nat, b: nat): nat {
    if a <= b then a else b
  }

  /** `used` bytes are queued, the oldest at index `head` of `data`. */
  datatype Ring = Ring(data: seq<byte>, head: nat, used: nat) {

    predicate Valid() {
      head < |data| && used <= |data|
    }

    /** The physical index `i` places after the oldest byte. */
    function Pos(i: nat): nat
      requires Valid() && i <= |data|
    {
      if head + i < |data| then head + i else head + i - |data|
    }

    /** The queued bytes, oldest first. */
    function Contents(): (s: seq<byte>)
      requires Valid()
      ensures |s| == used
    {
      seq(used, i requires 0 <= i < used => data[Pos(i)])
    }

    function PutClaim(n: nat): nat
      requires Valid()
    {
      Min(n, Min(|data| - used, |data| - Pos(used)))
    }

    function GetClaim(n: nat): nat
      requires Valid()
    {
      Min(n, Min(used, |data| - head))
    }

    /** The ring after bytes `s` were written into a claim and the claim was finished. */
    function Commit(s: seq<byte>): (r: Ring)
      requires Valid() && |s| <= PutClaim(|s|)
      ensures r.Valid()
    {
      Ring(Splice(data, Pos(used), s), head, used + |s|)
    }

    /** The ring after up to `n` of its oldest bytes were read or discarded. */
    function Drop(n: nat): (r: Ring)
      requires Valid()
      ensures r.Valid()
    {
      Ring(data, Pos(Min(n, used)), used - Min(n, used))
    }
  }

  lemma CommitAppends(r: Ring, s: seq<byte>)
    requires r.Valid() && |s| <= r.PutClaim(|s|)
    ensures r.Commit(s).Contents() == r.Contents() + s
  {
    var r' := r.Commit(s);
    forall i | 0 <= i < r.used + |s|
      ensures r'.Contents()[i] == (r.Contents() + s)[i]
    {
      if i >= r.used {
        assert r'.Pos(i) == r.Pos(r.used) + (i - r.used);
      }
    }
  }

  lemma DropRemovesOldest(r: Ring, n: nat)
    requires r.Valid()
    ensures r.Drop(n).Contents() == r.Contents()[Min(n, r.used)..]
  {
    var k := Min(n, r.used);
    var r' := r.Drop(n);
    forall i | 0 <= i < r.used - k
      ensures r'.Contents()[i] == r.Contents()[k..][i]
    {
      assert r'.Pos(i) == r.Pos(k + i);
    }
  }

  /** A read claim shows the oldest bytes. */
  lemma ClaimShowsOldest(r: Ring, n: nat)
    requires r.Valid() && n <= r.GetClaim(n)
    ensures r.data[r.head..r.head + n] == r.Contents()[..n]
  {
  }

  lemma SpliceTwice(m: seq<byte>, a: nat, s: seq<byte>, t: seq<byte>)
    requires a + |s| + |t| <= |m|
    ensures Splice(Splice(m, a, s), a + |s|, t) == Splice(m, a, s + t)
  {
  }

  lemma SpliceNothing(m: seq<byte>, a: nat)
    requires a <= |m|
    ensures Splice(m, a, []) == m
  {
  }

  class RingBuffer {
    const buffer: array<byte>
    var head: nat
    var used: nat

    ghost predicate Valid()
      reads this
    {
      head < buffer.Length && used <= buffer.Length
    }

    function View(): (r: Ring)
      requires Valid()
      reads this, buffer
      ensures r.Valid()
    {
      Ring(buffer[..], head, used)
    }

    constructor (size: nat)
      requires size > 0
      ensures Valid() && fresh(buffer) && buffer.Length == size && View().Contents() == [] && head == 0
    {
      buffer := new byte[size];
      head, used := 0, 0;
    }

    /** ring_buf_reset. */
    method Reset()
      requires Valid()
      modifies this
      ensures Valid() && View() == old(View()).(head := 0, used := 0)
    {
      head, used := 0, 0;
    }

    function TailIndex(): nat
      requires Valid()
      reads this
    {
      if head + used < buffer.Length then head + used else head + used - buffer.Length
    }

    /** ring_buf_put_claim: where to write and how many bytes. */
    method PutClaim(n: nat) returns (at: nat, granted: nat)
      requires Valid()
      ensures at == View().Pos(used) && granted == View().PutClaim(n)
    {
      at := TailIndex();
      granted := Min(n, Min(buffer.Length - used, buffer.Length - at));
    }

    /** memcpy into claimed space. */
    method Write(at: nat, s: seq<byte>)
      requires Valid() && at + |s| <= buffer.Length
      modifies buffer
      ensures View() == old(View()).(data := Splice(old(buffer[..]), at, s))
    {
      for i := 0 to |s|
        invariant forall a :: 0 <= a < buffer.Length ==>
                    buffer[a] == if at <= a < at + i then s[a - at] else old(buffer[a])
      {
        buffer[at + i] := s[i];
      }
      assert buffer[..] == Splice(old(buffer[..]), at, s);
    }

    /** ring_buf_put_finish: `n` bytes written at the tail become readable. */
    method PutFinish(n: nat)
      requires Valid() && used + n <= buffer.Length
      modifies this`used
      ensures Valid() && View() == old(View()).(used := old(used) + n)
    {
      used := used + n;
    }

    /** ring_buf_get_claim: where to read and how many bytes. */
    method GetClaim(n: nat) returns (at: nat, granted: nat)
      requires Valid()
      ensures at == head && granted == View().GetClaim(n)
    {
      at := head;
      granted := Min(n, Min(used, buffer.Length - head));
    }

    /** ring_buf_get_finish, and ring_buf_get without a destination: consumes up to `n` of the oldest bytes. */
    method Consume(n: nat)
      requires Valid()
      modifies this
      ensures Valid() && View() == old(View()).Drop(n)
    {
      var k := Min(n, used);
      head := if head + k < buffer.Length then head + k else head + k - buffer.Length;
      used := used - k;
    }
  }
}
