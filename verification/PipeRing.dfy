/**
 The pipe's ring buffer.  A read or write works on it in regions held under the pipe's
 lock; each such region is one method here.
 */
module PipeRing {
  import opened Arith

  type Byte = bv8

  const PIPE_SIZE: nat := 4096
  const PIPE_BUF: nat := 4096

  // ---- What one locked region of a read or write decides ----

  /** Nobody to read; not enough room yet; or that many bytes written. */
  datatype WriteOutcome = Broken | Full | Wrote(n: nat)

  /** A write of at most PIPE_BUF bytes waits for room for all of it. */
  function MinSpace(count: nat): nat {
    if count <= PIPE_BUF then count else 1
  }

  function DecideWrite(count: nat, done: nat, used: nat, readers: nat): (o: WriteOutcome)
    requires done < count && used <= PIPE_SIZE && (count <= PIPE_BUF ==> done == 0)
    ensures o.Wrote? ==> 0 < o.n <= count - done && o.n <= PIPE_SIZE - used
    ensures o.Wrote? && count <= PIPE_BUF ==> o.n == count
  {
    if readers == 0 then Broken
    else if PIPE_SIZE - used < MinSpace(count) then Full
    else if count <= PIPE_BUF then Wrote(count)
    else Wrote(Min(PIPE_SIZE - used, count - done))
  }

  /** The read is over; it must wait; or that many bytes read. */
  datatype ReadOutcome = Over | Empty | Took(n: nat)

  /** `linear` is how many bytes lie in one piece. */
  function DecideRead(count: nat, done: nat, used: nat, linear: nat, writers: nat): (o: ReadOutcome)
    requires done < count && (used > 0 ==> linear > 0)
    ensures o.Took? ==> 0 < o.n <= count - done && o.n <= used
  {
    if used == 0 then (if writers == 0 || done > 0 then Over else Empty)
    else Took(Min(count - done, Min(used, linear)))
  }

  function Wrap(x: nat): nat {
    if x < PIPE_SIZE then x else x - PIPE_SIZE
  }

  /** The ring holds `s`, oldest byte at `tail`, going round. */
  ghost predicate Holds(data: seq<Byte>, tail: nat, s: seq<Byte>) {
    && |data| == PIPE_SIZE && tail < PIPE_SIZE && |s| <= PIPE_SIZE
    && forall i :: 0 <= i < |s| ==> s[i] == data[Wrap(tail + i)]
  }

  /** Copying in at the head, short of the end of the buffer and of `tail`, appends. */
  lemma CopyAppends(data: seq<Byte>, data': seq<Byte>, tail: nat, s: seq<Byte>, chunk: seq<Byte>)
    requires Holds(data, tail, s) && |data'| == PIPE_SIZE && |s| + |chunk| <= PIPE_SIZE
    requires |s| < PIPE_SIZE && Wrap(tail + |s|) + |chunk| <= PIPE_SIZE
    requires forall i :: 0 <= i < |chunk| ==> data'[Wrap(tail + |s|) + i] == chunk[i]
    requires forall i :: 0 <= i < PIPE_SIZE && !(Wrap(tail + |s|) <= i < Wrap(tail + |s|) + |chunk|) ==> data'[i] == data[i]
    ensures Holds(data', tail, s + chunk)
  {
    forall i | 0 <= i < |s| + |chunk| ensures (s + chunk)[i] == data'[Wrap(tail + i)] {
      if i >= |s| {
        assert Wrap(tail + i) == Wrap(tail + |s|) + (i - |s|);
      }
    }
  }

  /** Moving `tail` on drops the oldest bytes. */
  lemma TailDrops(data: seq<Byte>, tail: nat, s: seq<Byte>, n: nat)
    requires Holds(data, tail, s) && n <= |s| && tail + n <= PIPE_SIZE
    ensures Holds(data, (tail + n) % PIPE_SIZE, s[n..])
    ensures data[tail..tail + n] == s[..n]
    ensures ((tail + n) % PIPE_SIZE + (|s| - n)) % PIPE_SIZE == (tail + |s|) % PIPE_SIZE
  {
    var t := (tail + n) % PIPE_SIZE;
    assert t == Wrap(tail + n);
    forall i | 0 <= i < |s| - n ensures s[n..][i] == data[Wrap(t + i)] {
      assert s[n + i] == data[Wrap(tail + (n + i))];
    }
  }

  /** The head is the place behind the last byte, and moves on with every byte. */
  lemma HeadMoves(tail: nat, used: nat, n: nat)
    requires tail < PIPE_SIZE && used < PIPE_SIZE
    ensures (tail + used) % PIPE_SIZE == Wrap(tail + used)
    ensures ((tail + used) % PIPE_SIZE + n) % PIPE_SIZE == (tail + (used + n)) % PIPE_SIZE
  {
  }

  class Pipe {
    const data: array<Byte>
    var head: nat
    var tail: nat
    var used: nat
    var readers: nat
    var writers: nat

    /** The bytes in the pipe, oldest first. */
    ghost var contents: seq<Byte>

    ghost predicate Valid()
      reads this, data
    {
      && data.Length == PIPE_SIZE && used == |contents| && head == (tail + used) % PIPE_SIZE
      && Holds(data[..], tail, contents)
    }

    constructor ()
      ensures Valid() && contents == [] && readers == 1 && writers == 1 && fresh(data)
    {
      data := new Byte[PIPE_SIZE];
      head, tail, used, readers, writers := 0, 0, 0, 1, 1;
      contents := [];
    }

    /** `memcpy` into the ring. */
    method CopyIn(chunk: seq<Byte>)
      requires head + |chunk| <= data.Length
      modifies data
      ensures forall i :: 0 <= i < |chunk| ==> data[head + i] == chunk[i]
      ensures forall i :: 0 <= i < data.Length && !(head <= i < head + |chunk|) ==> data[i] == old(data[i])
    {
      forall i | 0 <= i < |chunk| {
        data[head + i] := chunk[i];
      }
    }

    /** One round of `pipe_commit_write_locked`: fills up to the end of the buffer. */
    method CommitChunk(buf: seq<Byte>) returns (chunk: nat)
      requires Valid() && 0 < |buf| <= PIPE_SIZE - used
      modifies this`head, this`used, this`contents, data
      ensures Valid() && 0 < chunk <= |buf| && contents == old(contents) + buf[..chunk]
      ensures chunk == Min(|buf|, PIPE_SIZE - old(head)) && used == old(used) + chunk
    {
      var linear := Min(PIPE_SIZE - used, PIPE_SIZE - head);
      chunk := Min(|buf|, linear);
      HeadMoves(tail, used, chunk);
      ghost var before := data[..];
      var piece := buf[..chunk];
      CopyIn(piece);
      CopyAppends(before, data[..], tail, contents, piece);
      contents := contents + piece;
      head := (head + chunk) % PIPE_SIZE;
      used := used + chunk;
    }

    /** `pipe_commit_write_locked`: goes round the end of the buffer at most once. */
    method CommitWrite(buf: seq<Byte>)
      requires Valid() && |buf| <= PIPE_SIZE - used
      modifies this`head, this`used, this`contents, data
      ensures Valid() && contents == old(contents) + buf
    {
      var done := 0;
      while done < |buf|
        invariant Valid() && done <= |buf| && used == old(used) + done
        invariant contents == old(contents) + buf[..done]
      {
        var chunk := CommitChunk(buf[done..]);
        assert buf[..done] + buf[done..][..chunk] == buf[..done + chunk];
        done := done + chunk;
      }
      assert buf[..done] == buf;
    }

    /** One locked region of `pipe_read` that finds bytes: takes what lies in one piece, up to `max`. */
    method TakeChunk(max: nat) returns (chunk: seq<Byte>)
      requires Valid() && used > 0 && max > 0
      modifies this`tail, this`used, this`contents
      ensures Valid() && chunk + contents == old(contents)
      ensures |chunk| == Min(max, Min(old(used), PIPE_SIZE - old(tail))) > 0
    {
      var n := Min(max, Min(used, PIPE_SIZE - tail));
      chunk := data[tail..tail + n];
      TailDrops(data[..], tail, contents, n);
      assert chunk == data[..][tail..tail + n];
      tail := (tail + n) % PIPE_SIZE;
      used := used - n;
      contents := contents[n..];
    }

    /** One locked region of `pipe_write`. */
    method WriteRegion(buf: seq<Byte>, done: nat) returns (o: WriteOutcome)
      requires Valid() && done < |buf| && (|buf| <= PIPE_BUF ==> done == 0)
      modifies this`head, this`used, this`contents, data
      ensures Valid() && o == DecideWrite(|buf|, done, |old(contents)|, readers)
      ensures contents == old(contents) + if o.Wrote? then buf[done..done + o.n] else []
    {
      if readers == 0 {
        return Broken;
      }
      var space := PIPE_SIZE - used;
      if space < MinSpace(|buf|) {
        return Full;
      }
      if |buf| <= PIPE_BUF {
        CommitWrite(buf);
        return Wrote(|buf|);
      }
      if space > |buf| - done {
        space := |buf| - done;
      }
      CommitWrite(buf[done..done + space]);
      return Wrote(space);
    }

    /** One locked region of `pipe_read`. */
    method ReadRegion(count: nat, done: nat) returns (o: ReadOutcome, chunk: seq<Byte>)
      requires Valid() && done < count
      modifies this`tail, this`used, this`contents
      ensures Valid() && chunk + contents == old(contents)
      ensures o == DecideRead(count, done, |old(contents)|, PIPE_SIZE - old(tail), writers)
      ensures |chunk| == if o.Took? then o.n else 0
    {
      chunk := [];
      if used == 0 {
        o := if writers == 0 || done > 0 then Over else Empty;
        return;
      }
      chunk := TakeChunk(count - done);
      o := Took(|chunk|);
    }
  }
}
