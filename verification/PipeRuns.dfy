/**
 A pipe under every interleaving of reads and writes.  Each call takes the pipe's lock
 any number of times; one locked region is one step, and between two regions of a call
 any other call may run.
 */
module PipeRuns {
  import opened PipeRing

  type Id = nat

  /** A `pipe_write` call; `over` when it has returned. */
  datatype WriteCall = WriteCall(bytes: seq<Byte>, done: nat, over: bool)

  datatype ReadCall = ReadCall(count: nat, got: seq<Byte>, over: bool)

  /** Bytes moved under one hold of the lock, and the call that moved them. */
  datatype Move = Move(call: Id, bytes: seq<Byte>)

  /** `written` and `read` log all moves in and out of the pipe since it was made. */
  datatype State = State(
    contents: seq<Byte>, readers: nat, writers: nat, writeCalls: map<Id, WriteCall>, readCalls: map<Id, ReadCall>,
    written: seq<Move>, read: seq<Move>)

  function Concat(log: seq<Move>): seq<Byte> {
    if log == [] then [] else Concat(log[..|log| - 1]) + log[|log| - 1].bytes
  }

  /** The pieces a call moved, in order. */
  function Pieces(log: seq<Move>, id: Id): seq<seq<Byte>> {
    if log == [] then []
    else
      var p, m := Pieces(log[..|log| - 1], id), log[|log| - 1];
      if m.call == id then p + [m.bytes] else p
  }

  function Joined(pieces: seq<seq<Byte>>): seq<Byte> {
    if pieces == [] then [] else Joined(pieces[..|pieces| - 1]) + pieces[|pieces| - 1]
  }

  datatype Step =
    | StartWrite(id: Id, bytes: seq<Byte>)
    | Write(id: Id)
    | StartRead(id: Id, count: nat)
    | Read(id: Id, linear: nat)
    | GiveUp(id: Id)          // a call returns early: EAGAIN, a signal
    | CloseReader
    | CloseWriter

  predicate Enabled(s: State, step: Step) {
    match step
    case StartWrite(id, bytes) => id !in s.writeCalls && id !in s.readCalls && bytes != []
    case Write(id) =>
      id in s.writeCalls && !s.writeCalls[id].over && s.writeCalls[id].done < |s.writeCalls[id].bytes| && |s.contents| <= PIPE_SIZE
      && (|s.writeCalls[id].bytes| <= PIPE_BUF ==> s.writeCalls[id].done == 0)
    case StartRead(id, count) => id !in s.writeCalls && id !in s.readCalls && count > 0
    case Read(id, linear) => id in s.readCalls && !s.readCalls[id].over && |s.readCalls[id].got| < s.readCalls[id].count && linear > 0
    case GiveUp(id) => id in s.writeCalls || id in s.readCalls
    case CloseReader => s.readers > 0
    case CloseWriter => s.writers > 0
  }

  function Next(s: State, step: Step): State
    requires Enabled(s, step)
  {
    match step
    case StartWrite(id, bytes) => s.(writeCalls := s.writeCalls[id := WriteCall(bytes, 0, false)])
    case Write(id) => AfterWrite(s, id)
    case StartRead(id, count) => s.(readCalls := s.readCalls[id := ReadCall(count, [], false)])
    case Read(id, linear) => AfterRead(s, id, linear)
    case GiveUp(id) =>
      if id in s.writeCalls then s.(writeCalls := s.writeCalls[id := s.writeCalls[id].(over := true)])
      else s.(readCalls := s.readCalls[id := s.readCalls[id].(over := true)])
    case CloseReader => s.(readers := s.readers - 1)
    case CloseWriter => s.(writers := s.writers - 1)
  }

  /** One locked region of the write call `id`. */
  function AfterWrite(s: State, id: Id): State
    requires Enabled(s, Write(id))
  {
    var w := s.writeCalls[id];
    match DecideWrite(|w.bytes|, w.done, |s.contents|, s.readers)
    case Broken => s.(writeCalls := s.writeCalls[id := w.(over := true)])
    case Full => s
    case Wrote(n) =>
      var piece := w.bytes[w.done..w.done + n];
      s.(contents := s.contents + piece, written := s.written + [Move(id, piece)],
         writeCalls := s.writeCalls[id := w.(done := w.done + n, over := w.done + n == |w.bytes|)])
  }

  /** One locked region of the read call `id`. */
  function AfterRead(s: State, id: Id, linear: nat): State
    requires Enabled(s, Read(id, linear))
  {
    var r := s.readCalls[id];
    match DecideRead(r.count, |r.got|, |s.contents|, linear, s.writers)
    case Over => s.(readCalls := s.readCalls[id := r.(over := true)])
    case Empty => s
    case Took(n) =>
      var piece := s.contents[..n];
      s.(contents := s.contents[n..], read := s.read + [Move(id, piece)],
         readCalls := s.readCalls[id := r.(got := r.got + piece, over := |r.got| + n == r.count)])
  }

  // ---- The invariant ----

  /** What a write call has put into the pipe so far. */
  ghost predicate Progress(log: seq<Move>, id: Id, bytes: seq<Byte>, done: nat) {
    && done <= |bytes| && Joined(Pieces(log, id)) == bytes[..done]
    && (|bytes| <= PIPE_BUF ==>
          if done == 0 then Pieces(log, id) == [] else done == |bytes| && Pieces(log, id) == [bytes])
  }

  predicate Peek(log: seq<Move>, id: Id, w: int) {
    true
  }

  /** The same, closed: it is looked into by mentioning `Peek`. */
  ghost predicate WriteOk(log: seq<Move>, id: Id, bytes: seq<Byte>, done: nat) {
    forall w {:trigger Peek(log, id, w)} :: Peek(log, id, w) ==> Progress(log, id, bytes, done)
  }

  ghost predicate WritesOk(written: seq<Move>, calls: map<Id, WriteCall>) {
    && (forall id {:trigger calls[id]} :: id in calls ==>
          && WriteOk(written, id, calls[id].bytes, calls[id].done)
          && (calls[id].over || calls[id].done < |calls[id].bytes|))
    && (forall id {:trigger Pieces(written, id)} :: id !in calls ==> Pieces(written, id) == [])
  }

  ghost predicate ReadsOk(read: seq<Move>, calls: map<Id, ReadCall>) {
    && (forall id {:trigger calls[id]} :: id in calls ==>
          && Joined(Pieces(read, id)) == calls[id].got && |calls[id].got| <= calls[id].count
          && (calls[id].over || |calls[id].got| < calls[id].count))
    && (forall id {:trigger Pieces(read, id)} :: id !in calls ==> Pieces(read, id) == [])
  }

  /** Bytes delivered followed by bytes buffered are the bytes written. */
  ghost predicate Fifo(s: State) {
    Concat(s.read) + s.contents == Concat(s.written) && |s.contents| <= PIPE_SIZE
  }

  ghost predicate Ok(s: State) {
    Fifo(s) && WritesOk(s.written, s.writeCalls) && ReadsOk(s.read, s.readCalls)
  }

  lemma ConcatMore(log: seq<Move>, m: Move)
    ensures Concat(log + [m]) == Concat(log) + m.bytes
  {
    assert (log + [m])[..|log|] == log;
  }

  lemma PiecesMore(log: seq<Move>, m: Move, id: Id)
    ensures Pieces(log + [m], id) == if m.call == id then Pieces(log, id) + [m.bytes] else Pieces(log, id)
  {
    assert (log + [m])[..|log|] == log;
  }

  lemma JoinedMore(pieces: seq<seq<Byte>>, p: seq<Byte>)
    ensures Joined(pieces + [p]) == Joined(pieces) + p
  {
    assert (pieces + [p])[..|pieces|] == pieces;
  }

  /** A piece put in by call `id` is the next stretch of its bytes. */
  lemma PutKeeps(log: seq<Move>, id: Id, bytes: seq<Byte>, done: nat, n: nat)
    requires WriteOk(log, id, bytes, done) && n > 0 && done + n <= |bytes|
    requires |bytes| <= PIPE_BUF ==> done == 0 && n == |bytes|
    ensures WriteOk(log + [Move(id, bytes[done..done + n])], id, bytes, done + n)
  {
    assert Peek(log, id, 0);
    var piece := bytes[done..done + n];
    PiecesMore(log, Move(id, piece), id);
    JoinedMore(Pieces(log, id), piece);
    assert bytes[..done] + piece == bytes[..done + n];
    assert bytes[0..|bytes|] == bytes;
  }

  lemma OthersKeep(log: seq<Move>, m: Move, id: Id, bytes: seq<Byte>, done: nat)
    requires WriteOk(log, id, bytes, done) && m.call != id
    ensures WriteOk(log + [m], id, bytes, done)
  {
    assert Peek(log, id, 0);
    PiecesMore(log, m, id);
  }

  /** A call's next piece logged and its progress noted. */
  lemma MoveKeeps(log: seq<Move>, calls: map<Id, WriteCall>, id: Id, n: nat)
    requires WritesOk(log, calls) && id in calls && n > 0 && calls[id].done + n <= |calls[id].bytes|
    requires |calls[id].bytes| <= PIPE_BUF ==> calls[id].done == 0 && n == |calls[id].bytes|
    ensures var w := calls[id];
            WritesOk(log + [Move(id, w.bytes[w.done..w.done + n])],
                     calls[id := WriteCall(w.bytes, w.done + n, w.done + n == |w.bytes|)])
  {
    var w := calls[id];
    var m := Move(id, w.bytes[w.done..w.done + n]);
    var calls' := calls[id := WriteCall(w.bytes, w.done + n, w.done + n == |w.bytes|)];
    PutKeeps(log, id, w.bytes, w.done, n);
    forall j | j in calls' && j != id ensures WriteOk(log + [m], j, calls'[j].bytes, calls'[j].done) {
      assert WriteOk(log, j, calls[j].bytes, calls[j].done);
      OthersKeep(log, m, j, calls[j].bytes, calls[j].done);
    }
    forall j | j !in calls' ensures Pieces(log + [m], j) == [] {
      PiecesMore(log, m, j);
    }
  }

  lemma FifoGrows(s: State, m: Move)
    requires Fifo(s) && |s.contents| + |m.bytes| <= PIPE_SIZE
    ensures Fifo(s.(contents := s.contents + m.bytes, written := s.written + [m]))
  {
    ConcatMore(s.written, m);
    assert Concat(s.read) + (s.contents + m.bytes) == Concat(s.read) + s.contents + m.bytes;
  }

  lemma ReturnKeeps(log: seq<Move>, calls: map<Id, WriteCall>, id: Id)
    requires WritesOk(log, calls) && id in calls
    ensures WritesOk(log, calls[id := calls[id].(over := true)])
  {
  }

  lemma WroteKeeps(s: State, id: Id, n: nat)
    requires Ok(s) && Enabled(s, Write(id))
    requires var w := s.writeCalls[id]; DecideWrite(|w.bytes|, w.done, |s.contents|, s.readers) == Wrote(n)
    ensures Ok(AfterWrite(s, id))
  {
    var w := s.writeCalls[id];
    var m := Move(id, w.bytes[w.done..w.done + n]);
    FifoGrows(s, m);
    MoveKeeps(s.written, s.writeCalls, id, n);
    assert AfterWrite(s, id).written == s.written + [m];
  }

  lemma WriteKeeps(s: State, id: Id)
    requires Ok(s) && Enabled(s, Write(id))
    ensures Ok(AfterWrite(s, id))
  {
    var w := s.writeCalls[id];
    match DecideWrite(|w.bytes|, w.done, |s.contents|, s.readers)
    case Broken => ReturnKeeps(s.written, s.writeCalls, id);
    case Full =>
    case Wrote(n) => WroteKeeps(s, id, n);
  }

  lemma TakeKeeps(log: seq<Move>, calls: map<Id, ReadCall>, id: Id, piece: seq<Byte>)
    requires ReadsOk(log, calls) && id in calls && |calls[id].got| + |piece| <= calls[id].count
    ensures var r := calls[id];
            ReadsOk(log + [Move(id, piece)],
                    calls[id := ReadCall(r.count, r.got + piece, |r.got| + |piece| == r.count)])
  {
    var m := Move(id, piece);
    JoinedMore(Pieces(log, id), piece);
    forall j ensures Pieces(log + [m], j) == if j == id then Pieces(log, j) + [piece] else Pieces(log, j) {
      PiecesMore(log, m, j);
    }
  }

  lemma FifoShrinks(s: State, id: Id, n: nat)
    requires Fifo(s) && n <= |s.contents|
    ensures Fifo(s.(contents := s.contents[n..], read := s.read + [Move(id, s.contents[..n])]))
  {
    var piece := s.contents[..n];
    ConcatMore(s.read, Move(id, piece));
    assert s.contents == piece + s.contents[n..];
    assert Concat(s.read) + (piece + s.contents[n..]) == Concat(s.read) + piece + s.contents[n..];
  }

  lemma ReadKeeps(s: State, id: Id, linear: nat)
    requires Ok(s) && Enabled(s, Read(id, linear))
    ensures Ok(AfterRead(s, id, linear))
  {
    var r := s.readCalls[id];
    var o := DecideRead(r.count, |r.got|, |s.contents|, linear, s.writers);
    if o.Took? {
      TakeKeeps(s.read, s.readCalls, id, s.contents[..o.n]);
      FifoShrinks(s, id, o.n);
    }
  }

  lemma NextKeeps(s: State, step: Step)
    requires Ok(s) && Enabled(s, step)
    ensures Ok(Next(s, step))
  {
    match step
    case Write(id) => WriteKeeps(s, id);
    case Read(id, linear) => ReadKeeps(s, id, linear);
    case StartWrite(id, bytes) => assert Pieces(s.written, id) == [];
    case StartRead(id, count) => assert Pieces(s.read, id) == [];
    case _ =>
  }

  /** A call that has not returned can always take its next locked region. */
  lemma CallsCanStep(s: State, id: Id, linear: nat)
    requires Ok(s) && linear > 0
    ensures id in s.writeCalls && !s.writeCalls[id].over ==> Enabled(s, Write(id))
    ensures id in s.readCalls && !s.readCalls[id].over ==> Enabled(s, Read(id, linear))
  {
    if id in s.writeCalls {
      assert Peek(s.written, id, 0);
      assert WriteOk(s.written, id, s.writeCalls[id].bytes, s.writeCalls[id].done);
    }
  }

  // ---- Runs ----

  const INIT: State := State([], 1, 1, map[], map[], [], [])

  /** The state after the steps, if each was possible when it was taken. */
  ghost predicate Reaches(s: State, steps: seq<Step>, s': State)
    decreases |steps|
  {
    if steps == [] then s' == s
    else Enabled(s, steps[0]) && Reaches(Next(s, steps[0]), steps[1..], s')
  }

  lemma {:induction false} EveryRunKeeps(s: State, steps: seq<Step>, s': State)
    requires Ok(s) && Reaches(s, steps, s')
    ensures Ok(s')
    decreases |steps|
  {
    if steps != [] {
      NextKeeps(s, steps[0]);
      EveryRunKeeps(Next(s, steps[0]), steps[1..], s');
    }
  }

  /** Whatever the interleaving, the pipe is first in, first out, and loses nothing. */
  lemma PipeIsFifo(steps: seq<Step>, s: State)
    requires Reaches(INIT, steps, s)
    ensures Concat(s.read) + s.contents == Concat(s.written) && |s.contents| <= PIPE_SIZE
  {
    EveryRunKeeps(INIT, steps, s);
  }

  lemma {:induction false} ConcatSplit(log: seq<Move>, k: nat)
    requires k < |log|
    ensures Concat(log) == Concat(log[..k]) + log[k].bytes + Concat(log[k + 1..])
  {
    var last := |log| - 1;
    if k == last {
      assert log[k + 1..] == [];
    } else {
      var front := log[..last];
      ConcatSplit(front, k);
      assert front[..k] == log[..k];
      assert log[k + 1..][..last - (k + 1)] == front[k + 1..];
    }
  }

  lemma {:induction false} OnePiece(log: seq<Move>, id: Id, bytes: seq<Byte>) returns (k: nat)
    requires Pieces(log, id) == [bytes]
    ensures k < |log| && log[k] == Move(id, bytes)
  {
    var last := |log| - 1;
    if log[last].call == id {
      k := last;
      var p := Pieces(log[..last], id);
      assert (p + [log[last].bytes])[|p|] == log[last].bytes;
    } else {
      k := OnePiece(log[..last], id, bytes);
    }
  }

  /**
   A write of at most PIPE_BUF bytes is never split: its bytes are in the stream in one
   stretch, or not at all; and a write that ended with a short count wrote nothing.
   */
  lemma SmallWritesAreAtomic(steps: seq<Step>, s: State, id: Id) returns (before: seq<Byte>, after: seq<Byte>)
    requires Reaches(INIT, steps, s) && id in s.writeCalls && |s.writeCalls[id].bytes| <= PIPE_BUF
    ensures s.writeCalls[id].done == 0 || s.writeCalls[id].done == |s.writeCalls[id].bytes|
    ensures s.writeCalls[id].done > 0 ==>
              Concat(s.read) + s.contents == before + s.writeCalls[id].bytes + after
              && Pieces(s.written, id) == [s.writeCalls[id].bytes]
  {
    EveryRunKeeps(INIT, steps, s);
    var w := s.writeCalls[id];
    assert Peek(s.written, id, 0);
    assert WriteOk(s.written, id, w.bytes, w.done);
    before, after := [], [];
    if w.done > 0 {
      var k := OnePiece(s.written, id, w.bytes);
      ConcatSplit(s.written, k);
      before, after := Concat(s.written[..k]), Concat(s.written[k + 1..]);
    }
  }

  /** A longer write may be split, but its pieces are in order and are what it reports as written. */
  lemma LongWritesStayInOrder(steps: seq<Step>, s: State, id: Id)
    requires Reaches(INIT, steps, s) && id in s.writeCalls
    ensures s.writeCalls[id].done <= |s.writeCalls[id].bytes|
    ensures Joined(Pieces(s.written, id)) == s.writeCalls[id].bytes[..s.writeCalls[id].done]
  {
    EveryRunKeeps(INIT, steps, s);
    assert Peek(s.written, id, 0);
    assert WriteOk(s.written, id, s.writeCalls[id].bytes, s.writeCalls[id].done);
  }

  /** What a read call returns are the pieces it took from the stream, in order. */
  lemma ReadsReturnTheirPieces(steps: seq<Step>, s: State, id: Id)
    requires Reaches(INIT, steps, s) && id in s.readCalls
    ensures s.readCalls[id].got == Joined(Pieces(s.read, id)) && |s.readCalls[id].got| <= s.readCalls[id].count
  {
    EveryRunKeeps(INIT, steps, s);
  }
}
