/**
 One block of an ext2 directory, as bytes: records with a 4-byte inode number, a 2-byte
 record length, a name length and a file type, then the name, laid end to end.
 */
module DirBlock {

  const BLOCK_SIZE: nat := 4096

  type Byte = b: nat | b < 256
  type Bytes = seq<Byte>

  /** A live entry: the name, and what it is bound to. */
  datatype Entry = Entry(name: Bytes, ino: nat, kind: Byte)

  // ---- Fields of the record at `o` ----

  predicate Header(d: Bytes, o: nat) {
    |d| == BLOCK_SIZE && o + 8 <= BLOCK_SIZE
  }

  function Value16(a: nat, b: nat): nat {
    a + 256 * b
  }

  function Value32(a: nat, b: nat, c: nat, d: nat): nat {
    a + 256 * b + 65536 * c + 16777216 * d
  }

  function Ino(d: Bytes, o: nat): nat
    requires Header(d, o)
  {
    Value32(d[o], d[o + 1], d[o + 2], d[o + 3])
  }

  function RecLen(d: Bytes, o: nat): nat
    requires Header(d, o)
  {
    Value16(d[o + 4], d[o + 5])
  }

  function NameLen(d: Bytes, o: nat): nat
    requires Header(d, o)
  {
    d[o + 6]
  }

  function Kind(d: Bytes, o: nat): Byte
    requires Header(d, o)
  {
    d[o + 7]
  }

  /** `EXT2_DIR_REC_LEN`: header and name, rounded up to four bytes. */
  function Need(n: nat): (r: nat)
    ensures n + 8 <= r <= n + 11 && r % 4 == 0
  {
    (n + 11) / 4 * 4
  }

  /** The record lies in the block and has room for its name. */
  predicate Fits(d: Bytes, o: nat) {
    Header(d, o) && RecLen(d, o) >= Need(NameLen(d, o)) && o + RecLen(d, o) <= BLOCK_SIZE
  }

  function Next(d: Bytes, o: nat): (r: nat)
    requires Fits(d, o)
    ensures o + 8 <= r <= BLOCK_SIZE
  {
    o + RecLen(d, o)
  }

  function Name(d: Bytes, o: nat): Bytes
    requires Fits(d, o)
  {
    d[o + 8..o + 8 + NameLen(d, o)]
  }

  /** `ext2_match` */
  predicate Match(d: Bytes, o: nat, name: Bytes)
    requires Fits(d, o)
  {
    Ino(d, o) != 0 && Name(d, o) == name
  }

  function At(d: Bytes, o: nat): seq<Entry>
    requires Fits(d, o)
  {
    if Ino(d, o) == 0 then [] else [Entry(Name(d, o), Ino(d, o), Kind(d, o))]
  }

  // ---- The records of a block ----

  /** From `o` on, records lie end to end up to the end of the block. */
  ghost predicate Tiled(d: Bytes, o: nat)
    decreases BLOCK_SIZE - o
  {
    o == BLOCK_SIZE || (o < BLOCK_SIZE && Fits(d, o) && Tiled(d, Next(d, o)))
  }

  /** The live entries from `o` on, in order. */
  ghost function Live(d: Bytes, o: nat): seq<Entry>
    requires Tiled(d, o)
    decreases BLOCK_SIZE - o
  {
    if o == BLOCK_SIZE then [] else At(d, o) + Live(d, Next(d, o))
  }

  /** Walking the records from `o` leads to `p`. */
  ghost predicate Leads(d: Bytes, o: nat, p: nat)
    decreases BLOCK_SIZE - o
  {
    o == p || (o < p <= BLOCK_SIZE && Fits(d, o) && Leads(d, Next(d, o), p))
  }

  ghost function Between(d: Bytes, o: nat, p: nat): seq<Entry>
    requires Leads(d, o, p)
    decreases BLOCK_SIZE - o
  {
    if o == p then [] else At(d, o) + Between(d, Next(d, o), p)
  }

  /** A walk that can go on to a tiled rest is itself a tiling. */
  lemma {:induction false} Join(d: Bytes, o: nat, p: nat)
    requires Leads(d, o, p) && Tiled(d, p)
    ensures Tiled(d, o) && Live(d, o) == Between(d, o, p) + Live(d, p)
    decreases BLOCK_SIZE - o
  {
    if o != p {
      Join(d, Next(d, o), p);
      var m, r := Between(d, Next(d, o), p), Live(d, p);
      assert At(d, o) + (m + r) == At(d, o) + m + r;
    }
  }

  lemma {:induction false} Rest(d: Bytes, o: nat, p: nat)
    requires Leads(d, o, p) && Tiled(d, o)
    ensures Tiled(d, p)
    decreases BLOCK_SIZE - o
  {
    if o != p {
      Rest(d, Next(d, o), p);
    }
  }

  lemma {:induction false} Extend(d: Bytes, o: nat, p: nat)
    requires Leads(d, o, p) && p < BLOCK_SIZE && Fits(d, p)
    ensures Leads(d, o, Next(d, p)) && Between(d, o, Next(d, p)) == Between(d, o, p) + At(d, p)
    decreases BLOCK_SIZE - o
  {
    if o == p {
      assert Between(d, Next(d, p), Next(d, p)) == [];
    } else {
      var q, r := Next(d, o), Next(d, p);
      Extend(d, q, p);
      assert o < r && Leads(d, q, r);
      assert Between(d, o, r) == At(d, o) + Between(d, q, r);
      assert At(d, o) + (Between(d, q, p) + At(d, p)) == At(d, o) + Between(d, q, p) + At(d, p);
    }
  }

  // ---- What a change of some bytes leaves alone ----

  ghost predicate SameBytes(d: Bytes, d': Bytes, lo: nat, hi: nat) {
    |d| == BLOCK_SIZE && |d'| == BLOCK_SIZE && forall i :: lo <= i < hi && i < BLOCK_SIZE ==> d[i] == d'[i]
  }

  lemma SameRecord(d: Bytes, d': Bytes, o: nat, hi: nat)
    requires Fits(d, o) && SameBytes(d, d', o, hi) && o + 8 + NameLen(d, o) <= hi
    ensures Fits(d', o) && Next(d', o) == Next(d, o) && At(d', o) == At(d, o)
  {
    assert d'[o + 4] == d[o + 4] && d'[o + 6] == d[o + 6];
    assert Name(d', o) == Name(d, o);
  }

  lemma {:induction false} SameWalk(d: Bytes, d': Bytes, o: nat, p: nat)
    requires Leads(d, o, p) && SameBytes(d, d', o, p)
    ensures Leads(d', o, p) && Between(d', o, p) == Between(d, o, p)
    decreases BLOCK_SIZE - o
  {
    if o != p {
      LeadsBelow(d, Next(d, o), p);
      SameRecord(d, d', o, p);
      SameWalk(d, d', Next(d, o), p);
    }
  }

  lemma LeadsBelow(d: Bytes, o: nat, p: nat)
    requires Leads(d, o, p)
    ensures o <= p
  {
  }

  lemma {:induction false} SameTail(d: Bytes, d': Bytes, o: nat)
    requires Tiled(d, o) && SameBytes(d, d', o, BLOCK_SIZE)
    ensures Tiled(d', o) && Live(d', o) == Live(d, o)
    decreases BLOCK_SIZE - o
  {
    if o != BLOCK_SIZE {
      SameRecord(d, d', o, BLOCK_SIZE);
      SameTail(d, d', Next(d, o));
    }
  }

  // ---- Writing records ----

  function Bytes16(v: nat): Bytes
    requires v < 65536
  {
    [v % 256, v / 256]
  }

  function Bytes32(v: nat): Bytes
    requires v < 0x1_0000_0000
  {
    [v % 256, v / 256 % 256, v / 65536 % 256, v / 16777216]
  }

  lemma Bytes32RoundTrip(v: nat)
    requires v < 0x1_0000_0000
    ensures Value(Bytes32(v)) == v
  {
    Digits(v);
  }

  lemma Digits(v: nat)
    ensures v == v % 256 + 256 * (v / 256 % 256) + 65536 * (v / 65536 % 256) + 16777216 * (v / 16777216)
  {
    var a := v / 256;
    var b := a / 256;
    assert v / 65536 == b;
    assert v / 16777216 == b / 256;
  }

  /** `d` with `b` written at `o`. */
  function Written(d: Bytes, o: nat, b: Bytes): (r: Bytes)
    requires o + |b| <= |d|
    ensures |r| == |d|
    ensures forall i :: 0 <= i < |d| ==> r[i] == if o <= i < o + |b| then b[i - o] else d[i]
  {
    d[..o] + b + d[o + |b|..]
  }

  predicate Storable(name: Bytes, ino: nat) {
    |name| <= 255 && 0 < ino < 0x1_0000_0000
  }

  /** `ext2_dirent_init` */
  function Init(d: Bytes, o: nat, recLen: nat, name: Bytes, ino: nat, kind: Byte): (r: Bytes)
    requires |d| == BLOCK_SIZE && Storable(name, ino) && recLen < 65536 && o + 8 + |name| <= BLOCK_SIZE
  {
    Written(d, o, Record(recLen, name, ino, kind))
  }

  function Record(recLen: nat, name: Bytes, ino: nat, kind: Byte): (b: Bytes)
    requires Storable(name, ino) && recLen < 65536
    ensures |b| == 8 + |name|
  {
    Bytes32(ino) + Bytes16(recLen) + [|name|, kind] + name
  }

  lemma RecordFields(recLen: nat, name: Bytes, ino: nat, kind: Byte)
    requires Storable(name, ino) && recLen < 65536
    ensures var b := Record(recLen, name, ino, kind);
            && Value32(b[0], b[1], b[2], b[3]) == ino && Value16(b[4], b[5]) == recLen
            && b[6] == |name| && b[7] == kind && b[8..] == name
  {
    var b := Record(recLen, name, ino, kind);
    var h := Bytes32(ino);
    Bytes32RoundTrip(ino);
    assert b[0] == h[0] && b[1] == h[1] && b[2] == h[2] && b[3] == h[3];
    assert b[4] == recLen % 256 && b[5] == recLen / 256;
  }

  lemma InitFacts(d: Bytes, o: nat, recLen: nat, name: Bytes, ino: nat, kind: Byte)
    requires |d| == BLOCK_SIZE && Storable(name, ino) && Need(|name|) <= recLen && o + recLen <= BLOCK_SIZE
    ensures var r := Init(d, o, recLen, name, ino, kind);
            && Fits(r, o) && Next(r, o) == o + recLen && At(r, o) == [Entry(name, ino, kind)]
            && SameBytes(d, r, 0, o) && SameBytes(d, r, o + 8 + |name|, BLOCK_SIZE)
  {
    var r, b := Init(d, o, recLen, name, ino, kind), Record(recLen, name, ino, kind);
    RecordFields(recLen, name, ino, kind);
    assert r[o] == b[0] && r[o + 1] == b[1] && r[o + 2] == b[2] && r[o + 3] == b[3];
    assert r[o + 4] == b[4] && r[o + 5] == b[5] && r[o + 6] == b[6] && r[o + 7] == b[7];
    assert Name(r, o) == b[8..];
  }

  function SetRecLen(d: Bytes, o: nat, recLen: nat): Bytes
    requires Header(d, o) && recLen < 65536
  {
    Written(d, o + 4, Bytes16(recLen))
  }

  lemma SetRecLenFacts(d: Bytes, o: nat, recLen: nat)
    requires Fits(d, o) && Need(NameLen(d, o)) <= recLen && o + recLen <= BLOCK_SIZE
    ensures var r := SetRecLen(d, o, recLen);
            && Fits(r, o) && Next(r, o) == o + recLen && At(r, o) == At(d, o) && NameLen(r, o) == NameLen(d, o)
            && SameBytes(d, r, 0, o) && SameBytes(d, r, o + 8, BLOCK_SIZE)
  {
    var r := SetRecLen(d, o, recLen);
    assert RecLen(r, o) == recLen;
    assert Name(r, o) == Name(d, o);
  }

  /** The number four bytes stand for. */
  function Value(b: Bytes): nat
    requires |b| == 4
  {
    Value32(b[0], b[1], b[2], b[3])
  }

  /** Inode number, as four bytes, and file type changed. */
  function SetTarget(d: Bytes, o: nat, ino: Bytes, kind: Byte): Bytes
    requires Header(d, o) && |ino| == 4
  {
    Written(Written(d, o, ino), o + 7, [kind])
  }

  lemma SetTargetFacts(d: Bytes, o: nat, ino: Bytes, kind: Byte)
    requires Fits(d, o) && |ino| == 4
    ensures var r := SetTarget(d, o, ino, kind);
            && Fits(r, o) && Next(r, o) == Next(d, o) && NameLen(r, o) == NameLen(d, o)
            && At(r, o) == (if Value(ino) == 0 then [] else [Entry(Name(d, o), Value(ino), kind)])
            && SameBytes(d, r, 0, o) && SameBytes(d, r, o + 8, BLOCK_SIZE)
  {
    var r := SetTarget(d, o, ino, kind);
    assert r[o] == ino[0] && r[o + 1] == ino[1] && r[o + 2] == ino[2] && r[o + 3] == ino[3];
    assert r[o + 4] == d[o + 4] && r[o + 5] == d[o + 5] && r[o + 6] == d[o + 6];
    assert Name(r, o) == Name(d, o);
  }

  // ---- Putting one record's change into the block ----

  lemma Decompose(d: Bytes, p: nat, q: nat)
    requires Leads(d, 0, p) && Leads(d, p, q) && Tiled(d, q)
    ensures Tiled(d, 0) && Live(d, 0) == Between(d, 0, p) + Between(d, p, q) + Live(d, q)
  {
    Join(d, p, q);
    Join(d, 0, p);
    Regroup(Between(d, 0, p), Between(d, p, q), Live(d, q));
  }

  lemma Regroup(a: seq<Entry>, b: seq<Entry>, c: seq<Entry>)
    ensures a + (b + c) == a + b + c
  {
  }

  /** The records from `p` to `q` are replaced; everything else stays. */
  lemma Rewrite(d: Bytes, d': Bytes, p: nat, q: nat)
    requires Tiled(d, 0) && Leads(d, 0, p) && Leads(d, p, q) && Leads(d', p, q)
    requires SameBytes(d, d', 0, p) && SameBytes(d, d', q, BLOCK_SIZE)
    ensures Tiled(d', 0) && Tiled(d, q)
    ensures Live(d', 0) == Between(d, 0, p) + Between(d', p, q) + Live(d, q)
    ensures Live(d, 0) == Between(d, 0, p) + Between(d, p, q) + Live(d, q)
  {
    Rest(d, 0, p);
    Rest(d, p, q);
    Decompose(d, p, q);
    SameTail(d, d', q);
    SameWalk(d, d', 0, p);
    Decompose(d', p, q);
  }

  lemma OneStep(d: Bytes, p: nat)
    requires p < BLOCK_SIZE && Fits(d, p)
    ensures Leads(d, p, Next(d, p)) && Between(d, p, Next(d, p)) == At(d, p)
  {
    assert Leads(d, Next(d, p), Next(d, p));
    assert Between(d, Next(d, p), Next(d, p)) == [];
  }

  lemma TwoSteps(d: Bytes, p: nat)
    requires p < BLOCK_SIZE && Fits(d, p) && Next(d, p) < BLOCK_SIZE && Fits(d, Next(d, p))
    ensures var q := Next(d, Next(d, p));
            Leads(d, p, q) && Between(d, p, q) == At(d, p) + At(d, Next(d, p))
  {
    OneStep(d, Next(d, p));
  }
}
