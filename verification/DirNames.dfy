/** Lists of directory entries and the map from names to inodes they stand for. */
module DirNames {
  import opened DirBlock

  type Entries = seq<Entry>

  /** What a name is bound to. */
  datatype Target = Target(ino: nat, kind: Byte)

  ghost predicate HasName(es: Entries, name: Bytes) {
    exists i :: 0 <= i < |es| && es[i].name == name
  }

  ghost predicate Unique(es: Entries) {
    forall i, j :: 0 <= i < j < |es| ==> es[i].name != es[j].name
  }

  /** The names bound by the list; a later entry would override an earlier one. */
  ghost function NameMap(es: Entries): map<Bytes, Target> {
    if es == [] then map[]
    else
      var e := es[|es| - 1];
      NameMap(es[..|es| - 1])[e.name := Target(e.ino, e.kind)]
  }

  lemma {:induction false} NameMapFacts(es: Entries)
    requires Unique(es)
    ensures forall n :: n in NameMap(es) <==> HasName(es, n)
    ensures forall i :: 0 <= i < |es| ==> es[i].name in NameMap(es) && NameMap(es)[es[i].name] == Target(es[i].ino, es[i].kind)
  {
    if es != [] {
      var front := es[..|es| - 1];
      NameMapFacts(front);
      assert forall n :: HasName(es, n) <==> HasName(front, n) || n == es[|es| - 1].name;
    }
  }

  /** What a list with distinct names binds, and nothing else, determines its map. */
  lemma MapIs(es: Entries, m: map<Bytes, Target>)
    requires Unique(es)
    requires forall n :: n in m <==> HasName(es, n)
    requires forall i :: 0 <= i < |es| ==> es[i].name in m && m[es[i].name] == Target(es[i].ino, es[i].kind)
    ensures NameMap(es) == m
  {
    NameMapFacts(es);
    forall n | n in m ensures n in NameMap(es) && NameMap(es)[n] == m[n] {
      var i :| 0 <= i < |es| && es[i].name == n;
    }
  }

  lemma HasNameSplit(a: Entries, b: Entries, n: Bytes)
    ensures HasName(a + b, n) <==> HasName(a, n) || HasName(b, n)
  {
    if HasName(a, n) {
      var i :| 0 <= i < |a| && a[i].name == n;
      assert (a + b)[i].name == n;
    }
    if HasName(b, n) {
      var i :| 0 <= i < |b| && b[i].name == n;
      assert (a + b)[|a| + i].name == n;
    }
  }

  // ---- One entry more, one less, one changed ----

  /** `es'` is `es` with `e` put in at `k`. */
  ghost predicate PutIn(es: Entries, es': Entries, e: Entry, k: nat) {
    && k <= |es| && |es'| == |es| + 1 && es'[k] == e
    && (forall i :: 0 <= i < k ==> es'[i] == es[i])
    && (forall i :: k < i < |es'| ==> es'[i] == es[i - 1])
  }

  ghost predicate Added(es: Entries, es': Entries, e: Entry) {
    exists k: nat :: PutIn(es, es', e, k)
  }

  ghost predicate Dropped(es: Entries, es': Entries, name: Bytes) {
    exists e, k: nat :: PutIn(es', es, e, k) && e.name == name
  }

  ghost predicate Changed(es: Entries, es': Entries, e: Entry) {
    exists k :: 0 <= k < |es| && es[k].name == e.name && es' == es[k := e]
  }

  lemma PutInNames(es: Entries, es': Entries, e: Entry, k: nat, n: Bytes)
    requires PutIn(es, es', e, k)
    ensures HasName(es', n) <==> HasName(es, n) || n == e.name
  {
    if HasName(es, n) {
      var i :| 0 <= i < |es| && es[i].name == n;
      var j := if i < k then i else i + 1;
      assert es'[j].name == n;
    }
  }

  lemma PutInUnique(es: Entries, es': Entries, e: Entry, k: nat)
    requires PutIn(es, es', e, k)
    ensures Unique(es') <==> Unique(es) && !HasName(es, e.name)
  {
    if Unique(es') {
      forall i, j | 0 <= i < j < |es| ensures es[i].name != es[j].name {
        var i', j' := if i < k then i else i + 1, if j < k then j else j + 1;
        assert es'[i'] == es[i] && es'[j'] == es[j];
      }
      forall i | 0 <= i < |es| ensures es[i].name != e.name {
        var i' := if i < k then i else i + 1;
        assert es'[i'] == es[i];
      }
    }
  }

  lemma PutInMap(es: Entries, es': Entries, e: Entry, k: nat)
    requires PutIn(es, es', e, k) && Unique(es')
    ensures !HasName(es, e.name) && Unique(es)
    ensures NameMap(es') == NameMap(es)[e.name := Target(e.ino, e.kind)]
  {
    PutInUnique(es, es', e, k);
    NameMapFacts(es);
    var m := NameMap(es)[e.name := Target(e.ino, e.kind)];
    forall n ensures n in m <==> HasName(es', n) {
      PutInNames(es, es', e, k, n);
    }
    forall i | 0 <= i < |es'| ensures es'[i].name in m && m[es'[i].name] == Target(es'[i].ino, es'[i].kind) {
      if i != k {
        var j := if i < k then i else i - 1;
        assert es'[i] == es[j] && HasName(es, es[j].name);
      }
    }
    MapIs(es', m);
  }

  lemma AddedMap(es: Entries, es': Entries, e: Entry)
    requires Unique(es) && !HasName(es, e.name) && Added(es, es', e)
    ensures Unique(es') && NameMap(es') == NameMap(es)[e.name := Target(e.ino, e.kind)]
  {
    var k: nat :| PutIn(es, es', e, k);
    PutInUnique(es, es', e, k);
    PutInMap(es, es', e, k);
  }

  lemma DroppedMap(es: Entries, es': Entries, name: Bytes)
    requires Unique(es) && Dropped(es, es', name)
    ensures Unique(es') && name in NameMap(es) && NameMap(es') == NameMap(es) - {name}
  {
    var e, k: nat :| PutIn(es', es, e, k) && e.name == name;
    PutInMap(es', es, e, k);
    assert name !in NameMap(es') by {
      NameMapFacts(es');
    }
    PutAndTakeOut(NameMap(es'), name, Target(e.ino, e.kind));
  }

  lemma PutAndTakeOut(m: map<Bytes, Target>, n: Bytes, t: Target)
    requires n !in m
    ensures m[n := t] - {n} == m
  {
  }

  lemma SameNames(es: Entries, es': Entries, n: Bytes)
    requires |es| == |es'| && forall i :: 0 <= i < |es| ==> es'[i].name == es[i].name
    ensures HasName(es', n) <==> HasName(es, n)
  {
    if HasName(es, n) {
      var i :| 0 <= i < |es| && es[i].name == n;
      assert es'[i].name == n;
    }
  }

  lemma ChangedMap(es: Entries, es': Entries, e: Entry)
    requires Unique(es) && Changed(es, es', e)
    ensures Unique(es') && e.name in NameMap(es) && NameMap(es') == NameMap(es)[e.name := Target(e.ino, e.kind)]
  {
    var k :| 0 <= k < |es| && es[k].name == e.name && es' == es[k := e];
    assert forall i :: 0 <= i < |es| ==> es'[i].name == es[i].name;
    NameMapFacts(es);
    var m := NameMap(es)[e.name := Target(e.ino, e.kind)];
    forall n ensures n in m <==> HasName(es', n) {
      SameNames(es, es', n);
    }
    forall i | 0 <= i < |es'| ensures es'[i].name in m && m[es'[i].name] == Target(es'[i].ino, es'[i].kind) {
      assert i != k ==> es'[i] == es[i] && es[i].name != es[k].name;
    }
    MapIs(es', m);
  }

  // ---- The same inside a longer list ----

  lemma PutInParts(a: Entries, e: Entry, c: Entries)
    ensures PutIn(a + c, a + [e] + c, e, |a|)
  {
  }

  lemma PutInWithin(pre: Entries, es: Entries, es': Entries, post: Entries, e: Entry, k: nat)
    requires PutIn(es, es', e, k)
    ensures PutIn(pre + es + post, pre + es' + post, e, |pre| + k)
  {
  }

  lemma AddedWithin(pre: Entries, es: Entries, es': Entries, post: Entries, e: Entry)
    requires Added(es, es', e)
    ensures Added(pre + es + post, pre + es' + post, e)
  {
    var k: nat :| PutIn(es, es', e, k);
    PutInWithin(pre, es, es', post, e, k);
  }

  lemma DroppedWithin(pre: Entries, es: Entries, es': Entries, post: Entries, name: Bytes)
    requires Dropped(es, es', name)
    ensures Dropped(pre + es + post, pre + es' + post, name)
  {
    var e, k: nat :| PutIn(es', es, e, k) && e.name == name;
    PutInWithin(pre, es', es, post, e, k);
  }

  lemma ChangedWithin(pre: Entries, es: Entries, es': Entries, post: Entries, e: Entry)
    requires Changed(es, es', e)
    ensures Changed(pre + es + post, pre + es' + post, e)
  {
    var k :| 0 <= k < |es| && es[k].name == e.name && es' == es[k := e];
    var a := pre + es + post;
    assert a[|pre| + k].name == e.name;
    assert pre + es' + post == a[|pre| + k := e];
  }
}
