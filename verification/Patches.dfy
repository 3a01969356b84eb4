/** Sequences of byte patches and the memory they leave behind. */
module Patches {
  import opened Machine
  import opened GuestMemory

  datatype Write = Write(address: u64, bytes: seq<byte>)

  predicate Covered(w: Write, a: int) {
    w.address <= a < w.address + |w.bytes|
  }

  predicate Disjoint(a: Write, b: Write) {
    |a.bytes| == 0 || |b.bytes| == 0 || a.address + |a.bytes| <= b.address || b.address + |b.bytes| <= a.address
  }

  ghost predicate PairwiseDisjoint(ws: seq<Write>) {
    forall i, j :: 0 <= i < j < |ws| ==> Disjoint(ws[i], ws[j])
  }

  /** Apply the patches in order. */
  function ApplyAll(m: Bytes, ws: seq<Write>): (r: Bytes) {
    if ws == [] then m else
      var last := ws[|ws| - 1];
      WriteBytes(ApplyAll(m, ws[..|ws| - 1]), last.address, last.bytes)
  }

  ghost predicate Untouched(ws: seq<Write>, a: int) {
    forall i :: 0 <= i < |ws| ==> !Covered(ws[i], a)
  }

  /** Bytes outside every patch keep their value. */
  lemma {:induction false} OutsideUnchanged(m: Bytes, ws: seq<Write>, a: int)
    requires Untouched(ws, a)
    ensures ByteOf(ApplyAll(m, ws), a) == ByteOf(m, a)
  {
    if ws != [] {
      OutsideUnchanged(m, ws[..|ws| - 1], a);
      assert !Covered(ws[|ws| - 1], a);
    }
  }

  /** With disjoint patches every patched byte has the value its patch gives it. */
  lemma {:induction false} PatchedByte(m: Bytes, ws: seq<Write>, i: nat, a: int)
    requires PairwiseDisjoint(ws) && i < |ws| && Covered(ws[i], a)
    ensures ByteOf(ApplyAll(m, ws), a) == ws[i].bytes[a - ws[i].address]
  {
    if i < |ws| - 1 {
      PatchedByte(m, ws[..|ws| - 1], i, a);
      assert Disjoint(ws[i], ws[|ws| - 1]);
    }
  }

  /** Reading back a patch gives its bytes. */
  lemma PatchReadsBack(m: Bytes, ws: seq<Write>, i: nat)
    requires PairwiseDisjoint(ws) && i < |ws|
    ensures ReadBytes(ApplyAll(m, ws), ws[i].address, |ws[i].bytes|) == ws[i].bytes
  {
    var w := ws[i];
    var s := ReadBytes(ApplyAll(m, ws), w.address, |w.bytes|);
    forall k | 0 <= k < |w.bytes|
      ensures s[k] == w.bytes[k]
    {
      PatchedByte(m, ws, i, w.address + k);
    }
  }

  /** Pairwise disjointness as a property of the patches alone, without their order. */
  ghost predicate Spread(patches: multiset<Write>) {
    forall w, v :: w in patches && v in patches - multiset{w} ==> Disjoint(w, v)
  }

  lemma WithoutIndex(ws: seq<Write>, i: nat)
    requires i < |ws|
    ensures multiset(ws) - multiset{ws[i]} == multiset(ws[..i] + ws[i + 1..])
  {
    assert ws == ws[..i] + [ws[i]] + ws[i + 1..];
  }

  lemma DisjointIsSpread(ws: seq<Write>, w: Write, v: Write)
    requires PairwiseDisjoint(ws) && w in multiset(ws) && v in multiset(ws) - multiset{w}
    ensures Disjoint(w, v)
  {
    hide Disjoint;
    var i :| 0 <= i < |ws| && ws[i] == w;
    WithoutIndex(ws, i);
    var rest := ws[..i] + ws[i + 1..];
    assert v in multiset(rest);
    var j :| 0 <= j < |rest| && rest[j] == v;
    if j < i {
      assert Disjoint(ws[j], ws[i]);
      DisjointSymmetric(v, w);
    } else {
      assert Disjoint(ws[i], ws[j + 1]);
    }
  }

  lemma DisjointSymmetric(a: Write, b: Write)
    requires Disjoint(a, b)
    ensures Disjoint(b, a)
  {
  }

  lemma SpreadIsDisjoint(ws: seq<Write>, i: nat, j: nat)
    requires Spread(multiset(ws)) && i < j < |ws|
    ensures Disjoint(ws[i], ws[j])
  {
    hide Disjoint;
    WithoutIndex(ws, i);
    assert (ws[..i] + ws[i + 1..])[j - 1] == ws[j];
    assert ws[j] in multiset(ws) - multiset{ws[i]};
  }

  /** Reordering patches does not change whether they are disjoint. */
  lemma PermutationDisjoint(ws: seq<Write>, vs: seq<Write>)
    requires PairwiseDisjoint(ws) && multiset(ws) == multiset(vs)
    ensures PairwiseDisjoint(vs)
  {
    hide Disjoint;
    forall w, v | w in multiset(ws) && v in multiset(ws) - multiset{w}
      ensures Disjoint(w, v)
    {
      DisjointIsSpread(ws, w, v);
    }
    forall i, j | 0 <= i < j < |vs|
      ensures Disjoint(vs[i], vs[j])
    {
      SpreadIsDisjoint(vs, i, j);
    }
  }

  /** Disjoint patches commute: any two orders of the same patches leave the same memory. */
  lemma OrderDoesNotMatter(m: Bytes, ws: seq<Write>, vs: seq<Write>, a: int)
    requires PairwiseDisjoint(ws) && multiset(ws) == multiset(vs)
    ensures ByteOf(ApplyAll(m, ws), a) == ByteOf(ApplyAll(m, vs), a)
  {
    PermutationDisjoint(ws, vs);
    if i :| 0 <= i < |ws| && Covered(ws[i], a) {
      assert ws[i] in multiset(vs);
      var j :| 0 <= j < |vs| && vs[j] == ws[i];
      PatchedByte(m, ws, i, a);
      PatchedByte(m, vs, j, a);
    } else {
      forall j | 0 <= j < |vs|
        ensures !Covered(vs[j], a)
      {
        assert vs[j] in multiset(ws);
        var i :| 0 <= i < |ws| && ws[i] == vs[j];
      }
      OutsideUnchanged(m, ws, a);
      OutsideUnchanged(m, vs, a);
    }
  }

  /** Every patch passes the write check of a fixed view. */
  ghost predicate AllWritable(v: View, ws: seq<Write>) {
    forall i :: 0 <= i < |ws| ==> Writable(v, ws[i])
  }

  ghost predicate Writable(v: View, w: Write) {
    |w.bytes| < TWO64 && AccessVerdict(v, w.address, |w.bytes|, true).Ok?
  }

  /** An accepted non-empty write stays inside the address space and touches only writable bytes. */
  lemma WritableBytes(v: View, w: Write, a: int)
    requires Writable(v, w) && Covered(w, a)
    ensures w.address + |w.bytes| <= TWO64 && PlanAllows(v.plan, a, true) && IntentAllows(v.image, a, true)
  {
    hide PlanAllows, IntentAllows, Denial;
    AcceptedIffEveryByteAllowed(v, w.address, |w.bytes|, true);
    assert ByteAllowed(v, a, true);
  }
}
