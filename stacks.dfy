/** What the per-transaction record stacks keep: each stack holds only its
    own transaction's start and edit records and checkpoint markers, in the
    order they were appended to the log. */
module Stacks {
  import opened Records

  /** `a` is `b` with some elements left out (order kept). */
  predicate Subseq<X(==)>(a: seq<X>, b: seq<X>)
    decreases |b|
  {
    if a == [] then true
    else if b == [] then false
    else if a[|a| - 1] == b[|b| - 1] then Subseq(a[..|a| - 1], b[..|b| - 1])
    else Subseq(a, b[..|b| - 1])
  }

  /** The stack of transaction `id`: empty when the map has no entry for it. */
  function StackOf(m: map<TxId, seq<Record>>, id: TxId): seq<Record>
  {
    if id in m then m[id] else []
  }

  /** A record that may sit on transaction `id`'s stack. */
  predicate OwnRecord(id: TxId, r: Record)
  {
    r == StartLog(id) || (r.EditLog? && r.id == id) || r.CheckpointLog?
  }

  predicate OwnStack(id: TxId, stack: seq<Record>)
  {
    forall j :: 0 <= j < |stack| ==> OwnRecord(id, stack[j])
  }

  /** Appending the same element to both keeps a subsequence. */
  lemma SubseqAppendBoth<X>(a: seq<X>, b: seq<X>, x: X)
    requires Subseq(a, b)
    ensures Subseq(a + [x], b + [x])
  {
    assert (a + [x])[..|a|] == a;
    assert (b + [x])[..|b|] == b;
  }

  /** Appending to the longer sequence keeps a subsequence. */
  lemma {:induction false} SubseqAppendRight<X>(a: seq<X>, b: seq<X>, x: X)
    requires Subseq(a, b)
    ensures Subseq(a, b + [x])
    decreases |b|, 1
  {
    assert (b + [x])[..|b|] == b;
    if a != [] && a[|a| - 1] == x {
      SubseqDropLast(a, b);
    }
  }

  /** Dropping the last element of the shorter sequence keeps a subsequence. */
  lemma {:induction false} SubseqDropLast<X>(a: seq<X>, b: seq<X>)
    requires a != [] && Subseq(a, b)
    ensures Subseq(a[..|a| - 1], b)
    decreases |b|, 0
  {
    var b' := b[..|b| - 1];
    assert b == b' + [b[|b| - 1]];
    if a[|a| - 1] == b[|b| - 1] {
      SubseqAppendRight(a[..|a| - 1], b', b[|b| - 1]);
    } else {
      SubseqDropLast(a, b');
      SubseqAppendRight(a[..|a| - 1], b', b[|b| - 1]);
    }
  }

  /** A one-element stack whose element was just logged. */
  lemma SubseqSingleton<X>(b: seq<X>, x: X)
    ensures Subseq([x], b + [x])
  {
    assert [x] == [] + [x];
    SubseqAppendBoth([], b, x);
  }
}
