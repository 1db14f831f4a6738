/**
 * The mappers' write buffer for an HBase table: puts are collected in a list
 * and sent to the table as one batch as soon as the list holds MAX_SIZE of
 * them; closing the buffer sends whatever is still pending.
 *
 * The batch call into the HBase client (HTableUtil.bucketRsBatch) is not
 * modelled: each call appends the list it is given, as a value, to a ghost log
 * of batches.
 */
module Mappers {

  /** The number of pending puts at which the buffer sends them as one batch. */
  const MAX_SIZE: nat := 10000

  /** The puts of a log of batches, batch after batch. */
  function Flatten<P>(batches: seq<seq<P>>): seq<P>
  {
    if batches == [] then [] else Flatten(batches[..|batches| - 1]) + batches[|batches| - 1]
  }

  /** Flattening a log with one more batch appends that batch. */
  lemma FlattenSnoc<P>(batches: seq<seq<P>>, b: seq<P>)
    ensures Flatten(batches + [b]) == Flatten(batches) + b
  {
    assert (batches + [b])[..|batches|] == batches;
  }

  /** Flattening distributes over joining two logs. */
  lemma {:induction false} FlattenAppend<P>(a: seq<seq<P>>, b: seq<seq<P>>)
    ensures Flatten(a + b) == Flatten(a) + Flatten(b)
  {
    if b != [] {
      var n := |b| - 1;
      assert (a + b)[..|a + b| - 1] == a + b[..n];
      FlattenAppend(a, b[..n]);
    } else {
      assert a + b == a;
    }
  }

  /** A log of batches that all hold `m` puts holds `m` puts per batch in all. */
  lemma {:induction false} FlattenUniformLength<P>(batches: seq<seq<P>>, m: nat)
    requires forall k :: 0 <= k < |batches| ==> |batches[k]| == m
    ensures |Flatten(batches)| == m * |batches|
  {
    if batches != [] {
      var n := |batches| - 1;
      FlattenUniformLength(batches[..n], m);
      assert m * |batches| == m * n + m;
    }
  }

  class HTableWriteBuffer<Table, Put> {
    /** The batch size, MAX_SIZE for every buffer the constructor makes. */
    const maxSize: nat
    /** The table the batches are sent to. */
    const htable: Table
    /** The puts written since the last batch was sent, oldest first. */
    var puts: seq<Put>
    /** Every batch sent to `htable`, in the order in which they were sent. */
    ghost var batches: seq<seq<Put>>

    /**
     * The invariant the buffer keeps: fewer than maxSize puts are pending.
     * The bound the Java class's `invariant()` checks, at most maxSize, follows
     * from it; that bound is not enough on its own, since a write at maxSize
     * would overshoot the exact-size test and never send.
     */
    ghost predicate Valid()
      reads this
    {
      0 < maxSize && |puts| < maxSize
    }

    /** The Java class's `invariant()`: at most maxSize puts are pending. */
    predicate Invariant()
      reads this
      ensures Valid() ==> Invariant()
    {
      |puts| <= maxSize
    }

    /** A buffer for `htable` with nothing pending and nothing sent. */
    constructor (htable: Table)
      ensures Valid()
      ensures this.htable == htable && maxSize == MAX_SIZE
      ensures puts == [] && batches == []
    {
      this.htable := htable;
      maxSize := MAX_SIZE;
      puts := [];
      batches := [];
    }

    /**
     * Appends `put` to the pending list; if that makes maxSize puts pending,
     * sends them as one batch and empties the list.
     */
    method Write(put: Put)
      requires Valid()
      modifies this
      ensures Valid() && Invariant()
      ensures |old(puts)| + 1 < maxSize ==> batches == old(batches) && puts == old(puts) + [put]
      ensures |old(puts)| + 1 == maxSize ==> batches == old(batches) + [old(puts) + [put]] && puts == []
      ensures |old(puts)| + 1 == maxSize ==> |batches[|batches| - 1]| == maxSize
      ensures Flatten(batches) + puts == old(Flatten(batches) + puts) + [put]
    {
      puts := puts + [put];
      if |puts| == maxSize {
        FlattenSnoc(batches, puts);
        batches := batches + [puts];
        puts := [];
      }
    }

    /**
     * Sends the pending puts as one batch, which is empty if nothing is
     * pending, and keeps them pending. It accepts maxSize pending puts, the
     * state a write leaves behind when sending its full batch fails.
     */
    method WriteRemainingPuts()
      requires 0 < maxSize && Invariant()
      modifies this`batches
      ensures Invariant() && (old(Valid()) ==> Valid())
      ensures batches == old(batches) + [puts]
      ensures Flatten(batches) == old(Flatten(batches) + puts)
    {
      FlattenSnoc(batches, puts);
      batches := batches + [puts];
    }

    /** Writes the remaining puts. */
    method Close()
      requires 0 < maxSize && Invariant()
      modifies this`batches
      ensures Invariant() && (old(Valid()) ==> Valid())
      ensures batches == old(batches) + [puts]
      ensures Flatten(batches) == old(Flatten(batches) + puts)
    {
      WriteRemainingPuts();
    }
  }

  /**
   * Writes `ps` one after the other: every batch sent meanwhile holds exactly
   * maxSize puts, so that the number of batches sent times maxSize plus the
   * number left pending is the number of puts written, and no put is lost or
   * reordered.
   */
  method WriteAll<Table, Put>(buf: HTableWriteBuffer<Table, Put>, ps: seq<Put>)
    requires buf.Valid()
    modifies buf
    ensures buf.Valid()
    ensures Flatten(buf.batches) + buf.puts == old(Flatten(buf.batches) + buf.puts) + ps
    ensures |old(buf.batches)| <= |buf.batches| && buf.batches[..|old(buf.batches)|] == old(buf.batches)
    ensures forall k :: |old(buf.batches)| <= k < |buf.batches| ==> |buf.batches[k]| == buf.maxSize
    ensures (|buf.batches| - |old(buf.batches)|) * buf.maxSize + |buf.puts| == |old(buf.puts)| + |ps|
  {
    ghost var before := buf.batches;
    ghost var pending := buf.puts;
    var i := 0;
    while i < |ps|
      invariant 0 <= i <= |ps|
      invariant buf.Valid()
      invariant Flatten(buf.batches) + buf.puts == Flatten(before) + pending + ps[..i]
      invariant |before| <= |buf.batches| && buf.batches[..|before|] == before
      invariant forall k :: |before| <= k < |buf.batches| ==> |buf.batches[k]| == buf.maxSize
    {
      assert ps[..i + 1] == ps[..i] + [ps[i]];
      buf.Write(ps[i]);
      i := i + 1;
    }
    assert ps[..i] == ps;
    FullBatchesCount(before, buf.batches, pending, buf.puts, ps, buf.maxSize);
  }

  /**
   * If a log grew from `before` by batches of `m` puts each, while the pending
   * puts went from `pending` to `puts` and `ps` was written, then the new batches
   * hold `m` puts each of what was pending or written.
   */
  lemma FullBatchesCount<P>(before: seq<seq<P>>, batches: seq<seq<P>>, pending: seq<P>, puts: seq<P>, ps: seq<P>, m: nat)
    requires |before| <= |batches| && batches[..|before|] == before
    requires forall k :: |before| <= k < |batches| ==> |batches[k]| == m
    requires Flatten(batches) + puts == Flatten(before) + pending + ps
    ensures (|batches| - |before|) * m + |puts| == |pending| + |ps|
  {
    var added := batches[|before|..];
    assert batches == before + added;
    FlattenAppend(before, added);
    FlattenUniformLength(added, m);
    var q := |batches| - |before|;
    assert |added| == q;
    assert |Flatten(added)| == m * q;
    calc {
      |Flatten(before)| + m * q + |puts|;
      |Flatten(batches) + puts|;
      |Flatten(before) + pending + ps|;
      |Flatten(before)| + |pending| + |ps|;
    }
    assert q * m == m * q;
  }

  /** Writing to a fresh buffer and closing it sends every put, in order, in full batches and one last batch. */
  method WriteAllAndClose<Table, Put>(htable: Table, ps: seq<Put>) returns (buf: HTableWriteBuffer<Table, Put>)
    ensures fresh(buf) && buf.Valid()
    ensures Flatten(buf.batches) == ps
    ensures forall k :: 0 <= k < |buf.batches| - 1 ==> |buf.batches[k]| == MAX_SIZE
    ensures 0 < |buf.batches| && buf.batches[|buf.batches| - 1] == buf.puts && |buf.puts| < MAX_SIZE
    ensures (|buf.batches| - 1) * MAX_SIZE + |buf.puts| == |ps|
  {
    buf := new HTableWriteBuffer(htable);
    WriteAll(buf, ps);
    buf.Close();
  }
}
