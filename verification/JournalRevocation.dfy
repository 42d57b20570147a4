// Revocations. In the jbd2 format a revocation cancels every earlier write of
// the block; src/journal/block_map.rs applies it to the writes of its own
// transaction only. This module says exactly for which journals that makes no
// difference.

module JournalRevocation {
  import opened Basics
  import opened JournalSpec

  /** The overlay in which a revocation also cancels earlier transactions. */
  function StrictOverlay(txns: seq<Txn>): JournalMap
    decreases |txns|
  {
    if txns == [] then map[]
    else
      var last := txns[|txns| - 1];
      (StrictOverlay(txns[..|txns| - 1]) - ToSet(last.revoked)) + Effect(last)
  }

  lemma StrictSnoc(txns: seq<Txn>, t: Txn)
    ensures StrictOverlay(txns + [t]) == (StrictOverlay(txns) - ToSet(t.revoked)) + Effect(t)
  {
    assert (txns + [t])[..|txns|] == txns;
  }

  lemma {:induction false} OverlaySnoc(m: JournalMap, txns: seq<Txn>, t: Txn)
    ensures Overlay(m, txns + [t]) == Overlay(m, txns) + Effect(t)
    decreases |txns|
  {
    if txns == [] {
      assert (txns + [t])[1..] == [];
    } else {
      assert (txns + [t])[1..] == txns[1..] + [t];
      OverlaySnoc(m + Effect(txns[0]), txns[1..], t);
    }
  }

  lemma OverlayLast(txns: seq<Txn>)
    requires txns != []
    ensures Overlay(map[], txns) == Overlay(map[], txns[..|txns| - 1]) + Effect(txns[|txns| - 1])
  {
    var n := |txns| - 1;
    assert txns == txns[..n] + [txns[n]];
    OverlaySnoc(map[], txns[..n], txns[n]);
  }

  /** Transaction `j` revokes `b`, which an earlier transaction had mapped, and
      from then on nothing maps `b` again. */
  ghost predicate StaleFrom(txns: seq<Txn>, b: nat, j: nat) {
    && j < |txns| && b in txns[j].revoked
    && b in Overlay(map[], txns[..j])
    && forall k :: j <= k < |txns| ==> b !in Effect(txns[k])
  }

  ghost predicate Stale(txns: seq<Txn>, b: nat) {
    exists j: nat :: StaleFrom(txns, b, j)
  }

  lemma StaleSnoc(txns: seq<Txn>, t: Txn, b: nat)
    ensures Stale(txns + [t], b) <==>
            && b !in Effect(t)
            && (Stale(txns, b) || (b in t.revoked && b in Overlay(map[], txns)))
  {
    var all, n := txns + [t], |txns|;
    assert all[n] == t && all[..n] == txns;
    forall j: nat | j < n
      ensures all[..j] == txns[..j] && all[j] == txns[j]
    {
    }
    if j: nat :| StaleFrom(all, b, j) {
      if j < n {
        forall k | j <= k < n
          ensures b !in Effect(txns[k])
        {
          assert all[k] == txns[k];
        }
        assert StaleFrom(txns, b, j);
      }
    }
    if b !in Effect(t) {
      if b in t.revoked && b in Overlay(map[], txns) {
        assert StaleFrom(all, b, n);
      }
      if j: nat :| StaleFrom(txns, b, j) {
        assert StaleFrom(all, b, j);
      }
    }
  }

  /** At every block, the two overlays agree unless the block is stale; a stale
      block is mapped by the first and not by the second. */
  lemma {:induction false} OverlaysAt(txns: seq<Txn>, b: nat)
    ensures var loose, strict := Overlay(map[], txns), StrictOverlay(txns);
            && (b in strict ==> b in loose && loose[b] == strict[b])
            && (b in loose && b !in strict <==> Stale(txns, b))
    decreases |txns|
  {
    if txns != [] {
      var n := |txns| - 1;
      OverlaysAt(txns[..n], b);
      OverlayLast(txns);
      StaleSnoc(txns[..n], txns[n], b);
      assert txns == txns[..n] + [txns[n]];
    }
  }

  lemma OverlaysAgreeExactly(txns: seq<Txn>)
    ensures Overlay(map[], txns) == StrictOverlay(txns) <==> forall b :: !Stale(txns, b)
  {
    forall b: nat
      ensures var loose, strict := Overlay(map[], txns), StrictOverlay(txns);
              && (b in strict ==> b in loose && loose[b] == strict[b])
              && (b in loose && b !in strict <==> Stale(txns, b))
    {
      OverlaysAt(txns, b);
    }
  }

  /** Replay in which a revocation also cancels earlier transactions. */
  function StrictReplay(env: Env, log: Stream<nat>, sequence: nat): Result<JournalMap> {
    var l := JournalLog(env, log, sequence);
    if l.stop.Fatal? then Err(l.stop.error) else Ok(StrictOverlay(l.txns))
  }

  /** For every journal that can be replayed, the loader's result honours all
      revocations exactly when no block of the journal is stale. */
  lemma RevocationsMatterExactly(env: Env, log: Stream<nat>, sequence: nat)
    requires Replay(env, log, sequence).Ok?
    ensures Replay(env, log, sequence) == StrictReplay(env, log, sequence) <==>
            forall b :: !Stale(JournalLog(env, log, sequence).txns, b)
  {
    OverlaysAgreeExactly(JournalLog(env, log, sequence).txns);
  }

  lemma RevokedLater(b: nat, copy: nat)
    ensures var txns := [Txn([Write(b, copy)], []), Txn([], [b])];
            && Overlay(map[], txns) == map[b := copy]
            && StrictOverlay(txns) == map[]
  {
    var first, second := Txn([Write(b, copy)], []), Txn([], [b]);
    assert Effect(first) == map[b := copy] by {
      assert ApplyWrites(map[], first.writes) == ApplyWrites(map[b := copy], first.writes[1..]);
      assert first.writes[1..] == [] && ToSet(first.revoked) == {};
    }
    assert Effect(second) == map[];
    OverlayLast([first, second]);
    OverlayLast([first]);
    assert [first, second][..1] == [first] && [first][..0] == [];
    StrictSnoc([], first);
    StrictSnoc([first], second);
    assert [first] + [second] == [first, second] && [] + [first] == [first];
    assert ToSet([b]) == {b} by { assert forall x :: x in [b] <==> x == b; }
    assert (map[b := copy] - {b}) + map[] == map[];
  }
}
