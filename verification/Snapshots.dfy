/** The snapshot table: what a well-formed one looks like, that reconstructing a version
    gives the text that version had, and that adding a snapshot keeps it well formed. */
module Snapshots {
  import opened Chunks
  import opened EditScripts
  import opened Files

  ghost predicate GoodConfig(cfg: Config) {
    && cfg.checkpoint > 0
    && cfg.maxChain > 0
    && forall a, b :: Partitions(cfg.differ(a, b), a, b)
  }

  /** Newest first; every row tells the text of its version, a delta relative to the row
      below it; versions at checkpoints are full; runs of deltas are short; the oldest row
      is full. */
  ghost predicate SnapsOk(cfg: Config, snaps: seq<Snapshot>, h: History)
    requires cfg.checkpoint != 0
  {
    HistoryOk(h) &&
    (snaps == [] ||
     (var a, rest := snaps[0], snaps[1..];
      && 0 <= a.version <= |h.log|
      && (a.version % cfg.checkpoint == 0 ==> a.Full?)
      && LeadingDeltas(snaps) <= cfg.maxChain
      && (rest != [] ==> rest[0].version < a.version && rest[0].createdAt <= a.createdAt)
      && (match a
          case Full(v, _, text) => text == h.texts[v]
          case Delta(v, _, chunks) =>
            && ValidAll(chunks)
            && rest != []
            && 0 <= rest[0].version
            && h.texts[v] == ApplyAll(h.texts[rest[0].version], chunks))
      && SnapsOk(cfg, rest, h)))
  }

  lemma {:induction false} SnapsOkDeltas(cfg: Config, snaps: seq<Snapshot>, h: History)
    requires cfg.checkpoint != 0 && SnapsOk(cfg, snaps, h)
    ensures DeltasValid(snaps)
  {
    if snaps != [] {
      SnapsOkDeltas(cfg, snaps[1..], h);
    }
  }

  /** Rows are in strictly descending version order, each within the history. */
  lemma {:induction false} VersionsDescend(cfg: Config, snaps: seq<Snapshot>, h: History)
    requires cfg.checkpoint != 0 && SnapsOk(cfg, snaps, h)
    ensures forall i | 0 <= i < |snaps| :: 0 <= snaps[i].version <= |h.log|
    ensures forall i, j | 0 <= i < j < |snaps| :: snaps[i].version > snaps[j].version
  {
    if snaps != [] {
      VersionsDescend(cfg, snaps[1..], h);
      forall i, j | 0 <= i < j < |snaps| ensures snaps[i].version > snaps[j].version {
        assert snaps[j] == snaps[1..][j - 1];
        if i > 0 { assert snaps[i] == snaps[1..][i - 1]; } else { assert snaps[1] == snaps[1..][0]; }
      }
      forall i | 0 <= i < |snaps| ensures 0 <= snaps[i].version <= |h.log| {
        if i > 0 { assert snaps[i] == snaps[1..][i - 1]; }
      }
    }
  }

  /** The row a request for version `w` resolves to: the newest one not after `w`. */
  ghost predicate Selects(snaps: seq<Snapshot>, w: int, i: nat) {
    i < |snaps| && snaps[i].version <= w && forall j | 0 <= j < i :: snaps[j].version > w
  }

  /** How many deltas reconstructing version `w` applies. */
  function DeltasApplied(snaps: seq<Snapshot>, w: int): nat {
    if snaps == [] then 0
    else if snaps[0].version > w then DeltasApplied(snaps[1..], w)
    else if snaps[0].Full? then 0
    else 1 + DeltasApplied(snaps[1..], w)
  }

  /** Reconstruction gives the text of the selected row's version, and never applies more
      than the allowed number of deltas; without a selected row there is nothing to give. */
  lemma {:induction false} ReconstructSelected(cfg: Config, snaps: seq<Snapshot>, h: History, w: int)
    requires cfg.checkpoint != 0 && SnapsOk(cfg, snaps, h)
    ensures DeltasValid(snaps)
    ensures forall i: nat | Selects(snaps, w, i) ::
              && 0 <= snaps[i].version <= |h.log|
              && Reconstruct(snaps, w) == Some(h.texts[snaps[i].version])
              && DeltasApplied(snaps, w) == LeadingDeltas(snaps[i..]) <= cfg.maxChain
    ensures (forall i | 0 <= i < |snaps| :: snaps[i].version > w) ==> Reconstruct(snaps, w) == None
  {
    SnapsOkDeltas(cfg, snaps, h);
    if snaps != [] {
      var rest := snaps[1..];
      ReconstructSelected(cfg, rest, h, w);
      forall i: nat | Selects(snaps, w, i)
        ensures 0 <= snaps[i].version <= |h.log|
        ensures Reconstruct(snaps, w) == Some(h.texts[snaps[i].version])
        ensures DeltasApplied(snaps, w) == LeadingDeltas(snaps[i..]) <= cfg.maxChain
      {
        if i > 0 {
          assert Selects(rest, w, i - 1);
          assert snaps[i..] == rest[i - 1..];
        } else {
          assert snaps[0..] == snaps;
          if snaps[0].Delta? {
            assert Selects(rest, w, 0);
          }
        }
      }
    }
  }

  /** Every stored version reconstructs to exactly the text it had. */
  lemma {:induction false} StoredVersionsExact(cfg: Config, snaps: seq<Snapshot>, h: History)
    requires cfg.checkpoint != 0 && SnapsOk(cfg, snaps, h)
    ensures DeltasValid(snaps)
    ensures forall i | 0 <= i < |snaps| ::
              && 0 <= snaps[i].version <= |h.log|
              && Reconstruct(snaps, snaps[i].version) == Some(h.texts[snaps[i].version])
  {
    VersionsDescend(cfg, snaps, h);
    SnapsOkDeltas(cfg, snaps, h);
    forall i | 0 <= i < |snaps|
      ensures Reconstruct(snaps, snaps[i].version) == Some(h.texts[snaps[i].version])
    {
      ReconstructSelected(cfg, snaps, h, snaps[i].version);
      assert Selects(snaps, snaps[i].version, i);
    }
  }

  /** A longer history does not disturb the table. */
  lemma {:induction false} SnapsOkGrows(cfg: Config, snaps: seq<Snapshot>, h: History, h': History)
    requires cfg.checkpoint != 0 && SnapsOk(cfg, snaps, h) && HistoryOk(h')
    requires h.texts <= h'.texts
    ensures SnapsOk(cfg, snaps, h')
  {
    if snaps != [] {
      SnapsOkGrows(cfg, snaps[1..], h, h');
      assert forall v | 0 <= v < |h.texts| :: h.texts[v] == h'.texts[v];
    }
  }

  lemma {:induction false} SnapsOkPositions(cfg: Config, snaps: seq<Snapshot>, h: History, i: nat)
    requires cfg.checkpoint != 0 && SnapsOk(cfg, snaps, h) && i < |snaps|
    ensures SnapsOk(cfg, snaps[i..], h)
    ensures snaps[i].version % cfg.checkpoint == 0 ==> snaps[i].Full?
    ensures LeadingDeltas(snaps[i..]) <= cfg.maxChain
    ensures i == |snaps| - 1 ==> snaps[i].Full?
  {
    if i == 0 {
      assert snaps[0..] == snaps;
    } else {
      SnapsOkPositions(cfg, snaps[1..], h, i - 1);
      assert snaps[1..][i - 1..] == snaps[i..];
    }
  }

  predicate AllDeltas(snaps: seq<Snapshot>, i: nat, j: nat)
    requires j <= |snaps|
  {
    forall k | i <= k < j :: snaps[k].Delta?
  }

  /** In a well-formed table runs of deltas are bounded, checkpoints and the oldest row are full. */
  lemma {:induction false} ChainsShort(cfg: Config, snaps: seq<Snapshot>, h: History)
    requires cfg.checkpoint != 0 && SnapsOk(cfg, snaps, h)
    ensures forall i: nat, j: nat | i < j <= |snaps| && AllDeltas(snaps, i, j) :: j - i <= cfg.maxChain
    ensures forall i | 0 <= i < |snaps| && snaps[i].version % cfg.checkpoint == 0 :: snaps[i].Full?
    ensures snaps != [] ==> snaps[|snaps| - 1].Full?
  {
    forall i: nat, j: nat | i < j <= |snaps| && AllDeltas(snaps, i, j) ensures j - i <= cfg.maxChain {
      SnapsOkPositions(cfg, snaps, h, i);
      DeltaRun(snaps[i..], j - i);
    }
    forall i | 0 <= i < |snaps| && snaps[i].version % cfg.checkpoint == 0 ensures snaps[i].Full? {
      SnapsOkPositions(cfg, snaps, h, i);
    }
    if snaps != [] {
      SnapsOkPositions(cfg, snaps, h, |snaps| - 1);
    }
  }

  lemma {:induction false} DeltaRun(snaps: seq<Snapshot>, n: nat)
    requires n <= |snaps| && forall k | 0 <= k < n :: snaps[k].Delta?
    ensures LeadingDeltas(snaps) >= n
  {
    if n > 0 {
      DeltaRun(snaps[1..], n - 1);
    }
  }

  /** A snapshot of the current version keeps the table well formed. */
  lemma {:induction false} SnapshotKeepsTable(cfg: Config, s: FileState, h: History, fault: Fault)
    requires GoodConfig(cfg) && StoredValid(s) && SnapsOk(cfg, s.snaps, h)
    requires s.cached.Some? && s.cached.value.version == |h.log| && s.cached.value.content == h.texts[|h.log|]
    requires s.snaps != [] ==> s.snaps[0].createdAt <= s.clock
    ensures SnapsOk(cfg, TakeSnapshot(cfg, s, fault).snaps, h)
    ensures var snaps := TakeSnapshot(cfg, s, fault).snaps; snaps != [] ==> snaps[0].createdAt <= s.clock
    ensures StoredValid(TakeSnapshot(cfg, s, fault))
  {
    if NewSnapshot(cfg, s).Some? {
      var snap := NewSnapshot(cfg, s).value;
      if !HasSnapshot(s.snaps, snap.version) {
        if s.snaps != [] {
          assert s.snaps[0].version != snap.version;
          assert AddedAfter(snap, s.snaps[0]);
        }
        assert InsertSnapshot(s.snaps, snap)[1..] == s.snaps;
        if snap.Delta? {
          StoredVersionsExact(cfg, s.snaps, h);
          var base, content := SnapshotBase(s.snaps).value, s.cached.value.content;
          assert base == h.texts[s.snaps[0].version];
          assert Partitions(cfg.differ(base, content), base, content);
          RoundTrip(cfg.differ(base, content), base, content);
        }
      }
    }
  }
}
