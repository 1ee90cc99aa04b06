/** dedupe of internal/ingest/buffer.go: one row per query id in a batch, the latest. */
module Dedup {
  import opened ByteStrings
  import opened Rows

  /** The ids of a batch in order of first occurrence. */
  function FirstIds(rows: seq<Row>): seq<Bytes> {
    if rows == [] then []
    else
      var n := |rows| - 1;
      var ids := FirstIds(rows[..n]);
      if Id(rows[n]) in ids then ids else ids + [Id(rows[n])]
  }

  predicate HasId(rows: seq<Row>, id: Bytes) {
    exists i | 0 <= i < |rows| :: Id(rows[i]) == id
  }

  /** The position of an id's last occurrence. */
  function LastAt(rows: seq<Row>, id: Bytes): (k: nat)
    requires HasId(rows, id)
    ensures k < |rows| && Id(rows[k]) == id
    ensures forall j | k < j < |rows| :: Id(rows[j]) != id
  {
    var n := |rows| - 1;
    if Id(rows[n]) == id then n
    else
      assert HasId(rows[..n], id) by {
        var i :| 0 <= i < |rows| && Id(rows[i]) == id;
        assert rows[..n][i] == rows[i];
      }
      LastAt(rows[..n], id)
  }

  lemma {:induction false} FirstIdsMembers(rows: seq<Row>)
    ensures forall id :: id in FirstIds(rows) <==> HasId(rows, id)
    ensures forall i, j | 0 <= i < j < |FirstIds(rows)| :: FirstIds(rows)[i] != FirstIds(rows)[j]
    ensures |FirstIds(rows)| <= |rows|
  {
    if rows != [] {
      var n := |rows| - 1;
      FirstIdsMembers(rows[..n]);
      forall id ensures HasId(rows, id) <==> HasId(rows[..n], id) || id == Id(rows[n]) {
        if HasId(rows[..n], id) {
          var i :| 0 <= i < n && Id(rows[..n][i]) == id;
          assert Id(rows[i]) == id;
        }
        if HasId(rows, id) {
          var i :| 0 <= i < |rows| && Id(rows[i]) == id;
          assert i < n ==> Id(rows[..n][i]) == id;
        }
      }
    }
  }

  /** The specification of dedupe: first-occurrence order, last-occurrence rows. */
  function Deduped(rows: seq<Row>): (out: seq<Row>)
    ensures |out| == |FirstIds(rows)|
    ensures forall i | 0 <= i < |out| :: Id(out[i]) == FirstIds(rows)[i]
  {
    FirstIdsMembers(rows);
    var ids := FirstIds(rows);
    seq(|ids|, i requires 0 <= i < |ids| =>
      assert ids[i] in ids;
      rows[LastAt(rows, ids[i])])
  }

  lemma DedupedAt(rows: seq<Row>, i: nat)
    requires i < |FirstIds(rows)|
    ensures HasId(rows, FirstIds(rows)[i]) && Deduped(rows)[i] == rows[LastAt(rows, FirstIds(rows)[i])]
  {
    FirstIdsMembers(rows);
    assert FirstIds(rows)[i] in FirstIds(rows);
  }

  lemma LastAtSnoc(rows: seq<Row>, r: Row, id: Bytes)
    requires HasId(rows + [r], id)
    ensures id == Id(r) ==> LastAt(rows + [r], id) == |rows|
    ensures id != Id(r) ==> HasId(rows, id) && LastAt(rows + [r], id) == LastAt(rows, id)
  {
    assert (rows + [r])[..|rows|] == rows;
  }

  lemma FirstIdsSnoc(rows: seq<Row>, r: Row)
    ensures FirstIds(rows + [r]) == if Id(r) in FirstIds(rows) then FirstIds(rows) else FirstIds(rows) + [Id(r)]
  {
    assert (rows + [r])[..|rows|] == rows;
  }

  lemma DedupedStep(rows: seq<Row>, r: Row)
    ensures Id(r) !in FirstIds(rows) ==> Deduped(rows + [r]) == Deduped(rows) + [r]
    ensures forall i | 0 <= i < |FirstIds(rows)| && FirstIds(rows)[i] == Id(r) ::
              Deduped(rows + [r]) == Deduped(rows)[i := r]
  {
    var more, ids := rows + [r], FirstIds(rows);
    FirstIdsSnoc(rows, r);
    FirstIdsMembers(rows);
    hide Deduped;
    hide LastAt;
    hide FirstIds;
    forall i | 0 <= i < |FirstIds(more)|
      ensures Deduped(more)[i] == if FirstIds(more)[i] == Id(r) then r else Deduped(rows)[i]
    {
      DedupedAt(more, i);
      LastAtSnoc(rows, r, FirstIds(more)[i]);
      if FirstIds(more)[i] != Id(r) {
        DedupedAt(rows, i);
      }
    }
  }

  method Dedupe(rows: seq<Row>) returns (out: seq<Row>)
    ensures out == Deduped(rows)
  {
    hide Deduped;
    assert Deduped(rows[..0]) == [];
    hide FirstIds;
    var seen: map<Bytes, nat> := map[];
    out := [];
    for n := 0 to |rows|
      invariant out == Deduped(rows[..n])
      invariant forall id :: id in seen <==> id in FirstIds(rows[..n])
      invariant forall id | id in seen :: seen[id] < |out| && FirstIds(rows[..n])[seen[id]] == id
    {
      var r := rows[n];
      assert rows[..n + 1] == rows[..n] + [r];
      FirstIdsSnoc(rows[..n], r);
      DedupedStep(rows[..n], r);
      if Id(r) in seen {
        out := out[seen[Id(r)] := r];
      } else {
        seen := seen[Id(r) := |out|];
        out := out + [r];
      }
    }
    assert rows[..|rows|] == rows;
  }

  predicate Distinct(rows: seq<Row>) {
    forall i, j | 0 <= i < j < |rows| :: Id(rows[i]) != Id(rows[j])
  }

  /** Distinct ids, no id lost or invented, and every row is its id's last one. */
  lemma DedupedIds(rows: seq<Row>)
    ensures Distinct(Deduped(rows))
    ensures forall id :: HasId(Deduped(rows), id) <==> HasId(rows, id)
    ensures forall i | 0 <= i < |Deduped(rows)| :: Deduped(rows)[i] in rows
    ensures |Deduped(rows)| <= |rows|
    ensures rows != [] ==> Deduped(rows) != []
  {
    FirstIdsMembers(rows);
    forall id ensures HasId(Deduped(rows), id) <==> HasId(rows, id) {
      if HasId(rows, id) {
        assert id in FirstIds(rows);
        var i :| 0 <= i < |FirstIds(rows)| && FirstIds(rows)[i] == id;
        assert Id(Deduped(rows)[i]) == id;
      }
      if HasId(Deduped(rows), id) {
        var i :| 0 <= i < |Deduped(rows)| && Id(Deduped(rows)[i]) == id;
        assert FirstIds(rows)[i] in FirstIds(rows);
      }
    }
    if rows != [] {
      assert HasId(rows, Id(rows[0]));
    }
  }

  /** The row kept for an id is its last one in the batch. */
  lemma DedupedLatest(rows: seq<Row>, i: nat) returns (k: nat)
    requires i < |Deduped(rows)|
    ensures k < |rows| && rows[k] == Deduped(rows)[i]
    ensures forall j | k < j < |rows| :: Id(rows[j]) != Id(rows[k])
  {
    DedupedAt(rows, i);
    k := LastAt(rows, FirstIds(rows)[i]);
  }

  /** Rows keep the order in which their ids first appeared. */
  lemma {:induction false} DedupedOrder(rows: seq<Row>, i: nat, j: nat)
    requires i < j < |FirstIds(rows)|
    ensures exists p: nat | p < |rows| ::
              Id(rows[p]) == FirstIds(rows)[i] && forall q | 0 <= q <= p :: Id(rows[q]) != FirstIds(rows)[j]
  {
    var n := |rows| - 1;
    var before := rows[..n];
    var ids := FirstIds(before);
    if j < |ids| {
      DedupedOrder(before, i, j);
      var p: nat :| p < n && Id(before[p]) == ids[i] && forall q | 0 <= q <= p :: Id(before[q]) != ids[j];
      assert Id(rows[p]) == FirstIds(rows)[i];
      assert forall q | 0 <= q <= p :: rows[q] == before[q];
    } else {
      FirstIdsMembers(before);
      assert ids[i] in ids;
      var p :| 0 <= p < n && Id(before[p]) == ids[i];
      forall q | 0 <= q <= p ensures Id(rows[q]) != Id(rows[n]) {
        assert before[q] == rows[q];
        assert HasId(before, Id(rows[q]));
      }
      assert Id(rows[p]) == FirstIds(rows)[i];
    }
  }

  lemma {:induction false} FirstIdsOfDistinct(rows: seq<Row>)
    requires Distinct(rows)
    ensures |FirstIds(rows)| == |rows|
    ensures forall i | 0 <= i < |rows| :: FirstIds(rows)[i] == Id(rows[i])
  {
    if rows != [] {
      var n := |rows| - 1;
      FirstIdsOfDistinct(rows[..n]);
    }
  }

  /** A batch without repeated ids is left alone, so dedupe is idempotent. */
  lemma DedupedOfDistinct(rows: seq<Row>)
    requires Distinct(rows)
    ensures Deduped(rows) == rows
  {
    FirstIdsOfDistinct(rows);
    forall i | 0 <= i < |rows| ensures Deduped(rows)[i] == rows[i] {
      FirstIdsMembers(rows);
      assert FirstIds(rows)[i] in FirstIds(rows);
      assert LastAt(rows, Id(rows[i])) == i;
    }
  }

  lemma DedupedIdempotent(rows: seq<Row>)
    ensures Deduped(Deduped(rows)) == Deduped(rows)
  {
    DedupedIds(rows);
    DedupedOfDistinct(Deduped(rows));
  }
}
