/** The transaction repository as an append-only journal: saving a new
    record, re-saving a record with a new status, and the query by sender
    or receiver that backs the transaction history. */
module TransactionLog {
  import opened Model

  type Journal = seq<Transaction>

  /** Every record's id is its position in the journal. */
  predicate IdsAreIndices(log: Journal)
  {
    forall i :: 0 <= i < |log| ==> log[i].id == i
  }

  /** Saving a new record: it is given the next free id and goes at the
      end; nothing already journaled changes. */
  function Append(log: Journal, draft: Transaction): (r: (Journal, TransactionId))
    ensures r.1 == |log| && |r.0| == |log| + 1
    ensures r.0[..|log|] == log
    ensures r.0[r.1] == draft.(id := r.1)
    ensures IdsAreIndices(log) ==> IdsAreIndices(r.0)
  {
    var id := |log|;
    (log + [draft.(id := id)], id)
  }

  /** Re-saving record `id` with a new status; every other record, and every
      other field of this one, is left as it was. */
  function UpdateStatus(log: Journal, id: TransactionId, status: TransactionStatus): (r: Journal)
    requires id < |log|
    ensures |r| == |log|
    ensures forall i :: 0 <= i < |log| && i != id ==> r[i] == log[i]
    ensures r[id] == log[id].(status := status)
    ensures IdsAreIndices(log) ==> IdsAreIndices(r)
  {
    log[id := log[id].(status := status)]
  }

  /** The wallet is the record's sender or its receiver. */
  predicate Involves(t: Transaction, w: WalletId)
  {
    t.sender == Some(w) || t.receiver == Some(w)
  }

  /** The records whose sender or receiver is `w`. The query behind it
      fixes no order; this model lists the records in journal order, and the
      lemmas below describe that chosen order. */
  function FindBySenderOrReceiver(log: Journal, w: WalletId): (r: Journal)
    ensures forall t :: t in r <==> t in log && Involves(t, w)
    ensures |r| <= |log|
  {
    if |log| == 0 then []
    else (if Involves(log[0], w) then [log[0]] else []) + FindBySenderOrReceiver(log[1..], w)
  }

  /** Journaling one more record extends a wallet's history by that record
      exactly when the record involves the wallet. */
  lemma {:induction false} HistoryAppend(log: Journal, t: Transaction, w: WalletId)
    ensures FindBySenderOrReceiver(log + [t], w)
         == FindBySenderOrReceiver(log, w) + (if Involves(t, w) then [t] else [])
  {
    if |log| == 0 {
      assert log + [t] == [t];
      assert [t][1..] == [];
    } else {
      assert (log + [t])[0] == log[0];
      assert (log + [t])[1..] == log[1..] + [t];
      HistoryAppend(log[1..], t, w);
    }
  }

  /** The history of two journals laid end to end is the two histories
      laid end to end. */
  lemma {:induction false} HistoryConcat(a: Journal, b: Journal, w: WalletId)
    ensures FindBySenderOrReceiver(a + b, w) == FindBySenderOrReceiver(a, w) + FindBySenderOrReceiver(b, w)
  {
    if |a| == 0 {
      assert a + b == b;
    } else {
      assert (a + b)[0] == a[0];
      assert (a + b)[1..] == a[1..] + b;
      HistoryConcat(a[1..], b, w);
    }
  }

  /** Re-saving record `id` with a new status changes a wallet's history
      only in that record's status: the records before and after it are the
      same, and the record stays in the history exactly when it was there. */
  lemma {:induction false} HistoryUpdateStatus(log: Journal, id: TransactionId, status: TransactionStatus, w: WalletId)
    requires id < |log|
    ensures FindBySenderOrReceiver(UpdateStatus(log, id, status), w)
         == FindBySenderOrReceiver(log[..id], w)
          + (if Involves(log[id], w) then [log[id].(status := status)] else [])
          + FindBySenderOrReceiver(log[id + 1..], w)
    ensures |FindBySenderOrReceiver(UpdateStatus(log, id, status), w)| == |FindBySenderOrReceiver(log, w)|
  {
    var pre, post := log[..id], log[id + 1..];
    var t := log[id];
    var t' := t.(status := status);
    assert UpdateStatus(log, id, status) == pre + [t'] + post;
    assert log == pre + [t] + post;
    HistoryAroundOne(pre, t', post, w);
    HistoryAroundOne(pre, t, post, w);
  }

  /** The history of `pre + [t] + post` splits around `t`. */
  lemma {:induction false} HistoryAroundOne(pre: Journal, t: Transaction, post: Journal, w: WalletId)
    ensures FindBySenderOrReceiver(pre + [t] + post, w)
         == FindBySenderOrReceiver(pre, w) + (if Involves(t, w) then [t] else []) + FindBySenderOrReceiver(post, w)
  {
    HistoryConcat(pre + [t], post, w);
    HistoryAppend(pre, t, w);
  }
}
