/**
 * The `papers` index of the search store, seen through the three calls the
 * indexers make: `indices.delete`, `indices.create(..., ignore=400)` and
 * `index(id=..., body=...)`. Documents are kept by id; writing under an id
 * replaces the whole document.
 */
module PaperStore {
  import opened Wrappers

  /** A stored document body. `id` is None when the body has no `id` field. */
  datatype Doc = Doc(id: Option<string>, title: string, summary: string, authors: seq<string>, updated: string)

  /** One `index` call: the document id and the body written under it. */
  type Write = (string, Doc)

  /** The ids a batch of writes touches. */
  function KeysOf(ws: seq<Write>): set<string>
  {
    set i | 0 <= i < |ws| :: ws[i].0
  }

  /** The ids of a batch: those of all but its last write, and the last one. */
  lemma {:induction false} KeysOfSnoc(ws: seq<Write>)
    requires |ws| > 0
    ensures KeysOf(ws) == KeysOf(ws[..|ws| - 1]) + {ws[|ws| - 1].0}
  {
    var init := ws[..|ws| - 1];
    forall k | k in KeysOf(ws) ensures k in KeysOf(init) + {ws[|ws| - 1].0} {
      var i :| 0 <= i < |ws| && ws[i].0 == k;
      if i < |ws| - 1 { assert init[i] == ws[i]; }
    }
    forall k | k in KeysOf(init) ensures k in KeysOf(ws) {
      var i :| 0 <= i < |init| && init[i].0 == k;
      assert ws[i] == init[i];
    }
  }

  /** The documents after a batch of writes applied in order to `m`. */
  function WriteAll(m: map<string, Doc>, ws: seq<Write>): (r: map<string, Doc>)
    ensures r.Keys == m.Keys + KeysOf(ws)
    decreases |ws|
  {
    if |ws| == 0 then m
    else
      var init := ws[..|ws| - 1];
      KeysOfSnoc(ws);
      WriteAll(m, init)[ws[|ws| - 1].0 := ws[|ws| - 1].1]
  }

  /** Extending a batch by one more of its writes applies that write. */
  lemma {:induction false} WriteAllSnoc(m: map<string, Doc>, ws: seq<Write>, i: nat)
    requires i < |ws|
    ensures WriteAll(m, ws[..i + 1]) == WriteAll(m, ws[..i])[ws[i].0 := ws[i].1]
  {
    assert ws[..i + 1][..i] == ws[..i];
  }

  /** A batch writes the same documents whatever was there before; the older
      documents survive under the ids the batch does not touch. */
  lemma {:induction false} WriteAllOverlays(m: map<string, Doc>, ws: seq<Write>)
    ensures WriteAll(m, ws) == m + WriteAll(map[], ws)
    decreases |ws|
  {
    if |ws| > 0 {
      var init := ws[..|ws| - 1];
      WriteAllOverlays(m, init);
      var k, d := ws[|ws| - 1].0, ws[|ws| - 1].1;
      assert (m + WriteAll(map[], init))[k := d] == m + WriteAll(map[], init)[k := d];
    }
  }

  /** Last write wins: the document under an id is the body of the last
      write with that id. */
  lemma {:induction false} WriteAllLastWins(m: map<string, Doc>, ws: seq<Write>, i: nat)
    requires i < |ws|
    requires forall j :: i < j < |ws| ==> ws[j].0 != ws[i].0
    ensures ws[i].0 in WriteAll(m, ws) && WriteAll(m, ws)[ws[i].0] == ws[i].1
    decreases |ws|
  {
    if i < |ws| - 1 {
      var init := ws[..|ws| - 1];
      assert init[i] == ws[i];
      WriteAllLastWins(m, init, i);
    }
  }

  /** Writes leave every other id as it was. */
  lemma {:induction false} WriteAllUntouched(m: map<string, Doc>, ws: seq<Write>, k: string)
    requires k !in KeysOf(ws)
    ensures k in WriteAll(m, ws) <==> k in m
    ensures k in m ==> WriteAll(m, ws)[k] == m[k]
  {
    WriteAllOverlays(m, ws);
  }

  /** Writing the same batch again changes nothing. */
  lemma {:induction false} WriteAllIdempotent(m: map<string, Doc>, ws: seq<Write>)
    ensures WriteAll(WriteAll(m, ws), ws) == WriteAll(m, ws)
  {
    WriteAllOverlays(m, ws);
    WriteAllOverlays(WriteAll(m, ws), ws);
    var b := WriteAll(map[], ws);
    assert (m + b) + b == m + b;
  }

  /** A batch never stores more documents than it has writes. */
  lemma {:induction false} KeysOfBound(ws: seq<Write>)
    ensures |KeysOf(ws)| <= |ws|
    decreases |ws|
  {
    if |ws| > 0 {
      KeysOfSnoc(ws);
      KeysOfBound(ws[..|ws| - 1]);
    }
  }

  /** Two writes under one id: fewer documents than writes. */
  lemma {:induction false} KeysOfDuplicate(ws: seq<Write>, i: nat, j: nat)
    requires i < j < |ws| && ws[i].0 == ws[j].0
    ensures |KeysOf(ws)| < |ws|
    decreases |ws|
  {
    var init := ws[..|ws| - 1];
    KeysOfSnoc(ws);
    assert init[i] == ws[i];
    if j == |ws| - 1 {
      assert ws[j].0 in KeysOf(init);
      assert KeysOf(ws) == KeysOf(init);
      KeysOfBound(init);
    } else {
      assert init[j] == ws[j];
      KeysOfDuplicate(init, i, j);
    }
  }

  /** The `papers` index: whether it exists, and its documents by id. */
  class PaperIndex {
    var present: bool
    var docs: map<string, Doc>

    /** An index that does not exist holds nothing, so creating a missing
        index and keeping an existing one both leave `docs` as it was. */
    predicate Valid()
      reads this
    {
      !present ==> docs == map[]
    }

    /** The store before either script has run: no `papers` index. */
    constructor ()
      ensures Valid() && !present && docs == map[]
    {
      present := false;
      docs := map[];
    }

    /** `indices.delete(index='papers')`: the index and all its documents go. */
    method Delete()
      modifies this
      ensures Valid() && !present && docs == map[]
    {
      present := false;
      docs := map[];
    }

    /** `indices.create(index='papers', ..., ignore=400)`: creates an empty
        index; when it exists already the error is ignored and nothing changes. */
    method Create()
      requires Valid()
      modifies this
      ensures Valid() && present
      ensures docs == if old(present) then old(docs) else map[]
    {
      if !present {
        present := true;
        docs := map[];
      }
    }

    /** `index(index='papers', id=id, body=doc)`: stores `doc` under `id`,
        replacing any document there, and creates the index if needed. */
    method Put(id: string, doc: Doc)
      requires Valid()
      modifies this
      ensures Valid() && present
      ensures docs == old(docs)[id := doc]
    {
      present := true;
      docs := docs[id := doc];
    }
  }
}
