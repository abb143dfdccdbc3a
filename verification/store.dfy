/** The `chats` table as an in-memory sequence of rows in id order, with the
    inserts, lookups, filtered selects and topic updates the chat core issues. */
module Store {
  import opened Base

  /** The sentinel topic of a row the sleep sweep has not labelled yet. */
  const Untitled: string := "Untitled"

  /** One row of `chats (id, timestamp, prompt, response, topic)`. */
  datatype Chat = Chat(id: nat, timestamp: string, prompt: string, response: string, topic: string)

  type Table = seq<Chat>

  /** What AUTOINCREMENT guarantees of a table that is only ever appended to:
      ids are positive and strictly increase in row order. */
  predicate WellFormed(t: Table) {
    && (forall i :: 0 <= i < |t| ==> t[i].id >= 1)
    && (forall i, j :: 0 <= i < j < |t| ==> t[i].id < t[j].id)
  }

  lemma WellFormedTail(t: Table)
    requires WellFormed(t) && |t| > 0
    ensures WellFormed(t[1..])
  {
    var tail := t[1..];
    forall i, j | 0 <= i < j < |tail|
      ensures tail[i].id < tail[j].id
    {
      assert tail[i] == t[i + 1] && tail[j] == t[j + 1];
    }
  }

  /** The largest id in the table, 0 when it is empty. */
  function MaxId(t: Table): (m: nat)
    ensures forall i :: 0 <= i < |t| ==> t[i].id <= m
    ensures |t| == 0 ==> m == 0
    ensures |t| > 0 ==> exists i :: 0 <= i < |t| && t[i].id == m
  {
    if |t| == 0 then 0
    else
      var m := MaxId(t[..|t| - 1]);
      if t[|t| - 1].id > m then t[|t| - 1].id else m
  }

  /** The id AUTOINCREMENT hands out next when no row was ever deleted. */
  function NextId(t: Table): (id: nat)
    ensures id >= 1
    ensures forall i :: 0 <= i < |t| ==> t[i].id < id
  {
    MaxId(t) + 1
  }

  /** `save_chat_history`: insert one row stamped `timestamp` with the
      topic `'Untitled'`. */
  function Save(t: Table, timestamp: string, prompt: string, response: string): (r: Table)
    ensures |r| == |t| + 1 && r[..|t|] == t
    ensures r[|t|].timestamp == timestamp && r[|t|].prompt == prompt && r[|t|].response == response
    ensures r[|t|].topic == Untitled
    ensures r[|t|].id >= 1 && forall i :: 0 <= i < |t| ==> t[i].id < r[|t|].id
    ensures WellFormed(t) ==> WellFormed(r)
  {
    t + [Chat(NextId(t), timestamp, prompt, response, Untitled)]
  }

  /** `SELECT ... WHERE id = ?` followed by `fetchone()`: the first row
      carrying `id`, or `None`. */
  function Lookup(t: Table, id: nat): (r: Option<Chat>)
    ensures r.None? <==> forall i :: 0 <= i < |t| ==> t[i].id != id
    ensures r.Some? ==> exists k :: 0 <= k < |t| && t[k] == r.value && t[k].id == id
                          && forall j :: 0 <= j < k ==> t[j].id != id
  {
    if |t| == 0 then None
    else if t[0].id == id then Some(t[0])
    else
      var r := Lookup(t[1..], id);
      assert r.Some? ==> exists k :: 0 <= k < |t| - 1 && t[1..][k] == r.value && t[1..][k].id == id
                            && forall j :: 0 <= j < k ==> t[1..][j].id != id;
      r
  }

  /** In a well-formed table the lookup by a row's id finds that row. */
  lemma LookupOwnId(t: Table, k: nat)
    requires WellFormed(t) && k < |t|
    ensures Lookup(t, t[k].id) == Some(t[k])
  {
  }

  /** A saved row can be read back by its new id, still untitled. */
  lemma SaveThenLookup(t: Table, timestamp: string, prompt: string, response: string)
    ensures Lookup(Save(t, timestamp, prompt, response), NextId(t))
         == Some(Chat(NextId(t), timestamp, prompt, response, Untitled))
  {
    var r := Save(t, timestamp, prompt, response);
    assert r[|t|].id == NextId(t);
  }

  /** `SELECT ... WHERE keep(row)` without `ORDER BY`: the matching rows in
      table order. */
  function Where(t: Table, keep: Chat -> bool): (r: Table)
    ensures |r| <= |t|
    ensures forall c :: c in r <==> c in t && keep(c)
  {
    if |t| == 0 then []
    else if keep(t[0]) then [t[0]] + Where(t[1..], keep)
    else Where(t[1..], keep)
  }

  /** A select keeps the passing rows in table order: selecting from two
      tables joined is selecting from each and joining the results, and a
      single row is kept exactly when it passes. */
  lemma {:induction false} WhereKeepsOrder(a: Table, b: Table, keep: Chat -> bool)
    ensures Where(a + b, keep) == Where(a, keep) + Where(b, keep)
    ensures forall c :: Where([c], keep) == if keep(c) then [c] else []
  {
    if |a| > 0 {
      assert (a + b)[1..] == a[1..] + b;
      WhereKeepsOrder(a[1..], b, keep);
    } else {
      assert a + b == b;
    }
    forall c
      ensures Where([c], keep) == if keep(c) then [c] else []
    {
      assert [c][1..] == [];
    }
  }

  /** Selecting rows keeps them in id order. */
  lemma {:induction false} WhereWellFormed(t: Table, keep: Chat -> bool)
    ensures WellFormed(t) ==> WellFormed(Where(t, keep))
  {
    if WellFormed(t) && |t| > 0 {
      WellFormedTail(t);
      WhereWellFormed(t[1..], keep);
      var rest := Where(t[1..], keep);
      forall c | c in rest
        ensures t[0].id < c.id
      {
        assert c in t[1..];
      }
      if keep(t[0]) {
        WellFormedCons(t[0], rest);
      }
    }
  }

  /** A row whose id is positive and below every id of a well-formed table
      can be put in front of it. */
  lemma WellFormedCons(c: Chat, rest: Table)
    requires WellFormed(rest) && c.id >= 1
    requires forall d | d in rest :: c.id < d.id
    ensures WellFormed([c] + rest)
  {
    var r := [c] + rest;
    forall i, j | 0 <= i < j < |r|
      ensures r[i].id < r[j].id
    {
      assert r[j] == rest[j - 1];
      if i == 0 {
        assert rest[j - 1] in rest;
      } else {
        assert r[i] == rest[i - 1];
      }
    }
  }

  predicate IsLabelled(c: Chat) {
    c.topic != Untitled
  }

  predicate IsUnlabelled(c: Chat) {
    c.topic == Untitled
  }

  /** `SELECT ... WHERE topic != 'Untitled'`. */
  function Labelled(t: Table): (r: Table)
    ensures forall c :: c in r <==> c in t && c.topic != Untitled
    ensures WellFormed(t) ==> WellFormed(r)
  {
    WhereWellFormed(t, IsLabelled);
    Where(t, IsLabelled)
  }

  /** `SELECT ... WHERE topic = 'Untitled'`. */
  function Unlabelled(t: Table): (r: Table)
    ensures forall c :: c in r <==> c in t && c.topic == Untitled
    ensures WellFormed(t) ==> WellFormed(r)
  {
    WhereWellFormed(t, IsUnlabelled);
    Where(t, IsUnlabelled)
  }

  /** A filter no row passes selects nothing. */
  lemma {:induction false} WhereNone(t: Table, keep: Chat -> bool)
    requires forall i :: 0 <= i < |t| ==> !keep(t[i])
    ensures Where(t, keep) == []
  {
    if |t| > 0 {
      WhereNone(t[1..], keep);
    }
  }

  /** A filter and its complement split the table between them. */
  lemma {:induction false} WherePartition(t: Table, keep: Chat -> bool, drop: Chat -> bool)
    requires forall c :: drop(c) == !keep(c)
    ensures |Where(t, keep)| + |Where(t, drop)| == |t|
  {
    if |t| > 0 {
      WherePartition(t[1..], keep, drop);
    }
  }

  /** Every row is selected by exactly one of the two topic filters. */
  lemma FiltersPartition(t: Table)
    ensures |Labelled(t)| + |Unlabelled(t)| == |t|
  {
    WherePartition(t, IsLabelled, IsUnlabelled);
  }

  /** `UPDATE chats SET topic = ? WHERE id = ?`: every row with that id gets
      the new topic; every other row, and every other column, is kept. */
  function SetTopic(t: Table, id: nat, topic: string): (r: Table)
    ensures |r| == |t|
    ensures forall i :: 0 <= i < |t| && t[i].id == id ==> r[i] == t[i].(topic := topic)
    ensures forall i :: 0 <= i < |t| && t[i].id != id ==> r[i] == t[i]
  {
    if |t| == 0 then []
    else [if t[0].id == id then t[0].(topic := topic) else t[0]] + SetTopic(t[1..], id, topic)
  }
}
