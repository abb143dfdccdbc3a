/** `sleep_mode`: every untitled row gets a topic from the language model.
    The model is a parameter `oracle` from `(prompt, response)` to its raw
    completion; `generate_topic` strips that completion. */
module Sleep {
  import opened Text
  import opened Store

  /** The topic `generate_topic` returns for a row: the model's completion
      for its prompt and response with surrounding whitespace removed. */
  function Label(c: Chat, oracle: (string, string) -> string): (topic: string)
    ensures exists a :: StrippedAt(oracle(c.prompt, c.response), topic, a)
    ensures |topic| > 0 ==> !IsSpace(topic[0]) && !IsSpace(topic[|topic| - 1])
  {
    Strip(oracle(c.prompt, c.response))
  }

  /** Two rows that differ at most in their topic. */
  predicate SameExchange(a: Chat, b: Chat) {
    a.id == b.id && a.timestamp == b.timestamp && a.prompt == b.prompt && a.response == b.response
  }

  /** The loop of `sleep_mode`: for each pending row in turn, one
      `UPDATE ... SET topic = ? WHERE id = ?` with its label. */
  function Sweep(t: Table, pending: Table, oracle: (string, string) -> string): (r: Table)
    ensures |r| == |t|
    ensures forall i :: 0 <= i < |t| ==> SameExchange(r[i], t[i])
    decreases |pending|
  {
    if |pending| == 0 then t
    else Sweep(SetTopic(t, pending[0].id, Label(pending[0], oracle)), pending[1..], oracle)
  }

  /** A row as the sweep should leave it: labelled if it was untitled,
      untouched otherwise. */
  function Relabel(c: Chat, oracle: (string, string) -> string): Chat {
    if c.topic == Untitled then c.(topic := Label(c, oracle)) else c
  }

  /** `sleep_mode`: select the untitled rows, then sweep them. In a
      well-formed table exactly the untitled rows change, and only in their
      topic, which becomes the stripped oracle label. */
  function SleepMode(t: Table, oracle: (string, string) -> string): (r: Table)
    ensures |r| == |t|
    ensures forall i :: 0 <= i < |t| ==> SameExchange(r[i], t[i])
    ensures WellFormed(t) ==> forall i :: 0 <= i < |t| && t[i].topic != Untitled ==> r[i] == t[i]
    ensures WellFormed(t) ==> forall i :: 0 <= i < |t| && t[i].topic == Untitled ==>
              r[i] == t[i].(topic := Strip(oracle(t[i].prompt, t[i].response)))
    ensures WellFormed(t) ==> WellFormed(r)
  {
    SleepModeRelabels(t, oracle);
    Sweep(t, Unlabelled(t), oracle)
  }

  /** The topics a list of pending rows ends up with, by id; a later row
      with the same id overrides an earlier one, as its update runs later. */
  function Labels(pending: Table, oracle: (string, string) -> string): (m: map<nat, string>)
    ensures m.Keys == Ids(pending)
  {
    if |pending| == 0 then map[]
    else
      assert pending == [pending[0]] + pending[1..];
      map[pending[0].id := Label(pending[0], oracle)] + Labels(pending[1..], oracle)
  }

  /** The ids of a list of rows. */
  function Ids(t: Table): set<nat> {
    set c | c in t :: c.id
  }

  /** Every row whose id has a label takes it; every other row is kept. */
  function ApplyLabels(t: Table, m: map<nat, string>): (r: Table)
    ensures |r| == |t|
  {
    seq(|t|, i requires 0 <= i < |t| => if t[i].id in m then t[i].(topic := m[t[i].id]) else t[i])
  }

  /** Running the updates one by one is applying their combined label map. */
  lemma {:induction false} SweepApplies(t: Table, pending: Table, oracle: (string, string) -> string)
    ensures Sweep(t, pending, oracle) == ApplyLabels(t, Labels(pending, oracle))
    decreases |pending|
  {
    if |pending| == 0 {
      assert ApplyLabels(t, map[]) == t;
    } else {
      var id, topic := pending[0].id, Label(pending[0], oracle);
      var t' := SetTopic(t, id, topic);
      var rest := Labels(pending[1..], oracle);
      SweepApplies(t', pending[1..], oracle);
      var lhs := ApplyLabels(t', rest);
      var rhs := ApplyLabels(t, map[id := topic] + rest);
      assert forall i :: 0 <= i < |t| ==> lhs[i] == rhs[i];
    }
  }

  /** In strictly increasing ids, the label of each pending row's id is that
      row's own label. */
  lemma {:induction false} LabelsOfDistinct(pending: Table, oracle: (string, string) -> string, k: nat)
    requires WellFormed(pending) && k < |pending|
    ensures Labels(pending, oracle)[pending[k].id] == Label(pending[k], oracle)
  {
    var tail := pending[1..];
    var rest := Labels(tail, oracle);
    var head := pending[0];
    assert Labels(pending, oracle) == map[head.id := Label(head, oracle)] + rest;
    if k == 0 {
      HeadIdNotInTail(pending);
      UnionLookup(head.id, Label(head, oracle), rest, head.id);
    } else {
      WellFormedTail(pending);
      assert tail[k - 1] == pending[k];
      LabelsOfDistinct(tail, oracle, k - 1);
      assert pending[k].id in rest.Keys by {
        assert pending[k] in tail;
      }
      UnionLookup(head.id, Label(head, oracle), rest, pending[k].id);
    }
  }

  /** A key of the right operand of `+` takes its value there. */
  lemma UnionLookup(id: nat, v: string, rest: map<nat, string>, key: nat)
    requires key == id || key in rest
    ensures (map[id := v] + rest)[key] == if key in rest then rest[key] else v
  {
  }

  lemma HeadIdNotInTail(pending: Table)
    requires WellFormed(pending) && |pending| > 0
    ensures pending[0].id !in Ids(pending[1..])
  {
    var tail := pending[1..];
    forall c | c in tail
      ensures c.id != pending[0].id
    {
      var j :| 0 <= j < |tail| && tail[j] == c;
      assert pending[j + 1] == c;
    }
  }

  /** In a well-formed table the sweep relabels exactly the untitled rows. */
  lemma SleepModeRelabels(t: Table, oracle: (string, string) -> string)
    ensures WellFormed(t) ==> forall i :: 0 <= i < |t| ==> Sweep(t, Unlabelled(t), oracle)[i] == Relabel(t[i], oracle)
  {
    if WellFormed(t) {
      var pending := Unlabelled(t);
      SweepApplies(t, pending, oracle);
      forall i | 0 <= i < |t|
        ensures ApplyLabels(t, Labels(pending, oracle))[i] == Relabel(t[i], oracle)
      {
        if t[i].topic == Untitled {
          UntitledRowLabelled(t, oracle, i);
        } else {
          LabelledRowNotPending(t, i);
        }
      }
    }
  }

  lemma UntitledRowLabelled(t: Table, oracle: (string, string) -> string, i: nat)
    requires WellFormed(t) && i < |t| && t[i].topic == Untitled
    ensures t[i].id in Labels(Unlabelled(t), oracle)
    ensures Labels(Unlabelled(t), oracle)[t[i].id] == Label(t[i], oracle)
  {
    var pending := Unlabelled(t);
    assert t[i] in pending;
    var k :| 0 <= k < |pending| && pending[k] == t[i];
    LabelsOfDistinct(pending, oracle, k);
  }

  lemma LabelledRowNotPending(t: Table, i: nat)
    requires WellFormed(t) && i < |t| && t[i].topic != Untitled
    ensures t[i].id !in Ids(Unlabelled(t))
  {
    var pending := Unlabelled(t);
    forall c | c in pending
      ensures c.id != t[i].id
    {
      var j :| 0 <= j < |t| && t[j] == c;
    }
  }

  /** A second sweep with the same oracle changes nothing. */
  lemma SleepModeIdempotent(t: Table, oracle: (string, string) -> string)
    requires WellFormed(t)
    ensures SleepMode(SleepMode(t, oracle), oracle) == SleepMode(t, oracle)
  {
    var r := SleepMode(t, oracle);
    var r2 := SleepMode(r, oracle);
    assert forall i :: 0 <= i < |t| ==> r2[i] == r[i];
  }

  /** The language model is sampled, so a later sweep may answer
      differently; whatever it answers, a row the first sweep labelled keeps
      its label, and only rows still `'Untitled'` can change. */
  lemma SleepModeKeepsLabels(t: Table, first: (string, string) -> string, second: (string, string) -> string)
    requires WellFormed(t)
    ensures var r := SleepMode(t, first);
            forall i :: 0 <= i < |t| && r[i].topic != Untitled ==> SleepMode(r, second)[i] == r[i]
  {
  }

  /** When no untitled row is labelled `'Untitled'` by the oracle, nothing is
      left untitled after the sweep. */
  lemma SleepModeLabelsAll(t: Table, oracle: (string, string) -> string)
    requires WellFormed(t)
    requires forall i :: 0 <= i < |t| && t[i].topic == Untitled ==> Label(t[i], oracle) != Untitled
    ensures Unlabelled(SleepMode(t, oracle)) == []
  {
    WhereNone(SleepMode(t, oracle), IsUnlabelled);
  }

  /** Saving then sweeping labels the new row and sweeps the old ones as if
      the new row were not there. */
  lemma SaveThenSleep(t: Table, timestamp: string, prompt: string, response: string,
                      oracle: (string, string) -> string)
    requires WellFormed(t)
    ensures SleepMode(Save(t, timestamp, prompt, response), oracle)
         == SleepMode(t, oracle) + [Chat(NextId(t), timestamp, prompt, response, Strip(oracle(prompt, response)))]
  {
    var s := Save(t, timestamp, prompt, response);
    var row := Chat(NextId(t), timestamp, prompt, response, Untitled);
    assert s == t + [row];
    PointwiseRelabel(s, oracle);
    PointwiseRelabel(t, oracle);
    AppendRelabelled(t, row, SleepMode(s, oracle), SleepMode(t, oracle), oracle);
  }

  /** `SleepMode` relabels each row on its own. */
  lemma PointwiseRelabel(t: Table, oracle: (string, string) -> string)
    requires WellFormed(t)
    ensures |SleepMode(t, oracle)| == |t|
    ensures forall i :: 0 <= i < |t| ==> SleepMode(t, oracle)[i] == Relabel(t[i], oracle)
  {
  }

  lemma AppendRelabelled(t: Table, row: Chat, after: Table, before: Table, oracle: (string, string) -> string)
    requires row.topic == Untitled
    requires |after| == |t| + 1 && forall i :: 0 <= i < |t| + 1 ==> after[i] == Relabel((t + [row])[i], oracle)
    requires |before| == |t| && forall i :: 0 <= i < |t| ==> before[i] == Relabel(t[i], oracle)
    ensures after == before + [row.(topic := Strip(oracle(row.prompt, row.response)))]
  {
    assert after[|t|] == Relabel(row, oracle);
    forall i | 0 <= i < |t|
      ensures after[i] == before[i]
    {
      assert (t + [row])[i] == t[i];
    }
  }
}
