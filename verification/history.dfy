/** `get_chat_history`: the prior exchanges handed to the model as context,
    either every row ("full") or the single best-matching labelled row. */
module History {
  import opened Base
  import opened Store
  import opened Selector

  /** One `{"role": ..., "content": ...}` dictionary of the history list. */
  datatype Entry = Entry(role: string, content: string)

  /** `get_chat_history` reads `row[1]` of the fetched row; had the id vanished,
      `row` would be `None` and that read would raise. */
  datatype Fault = RowVanished

  function UserEntry(c: Chat): Entry {
    Entry("user", c.prompt)
  }

  /** The assistant's side, prefixed with the bracketed timestamp. */
  function PmbEntry(c: Chat): Entry {
    Entry("PMB", "[" + c.timestamp + "] " + c.response)
  }

  function ExchangeEntries(c: Chat): seq<Entry> {
    [UserEntry(c), PmbEntry(c)]
  }

  /** "full" mode: a user entry then a PMB entry for every row, in id order. */
  function FullHistory(t: Table): (h: seq<Entry>)
    ensures |h| == 2 * |t|
    ensures forall k :: 0 <= k < |t| ==> h[2 * k] == UserEntry(t[k]) && h[2 * k + 1] == PmbEntry(t[k])
  {
    if |t| == 0 then [] else ExchangeEntries(t[0]) + FullHistory(t[1..])
  }

  /** The `(id, prompt, response)` tuples the smart-mode select yields. */
  function Candidates(t: Table): (cs: seq<Candidate>)
    ensures |cs| == |t|
    ensures forall k :: 0 <= k < |t| ==> cs[k] == Candidate(t[k].id, t[k].prompt, t[k].response)
  {
    seq(|t|, k requires 0 <= k < |t| => Candidate(t[k].id, t[k].prompt, t[k].response))
  }

  /** Python's truth test on the selected id: `None` and `0` are false. */
  predicate Truthy(id: Option<nat>) {
    id.Some? && id.value != 0
  }

  /** "smart" mode (any mode other than "full"): score the labelled rows
      against the message and, if the chosen id is truthy, fetch that row's
      pair. The fetch always finds the row, so `get_chat_history`'s `row[1]`
      on a missing row cannot happen. In a well-formed table the result is empty
      exactly when every labelled row scores 0, and otherwise it is the pair
      of the first labelled row with the highest score. */
  function SmartHistory(t: Table, message: string): (r: Result<seq<Entry>, Fault>)
    ensures r.Success?
    ensures r.value == [] || exists c :: c in t && r.value == ExchangeEntries(c)
    ensures WellFormed(t) ==>
              (r.value == [] <==> forall j :: 0 <= j < |Labelled(t)| ==> CandidateScore(Candidates(Labelled(t))[j], message) == 0)
    ensures WellFormed(t) && r.value != [] ==>
              exists k :: 0 <= k < |Labelled(t)| && r.value == ExchangeEntries(Labelled(t)[k])
                          && FirstMaximum(Candidates(Labelled(t)), message, k)
  {
    var relevant := FindRelevantChat(Candidates(Labelled(t)), message);
    SmartChoice(t, message);
    if Truthy(relevant) then
      match Lookup(t, relevant.value)
      case Some(row) => Success(ExchangeEntries(row))
      case None => assert false; Failure(RowVanished)
    else Success([])
  }

  /** `get_chat_history(mode, user_message)`. It never fails; "full" mode
      yields one pair per row in id order, any other mode at most one pair
      taken from a row of the table. */
  function GetChatHistory(t: Table, mode: string, message: string): (r: Result<seq<Entry>, Fault>)
    ensures r.Success?
    ensures mode == "full" ==> |r.value| == 2 * |t|
    ensures mode == "full" ==> forall k :: 0 <= k < |t| ==>
              r.value[2 * k] == UserEntry(t[k]) && r.value[2 * k + 1] == PmbEntry(t[k])
    ensures mode != "full" ==> r.value == [] || exists c :: c in t && r.value == ExchangeEntries(c)
  {
    if mode == "full" then Success(FullHistory(t)) else SmartHistory(t, message)
  }

  /** What smart mode's selection and fetch amount to: a truthy id is always
      found in the table, and in a well-formed table every chosen id is
      truthy and fetches the first labelled row with the highest score. */
  lemma SmartChoice(t: Table, message: string)
    ensures var relevant := FindRelevantChat(Candidates(Labelled(t)), message);
            && (Truthy(relevant) ==> Lookup(t, relevant.value).Some? && Lookup(t, relevant.value).value in t)
            && (WellFormed(t) && relevant.Some? ==> Truthy(relevant))
            && (WellFormed(t) && relevant.Some? ==>
                  exists k :: 0 <= k < |Labelled(t)| && Lookup(t, relevant.value) == Some(Labelled(t)[k])
                              && FirstMaximum(Candidates(Labelled(t)), message, k))
  {
    var relevant := FindRelevantChat(Candidates(Labelled(t)), message);
    if relevant.Some? {
      var k := ChosenRow(t, message);
      var row := Labelled(t)[k];
      var i :| 0 <= i < |t| && t[i] == row;
      var found := Lookup(t, relevant.value);
      assert found.Some? && found.value in t;
      FetchOwnRow(t, row);
    }
  }

  /** The labelled row behind the id smart mode settles on, when it settles
      on one: it is a row of the table and the first maximum among the
      labelled rows. */
  lemma ChosenRow(t: Table, message: string) returns (k: nat)
    ensures var relevant := FindRelevantChat(Candidates(Labelled(t)), message);
            relevant.Some? ==> && k < |Labelled(t)| && Labelled(t)[k] in t
                               && Labelled(t)[k].id == relevant.value
                               && FirstMaximum(Candidates(Labelled(t)), message, k)
  {
    var rows := Labelled(t);
    var cs := Candidates(rows);
    var relevant := FindRelevantChat(cs, message);
    if relevant.Some? {
      k :| 0 <= k < |cs| && cs[k].id == relevant.value && FirstMaximum(cs, message, k);
      assert rows[k] in rows;
    } else {
      k := 0;
    }
  }

  /** In a well-formed table a row's id is truthy and fetches that row. */
  lemma FetchOwnRow(t: Table, row: Chat)
    ensures WellFormed(t) && row in t ==> row.id >= 1 && Lookup(t, row.id) == Some(row)
  {
    if WellFormed(t) && row in t {
      var i :| 0 <= i < |t| && t[i] == row;
      LookupOwnId(t, i);
    }
  }

  /** In a well-formed table, smart mode returns nothing exactly when every
      labelled row scores 0, and otherwise the pair of the first labelled row
      with the highest score. */
  lemma SmartHistorySelects(t: Table, mode: string, message: string)
    requires WellFormed(t) && mode != "full"
    ensures var h := GetChatHistory(t, mode, message).value;
            var rows := Labelled(t);
            && (h == [] <==> forall j :: 0 <= j < |rows| ==> CandidateScore(Candidates(rows)[j], message) == 0)
            && (h != [] ==> exists k :: 0 <= k < |rows| && h == ExchangeEntries(rows[k])
                                        && FirstMaximum(Candidates(rows), message, k))
  {
  }

  /** Smart mode only ever returns a row that the sleep sweep has labelled. */
  lemma SmartHistoryIsLabelled(t: Table, mode: string, message: string)
    requires WellFormed(t) && mode != "full"
    ensures var h := GetChatHistory(t, mode, message).value;
            h == [] || exists c :: c in t && c.topic != Untitled && h == ExchangeEntries(c)
  {
    SmartHistorySelects(t, mode, message);
    var h := GetChatHistory(t, mode, message).value;
    if h != [] {
      var rows := Labelled(t);
      var k :| 0 <= k < |rows| && h == ExchangeEntries(rows[k]) && FirstMaximum(Candidates(rows), message, k);
      assert rows[k] in rows;
    }
  }

  /** With no labelled rows, smart mode returns an empty history. */
  lemma SmartHistoryWithoutLabels(t: Table, mode: string, message: string)
    requires mode != "full"
    requires forall i :: 0 <= i < |t| ==> t[i].topic == Untitled
    ensures GetChatHistory(t, mode, message) == Success([])
  {
    WhereNone(t, IsLabelled);
  }

  lemma {:induction false} FullHistoryAppend(a: Table, b: Table)
    ensures FullHistory(a + b) == FullHistory(a) + FullHistory(b)
  {
    if |a| > 0 {
      assert (a + b)[1..] == a[1..] + b;
      FullHistoryAppend(a[1..], b);
    } else {
      assert a + b == b;
    }
  }

  /** Saving an exchange adds exactly its pair at the end of the full history. */
  lemma SaveExtendsFullHistory(t: Table, timestamp: string, prompt: string, response: string)
    ensures FullHistory(Save(t, timestamp, prompt, response))
         == FullHistory(t) + [Entry("user", prompt), Entry("PMB", "[" + timestamp + "] " + response)]
  {
    var row := Chat(NextId(t), timestamp, prompt, response, Untitled);
    FullHistoryAppend(t, [row]);
    assert FullHistory([row]) == ExchangeEntries(row) + FullHistory([row][1..]);
  }
}
