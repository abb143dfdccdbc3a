/** The transcript `generate_response` builds before prompting the model:
    the history with the new prompt appended as a final user entry, each
    entry rendered as `role: content` and a newline. */
module Transcript {
  import opened Base
  import opened History

  /** `f"{message['role']}: {message['content']}\n"`. */
  function Line(e: Entry): string {
    e.role + ": " + e.content + "\n"
  }

  /** The formatting loop: each entry's line appended in order. The
      transcript is empty exactly for an empty history and otherwise ends
      with a newline. */
  function Render(h: seq<Entry>): (s: string)
    ensures |s| == 0 <==> |h| == 0
    ensures |h| > 0 ==> s[|s| - 1] == '\n'
  {
    if |h| == 0 then "" else Render(h[..|h| - 1]) + Line(h[|h| - 1])
  }

  /** `history.append({"role": "user", "content": prompt})` followed by the
      formatting loop: the earlier entries come first, then the prompt as the
      last line. */
  function FormatHistory(history: seq<Entry>, prompt: string): (s: string)
    ensures s == Render(history) + "user: " + prompt + "\n"
  {
    var h := history + [Entry("user", prompt)];
    assert h[..|h| - 1] == history;
    Render(h)
  }

  /** Rendering distributes over concatenation of histories. */
  lemma {:induction false} RenderAppend(a: seq<Entry>, b: seq<Entry>)
    ensures Render(a + b) == Render(a) + Render(b)
    decreases |b|
  {
    if |b| == 0 {
      assert a + b == a;
    } else {
      var b', e := b[..|b| - 1], b[|b| - 1];
      SnocParts(a, b);
      RenderAppend(a, b');
      RenderAppendStep(a, b', e);
    }
  }

  lemma SnocParts(a: seq<Entry>, b: seq<Entry>)
    requires |b| > 0
    ensures b == b[..|b| - 1] + [b[|b| - 1]]
    ensures a + b == (a + b[..|b| - 1]) + [b[|b| - 1]]
  {
  }

  /** The step of `RenderAppend`, given the claim for `b'`. */
  lemma RenderAppendStep(a: seq<Entry>, b': seq<Entry>, e: Entry)
    requires Render(a + b') == Render(a) + Render(b')
    ensures Render((a + b') + [e]) == Render(a) + Render(b' + [e])
  {
    RenderSnoc(a + b', e);
    RenderSnoc(b', e);
    StringAssoc(Render(a), Render(b'), Line(e));
  }

  lemma StringAssoc(x: string, y: string, z: string)
    ensures (x + y) + z == x + (y + z)
  {
  }

  /** One more entry adds its line at the end. */
  lemma RenderSnoc(h: seq<Entry>, e: Entry)
    ensures Render(h + [e]) == Render(h) + Line(e)
  {
    assert (h + [e])[..|h|] == h;
  }

  /** Position of the first `c` in `s`. */
  function FirstIndexOf(s: string, c: char): (r: Option<nat>)
    ensures r.None? <==> c !in s
    ensures r.Some? ==> r.value < |s| && s[r.value] == c && c !in s[..r.value]
  {
    if |s| == 0 then None
    else if s[0] == c then Some(0)
    else match FirstIndexOf(s[1..], c)
      case None => None
      case Some(k) =>
        assert s[1..][..k] == s[1..k + 1];
        assert s[..k + 1] == [s[0]] + s[1..k + 1];
        Some(k + 1)
  }

  /** Reads one line back as `role: content`, splitting at the first colon,
      which must be followed by a space. */
  function ParseLine(line: string): Option<Entry> {
    match FirstIndexOf(line, ':')
    case None => None
    case Some(k) =>
      if k + 1 < |line| && line[k + 1] == ' ' then Some(Entry(line[..k], line[k + 2..])) else None
  }

  /** Reads a transcript back as a list of entries, one per newline-ended line. */
  function Parse(s: string): Option<seq<Entry>>
    decreases |s|
  {
    if |s| == 0 then Some([])
    else match FirstIndexOf(s, '\n')
      case None => None
      case Some(n) =>
        match ParseLine(s[..n])
        case None => None
        case Some(e) =>
          match Parse(s[n + 1..])
          case None => None
          case Some(rest) => Some([e] + rest)
  }

  /** An entry the transcript can carry unambiguously: no colon in the role
      and no newline anywhere. */
  predicate Plain(e: Entry) {
    ':' !in e.role && '\n' !in e.role && '\n' !in e.content
  }

  lemma FirstIndexAfter(x: string, c: char, y: string)
    requires c !in x
    ensures FirstIndexOf(x + [c] + y, c) == Some(|x|)
  {
    var s := x + [c] + y;
    var r := FirstIndexOf(s, c);
    assert s[|x|] == c;
  }

  lemma ParseOneLine(e: Entry)
    requires Plain(e)
    ensures ParseLine(e.role + ": " + e.content) == Some(e)
  {
    var line := e.role + ": " + e.content;
    assert line == e.role + [':'] + (" " + e.content);
    FirstIndexAfter(e.role, ':', " " + e.content);
    assert line[..|e.role|] == e.role;
    assert line[|e.role| + 2..] == e.content;
  }

  lemma ParseFirstLine(e: Entry, rest: string)
    requires Plain(e)
    ensures Parse(Line(e) + rest) == match Parse(rest)
                                     case None => None
                                     case Some(tail) => Some([e] + tail)
  {
    var body := e.role + ": " + e.content;
    var s := Line(e) + rest;
    assert s == body + ['\n'] + rest;
    BodyHasNoNewline(e);
    FirstIndexAfter(body, '\n', rest);
    assert s[..|body|] == body;
    assert s[|body| + 1..] == rest;
    ParseOneLine(e);
  }

  lemma BodyHasNoNewline(e: Entry)
    requires Plain(e)
    ensures '\n' !in e.role + ": " + e.content
  {
    var body := e.role + ": " + e.content;
    forall i | 0 <= i < |body|
      ensures body[i] != '\n'
    {
      if i < |e.role| {
        assert body[i] == e.role[i];
      } else if i >= |e.role| + 2 {
        assert body[i] == e.content[i - |e.role| - 2];
      }
    }
  }

  /** Every transcript of plain entries reads back as exactly its entries. */
  lemma {:induction false} ParseRender(h: seq<Entry>)
    requires forall k :: 0 <= k < |h| ==> Plain(h[k])
    ensures Parse(Render(h)) == Some(h)
    decreases |h|
  {
    if |h| > 0 {
      RenderAppend([h[0]], h[1..]);
      assert [h[0]] + h[1..] == h;
      assert Render([h[0]]) == Line(h[0]) by {
        assert [h[0]][..0] == [];
      }
      ParseRender(h[1..]);
      ParseFirstLine(h[0], Render(h[1..]));
    }
  }

  /** The transcript of a plain history and a one-line prompt reads back as
      that history followed by the prompt as the final user entry. */
  lemma FormatHistoryRoundTrip(history: seq<Entry>, prompt: string)
    requires forall k :: 0 <= k < |history| ==> Plain(history[k])
    requires '\n' !in prompt
    ensures Parse(FormatHistory(history, prompt)) == Some(history + [Entry("user", prompt)])
  {
    var h := history + [Entry("user", prompt)];
    assert forall k :: 0 <= k < |h| ==> Plain(h[k]);
    assert h[..|h| - 1] == history;
    ParseRender(h);
  }
}
