/** The Python string methods the chat store relies on: `str.isspace`,
    `str.lower`, `str.split()` (no separator) and `str.strip()` (no argument). */
module Text {

  /** The characters for which Python's `str.isspace` holds; `split()` and
      `strip()` without arguments treat exactly these as separators. */
  predicate IsSpace(c: char) {
    || c == ' '
    || ('\t' <= c <= '\r')
    || ('\U{1c}' <= c <= '\U{1f}')
    || c == '\U{85}' || c == '\U{a0}' || c == '\U{1680}'
    || ('\U{2000}' <= c <= '\U{200a}')
    || c == '\U{2028}' || c == '\U{2029}' || c == '\U{202f}'
    || c == '\U{205f}' || c == '\U{3000}'
  }

  /** Lower-casing of one character (ASCII letters only). */
  function LowerChar(c: char): char {
    if 'A' <= c <= 'Z' then (c as int + 32) as char else c
  }

  /** `s.lower()`: the same length, no capital letter left, every capital
      replaced by its small letter and every other character kept. */
  function Lower(s: string): (r: string)
    ensures |r| == |s|
    ensures forall i :: 0 <= i < |s| ==> !('A' <= r[i] <= 'Z')
    ensures forall i :: 0 <= i < |s| && 'A' <= s[i] <= 'Z' ==> r[i] as int == s[i] as int + 32
    ensures forall i :: 0 <= i < |s| && !('A' <= s[i] <= 'Z') ==> r[i] == s[i]
  {
    seq(|s|, i requires 0 <= i < |s| => LowerChar(s[i]))
  }

  lemma LowerIdempotent(s: string)
    ensures Lower(Lower(s)) == Lower(s)
  {
    var l := Lower(s);
    var ll := Lower(l);
    forall i | 0 <= i < |s|
      ensures ll[i] == l[i]
    {
      assert ll[i] == LowerChar(l[i]);
    }
  }

  /** A word as `split()` produces it: non-empty, no whitespace inside. */
  predicate IsWord(w: string) {
    |w| > 0 && forall i :: 0 <= i < |w| ==> !IsSpace(w[i])
  }

  /** Length of the maximal whitespace-free prefix of `s`. */
  function WordLen(s: string): (n: nat)
    ensures n <= |s|
    ensures |s| > 0 && !IsSpace(s[0]) ==> n > 0
  {
    if |s| == 0 || IsSpace(s[0]) then 0 else 1 + WordLen(s[1..])
  }

  /** The word prefix holds no whitespace and ends at whitespace or at the end. */
  lemma {:induction false} WordLenMaximal(s: string)
    ensures forall i :: 0 <= i < WordLen(s) ==> !IsSpace(s[i])
    ensures WordLen(s) < |s| ==> IsSpace(s[WordLen(s)])
  {
    if |s| > 0 && !IsSpace(s[0]) {
      WordLenMaximal(s[1..]);
    }
  }

  /** `s.split()`: the maximal whitespace-free runs of `s`, left to right.
      Every piece is a proper word, and there is none exactly when `s` is all
      whitespace. */
  function Split(s: string): (r: seq<string>)
    ensures forall k :: 0 <= k < |r| ==> IsWord(r[k])
    ensures r == [] <==> forall i :: 0 <= i < |s| ==> IsSpace(s[i])
    decreases |s|
  {
    if |s| == 0 then []
    else if IsSpace(s[0]) then
      var rest := Split(s[1..]);
      assert forall i :: 1 <= i < |s| ==> s[i] == s[1..][i - 1];
      rest
    else
      var n := WordLen(s);
      WordLenMaximal(s);
      [s[..n]] + Split(s[n..])
  }

  /** `" ".join(ws)`. */
  function JoinWords(ws: seq<string>): string {
    if |ws| == 0 then ""
    else if |ws| == 1 then ws[0]
    else ws[0] + " " + JoinWords(ws[1..])
  }

  /** Splitting a concatenation at a whitespace boundary splits each side. */
  lemma {:induction false} SplitAppend(x: string, y: string)
    requires |y| == 0 || IsSpace(y[0])
    ensures Split(x + y) == Split(x) + Split(y)
    decreases |x|
  {
    if |x| == 0 {
      SplitAppendEmpty(x, y);
    } else if IsSpace(x[0]) {
      SplitAppendSpace(x, y);
    } else {
      SplitAppendWord(x, y);
    }
  }

  lemma SplitAppendEmpty(x: string, y: string)
    requires |x| == 0
    ensures Split(x + y) == Split(x) + Split(y)
  {
    assert x + y == y;
  }

  lemma {:induction false} SplitAppendSpace(x: string, y: string)
    requires |y| == 0 || IsSpace(y[0])
    requires |x| > 0 && IsSpace(x[0])
    ensures Split(x + y) == Split(x) + Split(y)
    decreases |x|, 0
  {
    var xy := x + y;
    assert xy[0] == x[0];
    assert Split(xy) == Split(xy[1..]);
    assert xy[1..] == x[1..] + y;
    SplitAppend(x[1..], y);
  }

  lemma {:induction false} SplitAppendWord(x: string, y: string)
    requires |y| == 0 || IsSpace(y[0])
    requires |x| > 0 && !IsSpace(x[0])
    ensures Split(x + y) == Split(x) + Split(y)
    decreases |x|, 0
  {
    SplitAppend(x[WordLen(x)..], y);
    SplitAppendWordStep(x, y);
  }

  /** The word case of `SplitAppend`, given the claim for what follows the word. */
  lemma SplitAppendWordStep(x: string, y: string)
    requires |y| == 0 || IsSpace(y[0])
    requires |x| > 0 && !IsSpace(x[0])
    requires Split(x[WordLen(x)..] + y) == Split(x[WordLen(x)..]) + Split(y)
    ensures Split(x + y) == Split(x) + Split(y)
  {
    var n := WordLen(x);
    WordLenAppend(x, y);
    SlicesOfAppend(x, y, n);
    SplitWordHead(x + y, x[..n], x[n..] + y);
    SplitWordHead(x, x[..n], x[n..]);
    AppendAssoc([x[..n]], Split(x[n..]), Split(y));
  }

  lemma AppendAssoc<T>(a: seq<T>, b: seq<T>, c: seq<T>)
    ensures a + (b + c) == (a + b) + c
  {
  }

  lemma SlicesOfAppend(x: string, y: string, n: nat)
    requires n <= |x|
    ensures (x + y)[..n] == x[..n] && (x + y)[n..] == x[n..] + y
  {
  }

  /** A text starting with a word splits into that word, `w`, and the rest. */
  lemma SplitWordHead(s: string, w: string, rest: string)
    requires |s| > 0 && !IsSpace(s[0])
    requires w == s[..WordLen(s)] && rest == s[WordLen(s)..]
    ensures Split(s) == [w] + Split(rest)
  {
  }

  lemma {:induction false} WordLenAppend(x: string, y: string)
    requires |y| == 0 || IsSpace(y[0])
    ensures WordLen(x + y) == WordLen(x)
    decreases |x|
  {
    if |x| == 0 {
      assert x + y == y;
    } else if !IsSpace(x[0]) {
      assert (x + y)[1..] == x[1..] + y;
      WordLenAppend(x[1..], y);
    }
  }

  /** Lower-casing commutes with joining two texts by a space. */
  lemma LowerSpaceJoin(a: string, b: string)
    ensures Lower(a + " " + b) == Lower(a) + " " + Lower(b)
  {
    var s := a + " " + b;
    var l := Lower(s);
    var r := Lower(a) + " " + Lower(b);
    assert |l| == |r|;
    forall i | 0 <= i < |s|
      ensures l[i] == r[i]
    {
      if i < |a| {
        assert s[i] == a[i];
      } else if i == |a| {
        assert s[i] == ' ';
      } else {
        assert s[i] == b[i - |a| - 1];
      }
    }
  }

  /** The words of two texts joined by a space are those of each in turn. */
  lemma SplitSpaceJoin(a: string, b: string)
    ensures Split(a + " " + b) == Split(a) + Split(b)
  {
    assert a + " " + b == a + (" " + b);
    SplitAppend(a, " " + b);
    assert (" " + b)[1..] == b;
  }

  lemma {:induction false} WordLenOfWord(w: string)
    requires forall i :: 0 <= i < |w| ==> !IsSpace(w[i])
    ensures WordLen(w) == |w|
  {
    if |w| > 0 {
      WordLenOfWord(w[1..]);
    }
  }

  /** A single word splits to itself. */
  lemma SplitWord(w: string)
    requires IsWord(w)
    ensures Split(w) == [w]
  {
    WordLenOfWord(w);
    assert w[..|w|] == w;
    assert w[|w|..] == "";
  }

  /** `split()` undoes `" ".join` of proper words. */
  lemma {:induction false} SplitJoin(ws: seq<string>)
    requires forall k :: 0 <= k < |ws| ==> IsWord(ws[k])
    ensures Split(JoinWords(ws)) == ws
  {
    if |ws| == 0 {
    } else if |ws| == 1 {
      SplitWord(ws[0]);
    } else {
      var rest := JoinWords(ws[1..]);
      assert ws[0] + " " + rest == ws[0] + (" " + rest);
      SplitAppend(ws[0], " " + rest);
      SplitWord(ws[0]);
      assert (" " + rest)[1..] == rest;
      SplitJoin(ws[1..]);
      assert ws == [ws[0]] + ws[1..];
    }
  }

  /** `s.lstrip()`. */
  function TrimStart(s: string): (r: string)
    ensures |r| <= |s| && r == s[|s| - |r|..]
    ensures forall k :: 0 <= k < |s| - |r| ==> IsSpace(s[k])
    ensures |r| > 0 ==> !IsSpace(r[0])
  {
    if |s| > 0 && IsSpace(s[0]) then TrimStart(s[1..]) else s
  }

  /** `s.rstrip()`. */
  function TrimEnd(s: string): (r: string)
    ensures |r| <= |s| && r == s[..|r|]
    ensures forall k :: |r| <= k < |s| ==> IsSpace(s[k])
    ensures |r| > 0 ==> !IsSpace(r[|r| - 1])
  {
    if |s| > 0 && IsSpace(s[|s| - 1]) then TrimEnd(s[..|s| - 1]) else s
  }

  /** `s.strip()`: the infix `s[a..a + |r|]` left after removing whitespace
      from both ends. */
  function Strip(s: string): (r: string)
    ensures exists a :: StrippedAt(s, r, a)
    ensures |r| > 0 ==> !IsSpace(r[0]) && !IsSpace(r[|r| - 1])
  {
    var t := TrimStart(s);
    var r := TrimEnd(t);
    assert StrippedAt(s, r, |s| - |t|);
    r
  }

  /** `r` sits at offset `a` of `s` and everything around it is whitespace. */
  predicate StrippedAt(s: string, r: string, a: int) {
    && 0 <= a && a + |r| <= |s|
    && s[a..a + |r|] == r
    && (forall k :: 0 <= k < a ==> IsSpace(s[k]))
    && (forall k :: a + |r| <= k < |s| ==> IsSpace(s[k]))
  }

  /** Stripping twice changes nothing more. */
  lemma StripIdempotent(s: string)
    ensures Strip(Strip(s)) == Strip(s)
  {
    var r := Strip(s);
    TrimStartNoop(r);
    TrimEndNoop(r);
  }

  lemma TrimStartNoop(s: string)
    requires |s| == 0 || !IsSpace(s[0])
    ensures TrimStart(s) == s
  {
  }

  lemma TrimEndNoop(s: string)
    requires |s| == 0 || !IsSpace(s[|s| - 1])
    ensures TrimEnd(s) == s
  {
  }
}
