/**
 Python's whitespace handling on strings: `str.isspace`, `str.split()` with no
 separator, `' '.join`, and `str.strip()` with no argument.
 */
module Words {

  /**
   `str.isspace` for one character: the ASCII separators (tab, line feed,
   vertical tab, form feed, carriage return, the four information separators
   0x1C-0x1F and space) and the Unicode space and line-break characters.
   */
  predicate IsSpace(c: char)
  {
    || c == ' '
    || '\t' <= c <= '\r'
    || '\U{1C}' <= c <= '\U{1F}'
    || c == '\U{85}' || c == '\U{A0}' || c == '\U{1680}'
    || '\U{2000}' <= c <= '\U{200A}'
    || c == '\U{2028}' || c == '\U{2029}' || c == '\U{202F}' || c == '\U{205F}'
    || c == '\U{3000}'
  }

  predicate AllSpace(s: string)
  {
    forall i :: 0 <= i < |s| ==> IsSpace(s[i])
  }

  predicate NoSpace(s: string)
  {
    forall i :: 0 <= i < |s| ==> !IsSpace(s[i])
  }

  /** A word as `split()` produces it: a non-empty run of non-whitespace. */
  predicate IsWord(w: string)
  {
    |w| > 0 && NoSpace(w)
  }

  predicate AllWords(ws: seq<string>)
  {
    forall i :: 0 <= i < |ws| ==> IsWord(ws[i])
  }

  /** No whitespace at either end. */
  predicate NoEdgeSpace(s: string)
  {
    |s| == 0 || (!IsSpace(s[0]) && !IsSpace(s[|s| - 1]))
  }

  /** Every whitespace character is a plain space. */
  predicate OnlyPlainSpaces(s: string)
  {
    forall i :: 0 <= i < |s| && IsSpace(s[i]) ==> s[i] == ' '
  }

  /** No two whitespace characters are adjacent. */
  predicate NoDoubleSpace(s: string)
  {
    forall i :: 1 <= i < |s| && IsSpace(s[i]) ==> !IsSpace(s[i - 1])
  }

  /** Words separated by single plain spaces, with nothing at either end. */
  predicate SingleSpaced(s: string)
  {
    NoEdgeSpace(s) && OnlyPlainSpaces(s) && NoDoubleSpace(s)
  }

  /** Concatenation of a sequence of sequences, in order. */
  function Concat<T>(ss: seq<seq<T>>): (r: seq<T>)
  {
    if ss == [] then [] else ss[0] + Concat(ss[1..])
  }

  /** The word collected so far, if any. */
  function Flush(cur: string): seq<string>
  {
    if cur == [] then [] else [cur]
  }

  /**
   The left-to-right scan behind `split()`: `cur` is the word being read;
   whitespace ends it, and the end of the text ends it.
   */
  function WordsFrom(s: string, cur: string): seq<string>
    decreases |s|
  {
    if s == [] then Flush(cur)
    else if IsSpace(s[0]) then Flush(cur) + WordsFrom(s[1..], [])
    else WordsFrom(s[1..], cur + [s[0]])
  }

  lemma {:induction false} WordsFromWords(s: string, cur: string)
    requires NoSpace(cur)
    ensures AllWords(WordsFrom(s, cur))
    ensures WordsFrom(s, cur) == [] <==> cur == [] && AllSpace(s)
    decreases |s|
  {
    if s == [] {
    } else if IsSpace(s[0]) {
      WordsFromWords(s[1..], []);
      if AllSpace(s[1..]) {
        assert forall i :: 1 <= i < |s| ==> s[i] == s[1..][i - 1];
      }
    } else {
      WordsFromWords(s[1..], cur + [s[0]]);
    }
  }

  /** Reading a non-whitespace character extends the current word. */
  lemma WordsFromLetter(c: char, t: string, cur: string)
    requires !IsSpace(c)
    ensures WordsFrom([c] + t, cur) == WordsFrom(t, cur + [c])
  {
    assert ([c] + t)[0] == c && ([c] + t)[1..] == t;
  }

  /** Reading a whitespace character ends the current word. */
  lemma WordsFromSpace(c: char, t: string, cur: string)
    requires IsSpace(c)
    ensures WordsFrom([c] + t, cur) == Flush(cur) + WordsFrom(t, [])
  {
    assert ([c] + t)[0] == c && ([c] + t)[1..] == t;
  }

  /** `str.split()`: the maximal runs of non-whitespace, in order. */
  function Split(s: string): (ws: seq<string>)
    ensures AllWords(ws)
    ensures ws == [] <==> AllSpace(s)
  {
    WordsFromWords(s, []);
    WordsFrom(s, [])
  }

  /** `' '.join(ws)` */
  function Join(ws: seq<string>): string
  {
    if ws == [] then [] else if |ws| == 1 then ws[0] else ws[0] + " " + Join(ws[1..])
  }

  /** Reading a whitespace-free prefix only extends the current word. */
  lemma {:induction false} WordsFromAppendWord(w: string, t: string, cur: string)
    requires NoSpace(w)
    ensures WordsFrom(w + t, cur) == WordsFrom(t, cur + w)
    decreases |w|
  {
    if w == [] {
      assert w + t == t && cur + w == cur;
    } else {
      assert (w + t)[0] == w[0] && (w + t)[1..] == w[1..] + t;
      WordsFromAppendWord(w[1..], t, cur + [w[0]]);
      assert cur + [w[0]] + w[1..] == cur + w;
    }
  }

  /** Splitting words joined by single spaces gives the words back. */
  lemma {:induction false} SplitJoin(ws: seq<string>)
    requires AllWords(ws)
    ensures Split(Join(ws)) == ws
    decreases |ws|
  {
    if ws == [] {
    } else if |ws| == 1 {
      WordsFromAppendWord(ws[0], [], []);
      assert ws[0] + [] == ws[0] && [] + ws[0] == ws[0];
    } else {
      var rest := " " + Join(ws[1..]);
      assert Join(ws) == ws[0] + rest;
      WordsFromAppendWord(ws[0], rest, []);
      assert [] + ws[0] == ws[0];
      assert rest[0] == ' ' && rest[1..] == Join(ws[1..]);
      SplitJoin(ws[1..]);
      assert ws == [ws[0]] + ws[1..];
    }
  }

  /** Words joined by single spaces have no leading, trailing or doubled whitespace. */
  lemma {:induction false} JoinSingleSpaced(ws: seq<string>)
    requires AllWords(ws)
    ensures SingleSpaced(Join(ws))
    ensures ws != [] ==> |Join(ws)| > 0 && Join(ws)[0] == ws[0][0]
    decreases |ws|
  {
    if |ws| > 1 {
      JoinSingleSpaced(ws[1..]);
      var w, j := ws[0], Join(ws[1..]);
      var r := w + " " + j;
      assert Join(ws) == r;
      assert IsWord(w) && IsWord(ws[1]);
      assert |j| > 0 && !IsSpace(j[0]) && !IsSpace(j[|j| - 1]);
      forall i | 0 <= i < |r| && IsSpace(r[i])
        ensures r[i] == ' '
      {
        if i > |w| {
          assert r[i] == j[i - |w| - 1];
        }
      }
      forall i | 1 <= i < |r| && IsSpace(r[i])
        ensures !IsSpace(r[i - 1])
      {
        if i > |w| + 1 {
          assert r[i] == j[i - |w| - 1] && r[i - 1] == j[i - 1 - |w| - 1];
        }
      }
    }
  }

  /** The length of the leading run of non-whitespace of `s`. */
  function WordEnd(s: string): (k: nat)
    ensures k <= |s|
    ensures forall i :: 0 <= i < k ==> !IsSpace(s[i])
    ensures k == |s| || IsSpace(s[k])
    decreases |s|
  {
    if |s| > 0 && !IsSpace(s[0]) then 1 + WordEnd(s[1..]) else 0
  }

  /** Single-spaced text is its own words joined by single spaces. */
  lemma {:induction false} SingleSpacedJoin(x: string)
    requires SingleSpaced(x)
    ensures Join(Split(x)) == x
    decreases |x|
  {
    var k := WordEnd(x);
    if k == |x| {
      if x != [] {
        SplitOneWord(x);
      }
    } else {
      var w, rest := x[..k], x[k + 1..];
      SingleSpacedTail(x, k);
      SplitWordThenRest(w, rest);
      SingleSpacedJoin(rest);
      JoinCons(w, Split(rest));
    }
  }

  /** A single word splits to itself. */
  lemma SplitOneWord(w: string)
    requires IsWord(w)
    ensures Split(w) == [w]
  {
    WordsFromAppendWord(w, [], []);
    assert w + [] == w && [] + w == w;
  }

  /** Single-spaced text with a space after its first word: the word, one space, and single-spaced text. */
  lemma SingleSpacedTail(x: string, k: nat)
    requires SingleSpaced(x) && k < |x| && k == WordEnd(x)
    ensures x == x[..k] + ([' '] + x[k + 1..])
    ensures IsWord(x[..k]) && SingleSpaced(x[k + 1..]) && |x[k + 1..]| > 0
  {
    var rest := x[k + 1..];
    assert k > 0 && x[k] == ' ';
    assert forall i :: 0 <= i < |rest| ==> rest[i] == x[k + 1 + i];
  }

  /** A word followed by a space splits off as the first word. */
  lemma SplitWordThenRest(w: string, rest: string)
    requires IsWord(w)
    ensures Split(w + ([' '] + rest)) == [w] + Split(rest)
  {
    WordsFromAppendWord(w, [' '] + rest, []);
    assert [] + w == w;
    WordsFromSpace(' ', rest, w);
  }

  /** Joining a word in front of further words puts one space between. */
  lemma JoinCons(w: string, ws: seq<string>)
    requires ws != []
    ensures Join([w] + ws) == w + ([' '] + Join(ws))
  {
    assert ([w] + ws)[1..] == ws;
  }

  /** The length of the leading whitespace of `s`. */
  function LeadingSpace(s: string): (k: nat)
    ensures k <= |s|
    ensures forall i :: 0 <= i < k ==> IsSpace(s[i])
    ensures k == |s| || !IsSpace(s[k])
    decreases |s|
  {
    if |s| > 0 && IsSpace(s[0]) then 1 + LeadingSpace(s[1..]) else 0
  }

  /** The position where the trailing whitespace of `s` starts. */
  function TrailingStart(s: string): (k: nat)
    ensures k <= |s|
    ensures forall i :: k <= i < |s| ==> IsSpace(s[i])
    ensures k == 0 || !IsSpace(s[k - 1])
    decreases |s|
  {
    if |s| > 0 && IsSpace(s[|s| - 1]) then TrailingStart(s[..|s| - 1]) else |s|
  }

  /** `str.lstrip()` */
  function LStrip(s: string): string
  {
    s[LeadingSpace(s)..]
  }

  /**
   `str.strip()`: the result is a slice of the input with whitespace only
   outside it and no whitespace at its ends.
   */
  function Strip(s: string): (r: string)
    ensures NoEdgeSpace(r)
    ensures var a := LeadingSpace(s);
      && a + |r| <= |s|
      && r == s[a..a + |r|]
      && (forall i :: 0 <= i < a ==> IsSpace(s[i]))
      && (forall i :: a + |r| <= i < |s| ==> IsSpace(s[i]))
  {
    var l := LStrip(s);
    var r := l[..TrailingStart(l)];
    assert |r| > 0 ==> r[0] == l[0];
    r
  }

  /** Leading whitespace before a fresh word does not change the words. */
  lemma {:induction false} WordsFromLStrip(s: string)
    ensures WordsFrom(LStrip(s), []) == WordsFrom(s, [])
    decreases |s|
  {
    if |s| > 0 && IsSpace(s[0]) {
      WordsFromLStrip(s[1..]);
      assert LStrip(s) == LStrip(s[1..]);
    }
  }

  /** Trailing whitespace does not change the words. */
  lemma {:induction false} WordsFromSpaceSuffix(t: string, sp: string, cur: string)
    requires AllSpace(sp)
    ensures WordsFrom(t + sp, cur) == WordsFrom(t, cur)
    decreases |t| + |sp|
  {
    if t == [] {
      if sp != [] {
        WordsFromSpaceSuffix([], sp[1..], []);
        assert [] + sp == sp && [] + sp[1..] == sp[1..];
        WordsFromWords(sp[1..], []);
      }
    } else {
      assert (t + sp)[0] == t[0] && (t + sp)[1..] == t[1..] + sp;
      if IsSpace(t[0]) {
        WordsFromSpaceSuffix(t[1..], sp, []);
      } else {
        WordsFromSpaceSuffix(t[1..], sp, cur + [t[0]]);
      }
    }
  }

  /** Stripping never changes the words of a text. */
  lemma SplitStrip(s: string)
    ensures Split(Strip(s)) == Split(s)
  {
    var a := LeadingSpace(s);
    var l := LStrip(s);
    var r := Strip(s);
    var tail := l[|r|..];
    assert l == r + tail;
    assert AllSpace(tail) by {
      assert forall i :: 0 <= i < |tail| ==> tail[i] == s[a + |r| + i];
    }
    WordsFromLStrip(s);
    WordsFromSpaceSuffix(r, tail, []);
  }
}
