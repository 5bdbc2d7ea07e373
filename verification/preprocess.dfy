/**
 `clean_text` from preprocess.py (repeated verbatim in
 textgraphai/utils/enhanced_preprocess.py): the `\s+` collapse, the
 `\[.*?\]` removal and the final strip, each as a left-to-right scan.
 */
module Preprocess {
  import opened Wrappers
  import opened Words

  /** No '[' is followed, anywhere later, by a ']'. */
  predicate NoBracketPair(s: string)
  {
    forall i, j :: 0 <= i < j < |s| && s[i] == '[' ==> s[j] != ']'
  }

  /**
   `re.sub(r'\s+', ' ', s)`: the leftmost match of `\s+` is a maximal run of
   whitespace, and each such run becomes one plain space.
   */
  function CollapseSpace(s: string): (r: string)
    ensures OnlyPlainSpaces(r)
    ensures NoDoubleSpace(r)
    ensures |s| > 0 ==> |r| > 0 && r[0] == (if IsSpace(s[0]) then ' ' else s[0])
    ensures |s| > 0 ==> |r| > 0 && r[|r| - 1] == (if IsSpace(s[|s| - 1]) then ' ' else s[|s| - 1])
    ensures forall c :: c in r && c != ' ' ==> c in s
    decreases |s|
  {
    if s == [] then []
    else if IsSpace(s[0]) then
      var t := LStrip(s);
      var rest := CollapseSpace(t);
      assert |rest| > 0 ==> !IsSpace(rest[0]);
      assert forall c :: c in rest && c != ' ' ==> c in s;
      assert |t| > 0 ==> t[|t| - 1] == s[|s| - 1];
      assert |t| == 0 ==> IsSpace(s[|s| - 1]);
      [' '] + rest
    else
      var rest := CollapseSpace(s[1..]);
      assert forall c :: c in rest && c != ' ' ==> c in s;
      [s[0]] + rest
  }

  /** Collapsing whitespace does not change the words, whatever word is being read. */
  lemma {:induction false} WordsFromCollapse(s: string, cur: string)
    ensures WordsFrom(CollapseSpace(s), cur) == WordsFrom(s, cur)
    decreases |s|
  {
    if s == [] {
    } else if IsSpace(s[0]) {
      var rest := CollapseSpace(LStrip(s));
      assert CollapseSpace(s) == [' '] + rest;
      assert ([' '] + rest)[1..] == rest;
      WordsFromCollapse(LStrip(s), []);
      assert LStrip(s) == LStrip(s[1..]);
      WordsFromLStrip(s[1..]);
    } else {
      var rest := CollapseSpace(s[1..]);
      assert CollapseSpace(s) == [s[0]] + rest;
      assert ([s[0]] + rest)[1..] == rest;
      WordsFromCollapse(s[1..], cur + [s[0]]);
    }
  }

  /** `\s+` collapsing keeps exactly the words of the text. */
  lemma CollapseSpaceWords(s: string)
    ensures Split(CollapseSpace(s)) == Split(s)
  {
    WordsFromCollapse(s, []);
  }

  /**
   Where the lazy `.*?` after a '[' stops: the index in `t` of the first ']',
   provided no line feed comes before it (`.` does not match a line feed).
   */
  function CloseIndex(t: string): (r: Option<nat>)
    ensures r.Some? ==> r.value < |t| && t[r.value] == ']'
    ensures r.None? && '\n' !in t ==> ']' !in t
    decreases |t|
  {
    if t == [] then None
    else if t[0] == ']' then Some(0)
    else if t[0] == '\n' then None
    else
      match CloseIndex(t[1..])
      case Some(k) => Some(k + 1)
      case None => assert t == [t[0]] + t[1..]; None
  }

  /**
   `re.sub(r'\[.*?\]', '', s)`: scanning left to right, a '[' with a
   reachable ']' is deleted together with everything up to the first such
   ']'; any other character is kept.
   */
  function StripBrackets(s: string): (r: string)
    ensures |r| <= |s|
    ensures forall c :: c in r ==> c in s
    ensures '[' !in s || ']' !in s ==> r == s
    ensures '\n' !in s ==> NoBracketPair(r)
    decreases |s|
  {
    if s == [] then []
    else if s[0] == '[' then
      match CloseIndex(s[1..])
      case Some(k) =>
        assert s[k + 1] == ']';
        SuffixChars(s, k + 2);
        StripBrackets(s[k + 2..])
      case None =>
        var rest := StripBrackets(s[1..]);
        SuffixChars(s, 1);
        assert '\n' !in s ==> NoBracketPair([s[0]] + rest) by {
          if '\n' !in s {
            ConsBrackets(s[0], rest);
          }
        }
        [s[0]] + rest
    else
      var rest := StripBrackets(s[1..]);
      SuffixChars(s, 1);
      assert '\n' !in s ==> NoBracketPair([s[0]] + rest) by {
        if '\n' !in s {
          ConsBrackets(s[0], rest);
        }
      }
      [s[0]] + rest
  }

  lemma SuffixChars(s: string, k: nat)
    requires k <= |s|
    ensures forall c :: c in s[k..] ==> c in s
  {
  }

  /** Putting a character in front keeps the bracket property, unless it opens a pair. */
  lemma ConsBrackets(c: char, rest: string)
    requires NoBracketPair(rest)
    requires c == '[' ==> ']' !in rest
    ensures NoBracketPair([c] + rest)
  {
    var r := [c] + rest;
    assert forall j :: 1 <= j < |r| ==> r[j] == rest[j - 1];
  }

  /** A slice keeps the plain-space and bracket-pair properties of the text it is cut from. */
  lemma SliceKeeps(t: string, a: nat, b: nat)
    requires a <= b <= |t|
    ensures OnlyPlainSpaces(t) ==> OnlyPlainSpaces(t[a..b])
    ensures NoBracketPair(t) ==> NoBracketPair(t[a..b])
    ensures NoDoubleSpace(t) ==> NoDoubleSpace(t[a..b])
  {
    var r := t[a..b];
    assert forall i :: 0 <= i < |r| ==> r[i] == t[a + i];
  }

  /**
   `clean_text`: collapse whitespace runs to one space, delete `[...]`
   spans, then strip.
   */
  function CleanText(s: string): (r: string)
    ensures NoEdgeSpace(r)
    ensures OnlyPlainSpaces(r)
    ensures NoBracketPair(r)
    ensures AllSpace(s) ==> r == []
    ensures '[' !in s ==> Split(r) == Split(s)
    ensures '[' !in s ==> r == Join(Split(s))
  {
    var collapsed := CollapseSpace(s);
    CollapseNoLineFeed(s);
    var t := StripBrackets(collapsed);
    BracketsKeepPlain(collapsed);
    var r := Strip(t);
    var a := LeadingSpace(t);
    SliceKeeps(t, a, a + |r|);
    BlankCleans(s);
    PlainCleanKeepsWords(s);
    r
  }

  /**
   Without brackets to delete, the three steps of cleaning keep the words of
   the text and leave exactly one plain space between neighbouring words.
   */
  lemma PlainCleanKeepsWords(s: string)
    ensures '[' !in s ==> Split(Strip(StripBrackets(CollapseSpace(s)))) == Split(s)
    ensures '[' !in s ==> Strip(StripBrackets(CollapseSpace(s))) == Join(Split(s))
  {
    if '[' !in s {
      var collapsed := CollapseSpace(s);
      assert '[' !in collapsed;
      CollapseSpaceWords(s);
      SplitStrip(collapsed);
      var r := Strip(collapsed);
      var a := LeadingSpace(collapsed);
      SliceKeeps(collapsed, a, a + |r|);
      SingleSpacedJoin(r);
    }
  }

  /** The collapse leaves no line feed behind. */
  lemma CollapseNoLineFeed(s: string)
    ensures '\n' !in CollapseSpace(s)
  {
    var c := CollapseSpace(s);
    assert forall i :: 0 <= i < |c| ==> c[i] != '\n';
  }

  /** Removing bracketed spans keeps text whose only whitespace is plain spaces that way. */
  lemma BracketsKeepPlain(s: string)
    requires OnlyPlainSpaces(s)
    ensures OnlyPlainSpaces(StripBrackets(s))
  {
    var t := StripBrackets(s);
    forall i | 0 <= i < |t| && IsSpace(t[i])
      ensures t[i] == ' '
    {
      assert t[i] in s;
    }
  }

  /** All-whitespace text collapses, loses no brackets, and strips to nothing. */
  lemma BlankCleans(s: string)
    ensures AllSpace(s) ==> Strip(StripBrackets(CollapseSpace(s))) == []
  {
    if AllSpace(s) {
      var collapsed := CollapseSpace(s);
      CollapseSpaceWords(s);
      assert AllSpace(collapsed);
      assert '[' !in collapsed;
    }
  }

  /** Text whose only whitespace is single plain spaces is left as it is by the collapse. */
  lemma {:induction false} CollapseFixed(s: string)
    requires OnlyPlainSpaces(s) && NoDoubleSpace(s)
    ensures CollapseSpace(s) == s
    decreases |s|
  {
    if s != [] {
      var t := s[1..];
      assert s == [s[0]] + t;
      assert OnlyPlainSpaces(t) && NoDoubleSpace(t) by {
        assert forall i :: 0 <= i < |t| ==> t[i] == s[i + 1];
      }
      if IsSpace(s[0]) {
        assert |t| == 0 || !IsSpace(t[0]);
        assert LeadingSpace(t) == 0;
        assert LStrip(s) == t;
      }
      CollapseFixed(t);
    }
  }

  /** Collapsing whitespace twice is the same as collapsing it once. */
  lemma CollapseIdempotent(s: string)
    ensures CollapseSpace(CollapseSpace(s)) == CollapseSpace(s)
  {
    CollapseFixed(CollapseSpace(s));
  }

  /** A non-whitespace character is copied by the collapse. */
  lemma CollapseKeep(c: char, t: string)
    requires !IsSpace(c)
    ensures CollapseSpace([c] + t) == [c] + CollapseSpace(t)
  {
    assert ([c] + t)[1..] == t;
  }

  /** A single whitespace character before a non-whitespace one becomes one space. */
  lemma CollapseOneSpace(c: char, t: string)
    requires IsSpace(c) && |t| > 0 && !IsSpace(t[0])
    ensures CollapseSpace([c] + t) == [' '] + CollapseSpace(t)
  {
    var s := [c] + t;
    assert s[1..] == t;
    assert LeadingSpace(t) == 0;
    assert LeadingSpace(s) == 1;
    assert LStrip(s) == t;
  }

  /** Two whitespace characters before a non-whitespace one become one space. */
  lemma CollapseTwoSpaces(c: char, d: char, t: string)
    requires IsSpace(c) && IsSpace(d) && |t| > 0 && !IsSpace(t[0])
    ensures CollapseSpace([c, d] + t) == [' '] + CollapseSpace(t)
  {
    var s := [c, d] + t;
    assert s[1..] == [d] + t && ([d] + t)[1..] == t;
    assert LeadingSpace(t) == 0;
    assert LeadingSpace([d] + t) == 1;
    assert LeadingSpace(s) == 2;
    assert LStrip(s) == t;
  }

  /** A character other than '[' is copied by the bracket removal. */
  lemma BracketKeep(c: char, t: string)
    requires c != '['
    ensures StripBrackets([c] + t) == [c] + StripBrackets(t)
  {
    assert ([c] + t)[0] == c && ([c] + t)[1..] == t;
  }

  /** Text without '[' in front of the rest is copied unchanged. */
  lemma {:induction false} StripBracketsPrefix(u: string, v: string)
    requires '[' !in u
    ensures StripBrackets(u + v) == u + StripBrackets(v)
    decreases |u|
  {
    if u == [] {
      assert u + v == v;
    } else {
      var w := StripBrackets(v);
      assert u + v == [u[0]] + (u[1..] + v);
      assert '[' !in u[1..];
      BracketKeep(u[0], u[1..] + v);
      StripBracketsPrefix(u[1..], v);
      HeadTail(u, w);
    }
  }

  /** Re-attaching the first element of a non-empty sequence. */
  lemma HeadTail(u: string, w: string)
    requires u != []
    ensures [u[0]] + (u[1..] + w) == u + w
  {
    assert u == [u[0]] + u[1..];
  }

  /** The lazy `.*?` stops at the first ']' when no line feed comes before it. */
  lemma {:induction false} CloseIndexAt(x: string, t: string)
    requires ']' !in x && '\n' !in x
    ensures CloseIndex(x + [']'] + t) == Some(|x|)
    decreases |x|
  {
    if x == [] {
      assert (x + [']'] + t)[0] == ']';
    } else {
      assert (x + [']'] + t)[1..] == x[1..] + [']'] + t;
      CloseIndexAt(x[1..], t);
    }
  }

  /** A line feed before any ']' leaves a '[' without a match. */
  lemma {:induction false} CloseIndexNewline(x: string, t: string)
    requires ']' !in x
    ensures CloseIndex(x + ['\n'] + t) == None
    decreases |x|
  {
    if x == [] {
      assert (x + ['\n'] + t)[0] == '\n';
    } else {
      assert (x + ['\n'] + t)[1..] == x[1..] + ['\n'] + t;
      CloseIndexNewline(x[1..], t);
    }
  }

  /**
   A '[' followed, on the same line, by a ']' is deleted together with
   everything up to that first ']', and nothing after it is touched.
   */
  lemma StripBracketsSpan(x: string, v: string)
    requires ']' !in x && '\n' !in x
    ensures StripBrackets(['['] + x + [']'] + v) == StripBrackets(v)
  {
    var s := ['['] + x + [']'] + v;
    assert s[1..] == x + [']'] + v;
    CloseIndexAt(x, v);
    assert s[|x| + 2..] == v;
  }

  /**
   A '[' with no ']' before the next line feed, or with none at all, is
   kept, and the removal carries on right after it.
   */
  lemma StripBracketsUnclosed(x: string, v: string)
    requires ']' !in x
    ensures StripBrackets(['['] + x + ['\n'] + v) == ['['] + StripBrackets(x + ['\n'] + v)
    ensures StripBrackets(['['] + x) == ['['] + StripBrackets(x)
  {
    var s := ['['] + x + ['\n'] + v;
    assert s[1..] == x + ['\n'] + v;
    CloseIndexNewline(x, v);
    assert (['['] + x)[1..] == x;
  }

  /**
   Collapsing two pieces separately gives the same text as collapsing them
   together, unless a whitespace run straddles the join.
   */
  lemma {:induction false} CollapseAppend(a: string, b: string)
    requires a == [] || b == [] || !IsSpace(a[|a| - 1]) || !IsSpace(b[0])
    ensures CollapseSpace(a + b) == CollapseSpace(a) + CollapseSpace(b)
    decreases |a|
  {
    if a == [] {
      assert a + b == b;
    } else if b == [] {
      assert a + b == a;
    } else {
      var t := a[1..];
      assert a == [a[0]] + t;
      assert a + b == [a[0]] + (t + b);
      if t != [] {
        assert t[|t| - 1] == a[|a| - 1];
      }
      if !IsSpace(a[0]) {
        CollapseKeep(a[0], t + b);
        CollapseKeep(a[0], t);
        CollapseAppend(t, b);
        HeadTailChar(a[0], CollapseSpace(t), CollapseSpace(b));
      } else if t == [] {
        CollapseOneSpace(a[0], b);
        assert CollapseSpace(a) == [' '] by {
          assert LStrip(a) == [];
        }
      } else if !IsSpace(t[0]) {
        CollapseOneSpace(a[0], t + b);
        CollapseOneSpace(a[0], t);
        CollapseAppend(t, b);
        HeadTailChar(' ', CollapseSpace(t), CollapseSpace(b));
      } else {
        CollapseSpaceStep(a[0], t + b);
        CollapseSpaceStep(a[0], t);
        CollapseAppend(t, b);
      }
    }
  }

  lemma HeadTailChar(c: char, t: string, w: string)
    ensures [c] + (t + w) == ([c] + t) + w
  {
  }

  /** A whitespace character in front of another one adds nothing to the collapse. */
  lemma CollapseSpaceStep(c: char, t: string)
    requires IsSpace(c) && |t| > 0 && IsSpace(t[0])
    ensures CollapseSpace([c] + t) == CollapseSpace(t)
  {
    var s := [c] + t;
    assert s[1..] == t;
    assert LeadingSpace(s) == 1 + LeadingSpace(t);
    assert LStrip(s) == LStrip(t);
  }

  /**
   `clean_text` deletes a bracketed span as if it had never been there,
   whatever its content, provided the text before it has no '[' and the
   span does not separate two whitespace runs (when it does, the runs
   collapse separately and two spaces are left, as
   `CleanTextNotIdempotent` shows).
   */
  lemma CleanTextDropsSpan(u: string, x: string, v: string)
    requires '[' !in u && ']' !in x
    requires u == [] || v == [] || !IsSpace(u[|u| - 1]) || !IsSpace(v[0])
    ensures CleanText(u + ['['] + x + [']'] + v) == CleanText(u + v)
  {
    var cu, cx := CollapseSpace(u), CollapseSpace(x);
    CollapseAround(u, x, v);
    CollapseAppend(u, v);
    assert '[' !in cu && ']' !in cx;
    CollapseNoLineFeed(x);
    SpanStripped(cu, cx, CollapseSpace(v));
  }

  /** When no whitespace run straddles the start of a span, the collapse works on each piece separately. */
  lemma CollapseAround(u: string, x: string, v: string)
    requires u == [] || v == [] || !IsSpace(u[|u| - 1]) || !IsSpace(v[0])
    ensures CollapseSpace(u + ['['] + x + [']'] + v)
      == CollapseSpace(u) + (['['] + CollapseSpace(x) + [']'] + CollapseSpace(v))
  {
    var span := ['['] + x + [']'] + v;
    assert u + ['['] + x + [']'] + v == u + span;
    CollapseAppend(u, span);
    CollapseSpan(x, v);
  }

  /** The collapse works inside and after a bracketed span separately. */
  lemma CollapseSpan(x: string, v: string)
    ensures CollapseSpace(['['] + x + [']'] + v) == ['['] + CollapseSpace(x) + [']'] + CollapseSpace(v)
  {
    var t := [']'] + v;
    var inner := x + t;
    assert ['['] + x + [']'] + v == ['['] + inner;
    CollapseKeep('[', inner);
    CollapseAppend(x, t);
    CollapseKeep(']', v);
    Regroup(CollapseSpace(x), CollapseSpace(v));
  }

  lemma Regroup(p: string, q: string)
    ensures ['['] + (p + ([']'] + q)) == ['['] + p + [']'] + q
  {
  }

  /** A span on one line after text without '[' is removed, and the rest is kept. */
  lemma SpanStripped(p: string, q: string, w: string)
    requires '[' !in p && ']' !in q && '\n' !in q
    ensures StripBrackets(p + (['['] + q + [']'] + w)) == StripBrackets(p + w)
  {
    StripBracketsPrefix(p, ['['] + q + [']'] + w);
    StripBracketsSpan(q, w);
    StripBracketsPrefix(p, w);
  }

  /** Text without whitespace at its ends is its own strip. */
  lemma StripFixed(s: string)
    requires NoEdgeSpace(s)
    ensures Strip(s) == s
  {
    assert LeadingSpace(s) == 0;
    assert TrailingStart(s) == |s|;
  }

  /**
   Whitespace is collapsed before brackets are deleted, so the spaces on
   both sides of a deleted span survive: "a [x] b" cleans to "a  b" (for
   any characters in place of a, x and b that are neither whitespace nor
   brackets), and cleaning that again gives "a b".
   */
  lemma CleanTextNotIdempotent(a: char, x: char, b: char)
    requires !IsSpace(a) && !IsSpace(x) && !IsSpace(b)
    requires a != '[' && b != '[' && x != ']'
    ensures CleanText([a, ' ', '[', x, ']', ' ', b]) == [a, ' ', ' ', b]
    ensures CleanText([a, ' ', ' ', b]) == [a, ' ', b]
    ensures CleanText(CleanText([a, ' ', '[', x, ']', ' ', b])) != CleanText([a, ' ', '[', x, ']', ' ', b])
  {
    var s := [a, ' ', '[', x, ']', ' ', b];
    var d := [a, ' ', ' ', b];
    CollapseSpanExample(a, x, b);
    BracketSpanExample(a, x, b);
    StripFixed(d);
    CollapseDoubleExample(a, b);
    assert StripBrackets([a, ' ', b]) == [a, ' ', b] by {
      assert '[' !in [a, ' ', b];
    }
    StripFixed([a, ' ', b]);
    assert d != [a, ' ', b];
  }

  lemma CollapseSpanExample(a: char, x: char, b: char)
    requires !IsSpace(a) && !IsSpace(x) && !IsSpace(b)
    ensures CollapseSpace([a, ' ', '[', x, ']', ' ', b]) == [a, ' ', '[', x, ']', ' ', b]
  {
    var s := [a, ' ', '[', x, ']', ' ', b];
    assert OnlyPlainSpaces(s) && NoDoubleSpace(s) by {
      assert forall i :: 0 <= i < |s| && i != 1 && i != 5 ==> !IsSpace(s[i]);
    }
    CollapseFixed(s);
  }

  lemma CollapseDoubleExample(a: char, b: char)
    requires !IsSpace(a) && !IsSpace(b)
    ensures CollapseSpace([a, ' ', ' ', b]) == [a, ' ', b]
  {
    CollapseKeep(b, []);
    CollapseTwoSpaces(' ', ' ', [b]);
    CollapseKeep(a, [' ', ' ', b]);
    assert [a, ' ', ' ', b] == [a] + ([' ', ' '] + [b]);
    assert [b] == [b] + [];
  }

  lemma BracketSpanExample(a: char, x: char, b: char)
    requires !IsSpace(x) && a != '[' && b != '[' && x != ']'
    ensures StripBrackets([a, ' ', '[', x, ']', ' ', b]) == [a, ' ', ' ', b]
  {
    var tail := ['[', x, ']', ' ', b];
    assert [a, ' ', '[', x, ']', ' ', b] == [a] + ([' '] + tail);
    assert [a, ' ', ' ', b] == [a] + ([' '] + [' ', b]);
    BracketDropExample(x, b);
    BracketKeep(' ', tail);
    BracketKeep(a, [' '] + tail);
  }

  lemma BracketDropExample(x: char, b: char)
    requires !IsSpace(x) && b != '[' && x != ']'
    ensures StripBrackets(['[', x, ']', ' ', b]) == [' ', b]
  {
    var tail := ['[', x, ']', ' ', b];
    assert CloseIndex([x, ']', ' ', b]) == Some(1) by {
      assert [x, ']', ' ', b][1..] == [']', ' ', b];
    }
    assert tail[1..] == [x, ']', ' ', b] && tail[3..] == [' ', b];
    assert '[' !in [' ', b];
  }

  /**
   On its own the bracket pattern does not reach across a line feed, so
   "[a\nb]" is kept; `clean_text` turns the line feed into a space first,
   and the whole span is deleted. Any characters that are neither
   whitespace nor brackets may stand in place of a and b.
   */
  lemma BracketAcrossLines(a: char, b: char)
    requires !IsSpace(a) && !IsSpace(b)
    requires a != '[' && a != ']' && b != '[' && b != ']'
    ensures StripBrackets(['[', a, '\n', b, ']']) == ['[', a, '\n', b, ']']
    ensures CleanText(['[', a, '\n', b, ']']) == []
  {
    BracketLineExample(a, b);
    CollapseLineExample(a, b);
    BracketJoinedExample(a, b);
    assert Strip([]) == [];
  }

  lemma BracketLineExample(a: char, b: char)
    requires !IsSpace(a) && a != '[' && a != ']' && b != '['
    ensures StripBrackets(['[', a, '\n', b, ']']) == ['[', a, '\n', b, ']']
  {
    var s := ['[', a, '\n', b, ']'];
    assert s[1..] == [a, '\n', b, ']'];
    assert CloseIndex([a, '\n', b, ']']) == None by {
      assert [a, '\n', b, ']'][1..] == ['\n', b, ']'];
    }
    assert '[' !in s[1..];
  }

  lemma CollapseLineExample(a: char, b: char)
    requires !IsSpace(a) && !IsSpace(b)
    ensures CollapseSpace(['[', a, '\n', b, ']']) == ['[', a, ' ', b, ']']
  {
    assert [a, '\n', b, ']'] == [a] + ['\n', b, ']'];
    assert ['[', a, '\n', b, ']'] == ['['] + [a, '\n', b, ']'];
    assert ['[', a, ' ', b, ']'] == ['['] + ([a] + [' ', b, ']']);
    CollapseLineTail(b);
    CollapseKeep(a, ['\n', b, ']']);
    CollapseKeep('[', [a, '\n', b, ']']);
  }

  lemma CollapseLineTail(b: char)
    requires !IsSpace(b)
    ensures CollapseSpace(['\n', b, ']']) == [' ', b, ']']
  {
    assert [']'] == [']'] + [];
    assert [b, ']'] == [b] + [']'];
    assert ['\n', b, ']'] == ['\n'] + [b, ']'];
    assert [' ', b, ']'] == [' '] + ([b] + [']']);
    CollapseKeep(']', []);
    CollapseKeep(b, [']']);
    CollapseOneSpace('\n', [b, ']']);
  }

  lemma BracketJoinedExample(a: char, b: char)
    requires a != ']' && a != '\n' && b != ']' && b != '\n'
    ensures StripBrackets(['[', a, ' ', b, ']']) == []
  {
    var t := [a, ' ', b, ']'];
    assert CloseIndex(t) == Some(3) by {
      assert t[1..] == [' ', b, ']'] && t[1..][1..] == [b, ']'] && t[1..][1..][1..] == [']'];
    }
    assert ['[', a, ' ', b, ']'][1..] == t && ['[', a, ' ', b, ']'][5..] == [];
  }
}
