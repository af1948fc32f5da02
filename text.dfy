/**
 * The few Python `str` operations the core relies on, written out on
 * `seq<char>`: `sep.join(xs)`, `s.split(sep)`, `s.split()`, `s.strip()`,
 * `s.rstrip(chars)` and slicing past the end.
 */
module Text {

  /** Python's `str.isspace` for one character. */
  predicate IsSpace(c: char)
  {
    var n := c as int;
    (9 <= n <= 13) || (28 <= n <= 32) || n == 0x85 || n == 0xA0 || n == 0x1680
    || (0x2000 <= n <= 0x200A) || n == 0x2028 || n == 0x2029 || n == 0x202F
    || n == 0x205F || n == 0x3000
  }

  predicate IsNewline(c: char) { c == '\n' }

  /** Python's `s[k:]`: empty once `k` is past the end. */
  function DropFront(s: string, k: nat): (r: string)
    ensures |s| <= k ==> r == ""
    ensures k < |s| ==> s == s[..k] + r
  {
    if |s| <= k then "" else s[k..]
  }

  /** Python's `s[:k]`: the whole string when it is shorter than `k`. */
  function TakeFront(s: string, k: nat): (r: string)
    ensures |r| == if |s| < k then |s| else k
    ensures r <= s
  {
    if |s| <= k then s else s[..k]
  }

  /** Python's `sep.join(xs)`. */
  function JoinWith(sep: string, xs: seq<string>): string
    decreases |xs|
  {
    if |xs| == 0 then ""
    else if |xs| == 1 then xs[0]
    else xs[0] + sep + JoinWith(sep, xs[1..])
  }

  /** Joining two non-empty lists puts one separator between their joins. */
  lemma {:induction false} JoinAppend(sep: string, xs: seq<string>, ys: seq<string>)
    requires |xs| >= 1 && |ys| >= 1
    ensures JoinWith(sep, xs + ys) == JoinWith(sep, xs) + sep + JoinWith(sep, ys)
    decreases |xs|
  {
    if |xs| == 1 {
      assert (xs + ys)[1..] == ys;
    } else {
      assert (xs + ys)[1..] == xs[1..] + ys;
      JoinAppend(sep, xs[1..], ys);
    }
  }

  /** Python's `s.split(sep)` for a one-character separator: empty pieces are kept. */
  function Split(s: string, sep: char): (r: seq<string>)
    ensures |r| >= 1
    ensures forall k :: 0 <= k < |r| ==> sep !in r[k]
    decreases |s|
  {
    if s == [] then [""]
    else
      var rest := Split(s[1..], sep);
      if s[0] == sep then [""] + rest
      else [[s[0]] + rest[0]] + rest[1..]
  }

  /** A separator in the middle splits the pieces of both sides apart. */
  lemma {:induction false} SplitAround(a: string, b: string, sep: char)
    ensures Split(a + [sep] + b, sep) == Split(a, sep) + Split(b, sep)
    decreases |a|
  {
    if a == [] {
      assert a + [sep] + b == [sep] + b;
      assert ([sep] + b)[1..] == b;
    } else {
      assert (a + [sep] + b)[1..] == a[1..] + [sep] + b;
      SplitAround(a[1..], b, sep);
    }
  }

  /** A string without the separator is one piece. */
  lemma {:induction false} SplitWithoutSeparator(s: string, sep: char)
    requires sep !in s
    ensures Split(s, sep) == [s]
    decreases |s|
  {
    if s != [] {
      SplitWithoutSeparator(s[1..], sep);
      assert [s[0]] + s[1..] == s;
    }
  }

  /** `split` undoes `join` when no piece holds the separator. */
  lemma {:induction false} SplitJoin(xs: seq<string>, sep: char)
    requires |xs| >= 1
    requires forall k :: 0 <= k < |xs| ==> sep !in xs[k]
    ensures Split(JoinWith([sep], xs), sep) == xs
    decreases |xs|
  {
    if |xs| == 1 {
      SplitWithoutSeparator(xs[0], sep);
    } else {
      SplitJoin(xs[1..], sep);
      SplitWithoutSeparator(xs[0], sep);
      SplitAround(xs[0], JoinWith([sep], xs[1..]), sep);
      assert xs[0] + [sep] + JoinWith([sep], xs[1..]) == JoinWith([sep], xs);
      assert [xs[0]] + xs[1..] == xs;
    }
  }

  /** Python's `s.split(sep)[-1]`: the text after the last separator. */
  function LastPiece(s: string, sep: char): (r: string)
    ensures sep !in r
    ensures |r| <= |s| && r == s[|s| - |r|..]
    ensures |r| < |s| ==> s[|s| - |r| - 1] == sep
  {
    LastPieceIsFinalSegment(s, sep);
    var pieces := Split(s, sep);
    pieces[|pieces| - 1]
  }

  lemma {:induction false} LastPieceIsFinalSegment(s: string, sep: char)
    ensures var p := Split(s, sep); var r := p[|p| - 1];
      |r| <= |s| && r == s[|s| - |r|..] && (|r| < |s| ==> s[|s| - |r| - 1] == sep)
      && (|p| == 1 ==> r == s) && (|p| > 1 ==> |r| < |s|)
    decreases |s|
  {
    if s != [] {
      var t := s[1..];
      LastPieceIsFinalSegment(t, sep);
      var rest := Split(t, sep);
      var p := Split(s, sep);
      var r1 := rest[|rest| - 1];
      assert t[|t| - |r1|..] == s[|s| - |r1|..];
      if |r1| < |t| {
        assert t[|t| - |r1| - 1] == s[|s| - |r1| - 1];
      }
      if s[0] == sep {
        assert p == [""] + rest;
        assert p[|p| - 1] == r1;
      } else if |rest| == 1 {
        assert p == [[s[0]] + rest[0]];
        assert [s[0]] + t == s;
      } else {
        assert p == [[s[0]] + rest[0]] + rest[1..];
        assert p[|p| - 1] == r1;
      }
    }
  }

  /** Python's `s.lstrip(...)` for the characters `drop` accepts. */
  function LStrip(s: string, drop: char -> bool): (r: string)
    ensures |r| <= |s| && r == s[|s| - |r|..]
    ensures forall k :: 0 <= k < |s| - |r| ==> drop(s[k])
    ensures r != [] ==> !drop(r[0])
    decreases |s|
  {
    if s != [] && drop(s[0]) then LStrip(s[1..], drop) else s
  }

  /** Python's `s.rstrip(...)` for the characters `drop` accepts. */
  function RStrip(s: string, drop: char -> bool): (r: string)
    ensures r <= s
    ensures forall k :: |r| <= k < |s| ==> drop(s[k])
    ensures r != [] ==> !drop(r[|r| - 1])
    decreases |s|
  {
    if s != [] && drop(s[|s| - 1]) then RStrip(s[..|s| - 1], drop) else s
  }

  /** Python's `s.strip()`. */
  function Strip(s: string): (r: string)
  {
    LStrip(RStrip(s, IsSpace), IsSpace)
  }

  /** `Strip` leaves the middle segment `s[i..j]`, with white space only around it. */
  lemma StripIsMiddle(s: string) returns (i: nat, j: nat)
    ensures i <= j <= |s| && Strip(s) == s[i..j]
    ensures forall k :: 0 <= k < i ==> IsSpace(s[k])
    ensures forall k :: j <= k < |s| ==> IsSpace(s[k])
    ensures Strip(s) != [] ==> !IsSpace(Strip(s)[0]) && !IsSpace(Strip(s)[|Strip(s)| - 1])
  {
    var t := RStrip(s, IsSpace);
    var r := LStrip(t, IsSpace);
    i, j := |t| - |r|, |t|;
    assert t == s[..j];
    assert r == s[i..j];
    forall k | 0 <= k < i ensures IsSpace(s[k]) {
      assert s[k] == t[k];
    }
    if r != [] {
      assert r[|r| - 1] == t[|t| - 1];
    }
  }

  /** The longest white-space-free prefix of a string that starts with a non-space. */
  function Word(s: string): (w: string)
    requires s != [] && !IsSpace(s[0])
    ensures 0 < |w| <= |s| && w == s[..|w|]
    ensures forall k :: 0 <= k < |w| ==> !IsSpace(w[k])
    ensures |w| < |s| ==> IsSpace(s[|w|])
    decreases |s|
  {
    if |s| == 1 || IsSpace(s[1]) then [s[0]] else [s[0]] + Word(s[1..])
  }

  /** Python's `s.split()`: the maximal runs of non-white-space characters. */
  function Words(s: string): (r: seq<string>)
    ensures forall k :: 0 <= k < |r| ==> r[k] != []
    ensures forall k, m :: 0 <= k < |r| && 0 <= m < |r[k]| ==> !IsSpace(r[k][m])
    decreases |s|
  {
    if s == [] then []
    else if IsSpace(s[0]) then Words(s[1..])
    else
      var w := Word(s);
      [w] + Words(s[|w|..])
  }

  /** A word followed by a space is exactly the word. */
  lemma {:induction false} WordBeforeSpace(w: string, rest: string)
    requires w != [] && forall k :: 0 <= k < |w| ==> !IsSpace(w[k])
    ensures Word(w + [' '] + rest) == w
    decreases |w|
  {
    var s := w + [' '] + rest;
    if |w| > 1 {
      assert s[1..] == w[1..] + [' '] + rest;
      WordBeforeSpace(w[1..], rest);
      assert [w[0]] + w[1..] == w;
    }
  }

  /** A word that fills the whole string. */
  lemma {:induction false} WordWhole(w: string)
    requires w != [] && forall k :: 0 <= k < |w| ==> !IsSpace(w[k])
    ensures Word(w) == w
    decreases |w|
  {
    if |w| > 1 {
      WordWhole(w[1..]);
      assert [w[0]] + w[1..] == w;
    }
  }

  /** A word that stops before the end of `s`, or before a space after it, is not changed by what follows. */
  lemma {:induction false} WordExtend(s: string, t: string)
    requires s != [] && !IsSpace(s[0])
    requires |Word(s)| < |s| || (t != [] && IsSpace(t[0]))
    ensures Word(s + t) == Word(s)
    decreases |s|
  {
    if |s| > 1 && !IsSpace(s[1]) {
      assert (s + t)[1..] == s[1..] + t;
      WordExtend(s[1..], t);
    }
  }

  /** `split()` cuts at every white-space character: the words on either side are kept apart and in order. */
  lemma {:induction false} WordsAroundSpace(a: string, c: char, b: string)
    requires IsSpace(c)
    ensures Words(a + [c] + b) == Words(a) + Words(b)
    decreases |a|
  {
    var s := a + [c] + b;
    if a == [] {
      assert s[1..] == b;
    } else if IsSpace(a[0]) {
      assert s[1..] == a[1..] + [c] + b;
      WordsAroundSpace(a[1..], c, b);
    } else {
      WordExtend(a, [c] + b);
      assert s == a + ([c] + b);
      var w := Word(a);
      assert Word(s) == w;
      assert s[|w|..] == a[|w|..] + [c] + b;
      WordsAroundSpace(a[|w|..], c, b);
      assert Words(s) == [w] + (Words(a[|w|..]) + Words(b));
      assert Words(a) == [w] + Words(a[|w|..]);
    }
  }

  /** `split()` of a single non-empty word without white space is that word. */
  lemma WordsSingle(w: string)
    requires w != [] && forall k :: 0 <= k < |w| ==> !IsSpace(w[k])
    ensures Words(w) == [w]
  {
    WordWhole(w);
    assert w[|w|..] == [];
  }

  /** `split()` of white space alone gives no words. */
  lemma {:induction false} WordsBlank(s: string)
    requires forall k :: 0 <= k < |s| ==> IsSpace(s[k])
    ensures Words(s) == []
    decreases |s|
  {
    if s != [] {
      WordsBlank(s[1..]);
    }
  }

  /** `s.split()` undoes `" ".join(ws)` when each word is non-empty and free of white space. */
  lemma {:induction false} WordsJoin(ws: seq<string>)
    requires forall k :: 0 <= k < |ws| ==> ws[k] != []
    requires forall k, m :: 0 <= k < |ws| && 0 <= m < |ws[k]| ==> !IsSpace(ws[k][m])
    ensures Words(JoinWith(" ", ws)) == ws
    decreases |ws|
  {
    if |ws| == 1 {
      WordWhole(ws[0]);
      assert ws[0][|ws[0]|..] == [];
    } else if |ws| > 1 {
      var rest := JoinWith(" ", ws[1..]);
      var s := ws[0] + [' '] + rest;
      assert s == JoinWith(" ", ws);
      WordBeforeSpace(ws[0], rest);
      assert s[|ws[0]|..] == [' '] + rest;
      assert ([' '] + rest)[1..] == rest;
      WordsJoin(ws[1..]);
      assert [ws[0]] + ws[1..] == ws;
    }
  }
}
