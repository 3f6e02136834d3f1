/** The Python string operations the renderer relies on, written out by hand:
    `str.split()`, `str.join`, `str.split(sep)`, `str.replace`, `str.rstrip`
    and `str.lstrip`. Strings are sequences of Unicode scalar values. */
module Text {

  /** Python's `str.isspace` for one character: the characters on which
      `str.split()` with no argument breaks. */
  predicate IsSpace(c: char) {
    || c == ' '
    || ('\t' <= c <= '\r')
    || ('\U{1C}' <= c <= '\U{1F}')
    || c == '\U{85}' || c == '\U{A0}' || c == '\U{1680}'
    || ('\U{2000}' <= c <= '\U{200A}')
    || c == '\U{2028}' || c == '\U{2029}' || c == '\U{202F}'
    || c == '\U{205F}' || c == '\U{3000}'
  }

  /** A token produced by `str.split()`: non-empty and free of whitespace. */
  predicate IsWord(w: string) {
    |w| > 0 && forall i :: 0 <= i < |w| ==> !IsSpace(w[i])
  }

  /** `sep.join(ws)`. */
  function Join(ws: seq<string>, sep: string): string
    decreases |ws|
  {
    if |ws| == 0 then ""
    else if |ws| == 1 then ws[0]
    else ws[0] + sep + Join(ws[1..], sep)
  }

  /** `"".join(ws)`. */
  function Concat(ws: seq<string>): string
    decreases |ws|
  {
    if |ws| == 0 then "" else ws[0] + Concat(ws[1..])
  }

  /** `s.endswith(t)`. */
  predicate EndsWith(s: string, t: string) {
    |t| <= |s| && s[|s| - |t|..] == t
  }

  /** A join starts with its first piece. */
  lemma JoinStartsWithFirst(ws: seq<string>, sep: string)
    requires |ws| > 0
    ensures ws[0] <= Join(ws, sep)
  {
  }

  // ---------------------------------------------------------------------------
  // str.split() with no argument

  /** Number of leading non-whitespace characters of `s`. */
  function WordLength(s: string): (n: nat)
    ensures n <= |s|
    ensures forall i :: 0 <= i < n ==> !IsSpace(s[i])
    ensures n < |s| ==> IsSpace(s[n])
  {
    if |s| == 0 || IsSpace(s[0]) then 0 else 1 + WordLength(s[1..])
  }

  /** Python's `s.split()`: the maximal whitespace-free runs of `s`, in order. */
  function Words(s: string): (ws: seq<string>)
    ensures forall i :: 0 <= i < |ws| ==> IsWord(ws[i])
    decreases |s|
  {
    if |s| == 0 then []
    else if IsSpace(s[0]) then Words(s[1..])
    else
      var n := WordLength(s);
      [s[..n]] + Words(s[n..])
  }

  /** The characters of `s` that are not whitespace, in order. */
  function NonSpace(s: string): string
    decreases |s|
  {
    if |s| == 0 then "" else (if IsSpace(s[0]) then "" else [s[0]]) + NonSpace(s[1..])
  }

  lemma {:induction false} NonSpaceAppend(a: string, b: string)
    ensures NonSpace(a + b) == NonSpace(a) + NonSpace(b)
    decreases |a|
  {
    if |a| > 0 {
      assert (a + b)[1..] == a[1..] + b;
      NonSpaceAppend(a[1..], b);
    } else {
      assert a + b == b;
    }
  }

  lemma {:induction false} NonSpaceOfWord(w: string)
    requires forall i :: 0 <= i < |w| ==> !IsSpace(w[i])
    ensures NonSpace(w) == w
    decreases |w|
  {
    if |w| > 0 {
      NonSpaceOfWord(w[1..]);
      assert w == [w[0]] + w[1..];
    }
  }

  /** `s.split()` loses exactly the whitespace: concatenating the words gives
      back every other character of `s`, in order. */
  lemma {:induction false} WordsKeepContent(s: string)
    ensures Concat(Words(s)) == NonSpace(s)
    decreases |s|
  {
    if |s| > 0 {
      if IsSpace(s[0]) {
        WordsKeepContent(s[1..]);
      } else {
        var n := WordLength(s);
        WordsKeepContent(s[n..]);
        assert Words(s)[1..] == Words(s[n..]);
        assert s == s[..n] + s[n..];
        NonSpaceAppend(s[..n], s[n..]);
        NonSpaceOfWord(s[..n]);
      }
    }
  }

  lemma {:induction false} WordLengthOfWord(w: string, t: string)
    requires forall i :: 0 <= i < |w| ==> !IsSpace(w[i])
    requires |t| == 0 || IsSpace(t[0])
    ensures WordLength(w + t) == |w|
    decreases |w|
  {
    if |w| > 0 {
      assert (w + t)[1..] == w[1..] + t;
      WordLengthOfWord(w[1..], t);
    } else {
      assert w + t == t;
    }
  }

  /** A word followed by whitespace (or nothing) is split off as one token. */
  lemma WordsAfterWord(w: string, t: string)
    requires IsWord(w)
    requires |t| == 0 || IsSpace(t[0])
    ensures Words(w + t) == [w] + Words(t)
  {
    WordLengthOfWord(w, t);
    assert (w + t)[..|w|] == w;
    assert (w + t)[|w|..] == t;
  }

  /** Whitespace before the first word is no separator of its own: a leading
      whitespace character is dropped, so runs of whitespace collapse. With
      `WordsAfterWord` and the empty text having no words, this fixes `Words`
      on every input. */
  lemma WordsSkipSpace(c: char, t: string)
    requires IsSpace(c)
    ensures Words([c] + t) == Words(t)
    ensures Words("") == []
  {
    assert ([c] + t)[1..] == t;
  }

  /** The three facts above pin `Words` down: any splitting that gives the
      empty text no words, drops a leading whitespace character and splits
      off a leading word ending at whitespace or at the end agrees with
      `Words` everywhere. */
  lemma {:induction false} WordsUnique(split: string -> seq<string>, s: string)
    requires split("") == []
    requires forall c, t :: IsSpace(c) ==> split([c] + t) == split(t)
    requires forall w, t :: IsWord(w) && (|t| == 0 || IsSpace(t[0])) ==> split(w + t) == [w] + split(t)
    ensures split(s) == Words(s)
    decreases |s|
  {
    if |s| > 0 {
      if IsSpace(s[0]) {
        assert s == [s[0]] + s[1..];
        WordsUnique(split, s[1..]);
      } else {
        var n := WordLength(s);
        var w, t := s[..n], s[n..];
        assert s == w + t;
        assert IsWord(w);
        WordsUnique(split, t);
      }
    }
  }

  /** Round trip: splitting words joined by single spaces gives the words back. */
  lemma {:induction false} WordsOfJoin(ws: seq<string>)
    requires forall i :: 0 <= i < |ws| ==> IsWord(ws[i])
    ensures Words(Join(ws, " ")) == ws
    decreases |ws|
  {
    if |ws| == 1 {
      WordsAfterWord(ws[0], "");
      assert ws[0] + "" == ws[0];
    } else if |ws| > 1 {
      var tail := Join(ws[1..], " ");
      WordsOfJoin(ws[1..]);
      assert Join(ws, " ") == ws[0] + (" " + tail);
      WordsAfterWord(ws[0], " " + tail);
      assert (" " + tail)[1..] == tail;
    }
  }

  // ---------------------------------------------------------------------------
  // str.rstrip(chars) / str.lstrip(chars): the argument is a SET of characters

  /** Python's `s.rstrip(chars)`: `s` without its longest suffix made only of
      characters that occur in `chars`. */
  function RStrip(s: string, chars: string): (r: string)
    ensures r <= s
    ensures forall i :: |r| <= i < |s| ==> s[i] in chars
    ensures |r| == 0 || r[|r| - 1] !in chars
    decreases |s|
  {
    if |s| > 0 && s[|s| - 1] in chars then RStrip(s[..|s| - 1], chars) else s
  }

  /** Python's `s.lstrip(chars)`: `s` without its longest prefix made only of
      characters that occur in `chars`. */
  function LStrip(s: string, chars: string): (r: string)
    ensures |r| <= |s| && r == s[|s| - |r|..]
    ensures forall i :: 0 <= i < |s| - |r| ==> s[i] in chars
    ensures |r| == 0 || r[0] !in chars
    decreases |s|
  {
    if |s| > 0 && s[0] in chars then LStrip(s[1..], chars) else s
  }

  /** `rstrip` removes exactly a trailing run of stripped characters that
      follows a character it does not strip. */
  lemma {:induction false} RStripRun(p: string, q: string, chars: string)
    requires forall i :: 0 <= i < |q| ==> q[i] in chars
    requires |p| == 0 || p[|p| - 1] !in chars
    ensures RStrip(p + q, chars) == p
    decreases |q|
  {
    if |q| > 0 {
      assert (p + q)[..|p + q| - 1] == p + q[..|q| - 1];
      RStripRun(p, q[..|q| - 1], chars);
    } else {
      assert p + q == p;
    }
  }

  /** `lstrip` removes exactly a leading run of stripped characters that is
      followed by a character it does not strip. */
  lemma {:induction false} LStripRun(q: string, p: string, chars: string)
    requires forall i :: 0 <= i < |q| ==> q[i] in chars
    requires |p| == 0 || p[0] !in chars
    ensures LStrip(q + p, chars) == p
    decreases |q|
  {
    if |q| > 0 {
      assert (q + p)[1..] == q[1..] + p;
      LStripRun(q[1..], p, chars);
    } else {
      assert q + p == p;
    }
  }

  // ---------------------------------------------------------------------------
  // str.split(sep) and str.replace(old, new)

  /** `t` occurs somewhere in `s`. */
  predicate Contains(s: string, t: string)
    decreases |s|
  {
    t <= s || (|s| > 0 && Contains(s[1..], t))
  }

  /** Python's `s.split(sep)` for a non-empty separator: the pieces between the
      leftmost non-overlapping occurrences of `sep`. */
  function SplitOn(s: string, sep: string): (ps: seq<string>)
    requires |sep| > 0
    ensures |ps| > 0 && ps[0] <= s
    ensures forall i :: 0 <= i < |ps| ==> !Contains(ps[i], sep)
    decreases |s|
  {
    if |s| == 0 then [""]
    else if sep <= s then [""] + SplitOn(s[|sep|..], sep)
    else
      var rest := SplitOn(s[1..], sep);
      var head := [s[0]] + rest[0];
      assert head <= s;
      assert head[1..] == rest[0];
      [head] + rest[1..]
  }

  /** Python's `s.replace(old, new)` for a non-empty `old`: a left-to-right scan
      that replaces each occurrence and resumes after it, never rescanning the
      inserted text. */
  function ReplaceAll(s: string, target: string, repl: string): (r: string)
    requires |target| > 0
    ensures !Contains(s, target) ==> r == s
    decreases |s|
  {
    if |s| == 0 then ""
    else if target <= s then repl + ReplaceAll(s[|target|..], target, repl)
    else [s[0]] + ReplaceAll(s[1..], target, repl)
  }

  /** Python's `s.replace("", new)`: `new` before, between and after every
      character of `s`. */
  function Interleave(s: string, repl: string): string
    decreases |s|
  {
    if |s| == 0 then repl else repl + [s[0]] + Interleave(s[1..], repl)
  }

  /** The characters of `s`, each as a one-character string. */
  function Chars(s: string): (cs: seq<string>)
    ensures |cs| == |s| && forall i :: 0 <= i < |s| ==> cs[i] == [s[i]]
  {
    seq(|s|, i requires 0 <= i < |s| => [s[i]])
  }

  /** `"".replace("", new)` is `new`; for a non-empty `s`, `s.replace("", new)`
      is `new`, then the characters of `s` joined by `new`, then `new` again. */
  lemma {:induction false} InterleaveJoin(s: string, repl: string)
    ensures |s| == 0 ==> Interleave(s, repl) == repl
    ensures |s| > 0 ==> Interleave(s, repl) == repl + Join(Chars(s), repl) + repl
    decreases |s|
  {
    if |s| == 0 {
    } else if |s| == 1 {
      assert Interleave(s[1..], repl) == repl;
      assert Join(Chars(s), repl) == [s[0]];
    } else {
      InterleaveJoin(s[1..], repl);
      assert Chars(s)[1..] == Chars(s[1..]);
      assert Join(Chars(s), repl) == [s[0]] + repl + Join(Chars(s[1..]), repl);
    }
  }

  /** Python's `s.replace(old, new)`. */
  function Replace(s: string, target: string, repl: string): string {
    if |target| == 0 then Interleave(s, repl) else ReplaceAll(s, target, repl)
  }

  lemma JoinHead(x: string, ps: seq<string>, sep: string)
    requires |ps| > 0
    ensures Join([x + ps[0]] + ps[1..], sep) == x + Join(ps, sep)
  {
    var qs := [x + ps[0]] + ps[1..];
    assert qs[1..] == ps[1..];
  }

  lemma JoinCons(x: string, ps: seq<string>, sep: string)
    requires |ps| > 0
    ensures Join([x] + ps, sep) == x + sep + Join(ps, sep)
  {
    assert ([x] + ps)[1..] == ps;
  }

  /** A text without the separator is a single piece. */
  lemma {:induction false} SplitOnAbsent(s: string, sep: string)
    requires |sep| > 0 && !Contains(s, sep)
    ensures SplitOn(s, sep) == [s]
    decreases |s|
  {
    if |s| > 0 {
      SplitOnAbsent(s[1..], sep);
      assert [s[0]] + s[1..] == s;
    }
  }

  /** The cut is made at the leftmost occurrence: when `sep` does not occur in
      `a` followed by all but the last character of `sep`, the first piece of
      `a + sep + b` is `a`, and the scan resumes right after that occurrence,
      so a self-overlapping separator is cut left to right. */
  lemma {:induction false} SplitOnFirst(a: string, sep: string, b: string)
    requires |sep| > 0 && !Contains(a + sep[..|sep| - 1], sep)
    ensures SplitOn(a + sep + b, sep) == [a] + SplitOn(b, sep)
    decreases |a|
  {
    var s := a + sep + b;
    if |a| == 0 {
      assert s == sep + b;
      assert sep <= s;
      assert s[|sep|..] == b;
    } else {
      var x := a + sep[..|sep| - 1];
      assert !(sep <= s) by {
        assert s[..|sep|] == x[..|sep|];
      }
      assert x[1..] == a[1..] + sep[..|sep| - 1];
      assert s[1..] == a[1..] + sep + b;
      SplitOnFirst(a[1..], sep, b);
      assert [a[0]] + a[1..] == a;
    }
  }

  /** A text that holds the separator has a leftmost occurrence: `a` before it
      does not reach into it. */
  lemma {:induction false} LeftmostOccurrence(s: string, sep: string) returns (a: string, b: string)
    requires |sep| > 0 && Contains(s, sep)
    ensures s == a + sep + b && !Contains(a + sep[..|sep| - 1], sep)
    decreases |s|
  {
    if sep <= s {
      a, b := "", s[|sep|..];
      LeftmostAtStart(s, sep);
    } else {
      ContainsTail(s, sep);
      var a', b' := LeftmostOccurrence(s[1..], sep);
      a, b := [s[0]] + a', b';
      LeftmostStep(s, a', sep, b');
    }
  }

  /** An occurrence at the very start is the leftmost one. */
  lemma {:induction false} LeftmostAtStart(s: string, sep: string)
    requires |sep| > 0 && sep <= s
    ensures s == "" + sep + s[|sep|..] && !Contains("" + sep[..|sep| - 1], sep)
  {
    assert s == s[..|sep|] + s[|sep|..];
    assert "" + sep[..|sep| - 1] == sep[..|sep| - 1];
    ShortNotContains(sep[..|sep| - 1], sep);
  }

  /** An occurrence that does not start at the front lies in the tail. */
  lemma {:induction false} ContainsTail(s: string, t: string)
    requires Contains(s, t) && !(t <= s)
    ensures |s| > 0 && Contains(s[1..], t)
  {
  }

  /** One step of the search: an occurrence that does not start at the
      first character is the leftmost one of the rest. */
  lemma {:induction false} LeftmostStep(s: string, a: string, sep: string, b: string)
    requires |sep| > 0 && |s| > 0 && !(sep <= s) && s[1..] == a + sep + b
    requires !Contains(a + sep[..|sep| - 1], sep)
    ensures s == [s[0]] + a + sep + b && !Contains([s[0]] + a + sep[..|sep| - 1], sep)
  {
    assert s == [s[0]] + a + sep + b by {
      assert s == [s[0]] + s[1..];
    }
    var x := [s[0]] + a + sep[..|sep| - 1];
    assert x <= s by {
      assert sep == sep[..|sep| - 1] + [sep[|sep| - 1]];
      assert s == x + ([sep[|sep| - 1]] + b);
    }
    NotPrefixOfPrefix(sep, x, s);
    assert x[1..] == a + sep[..|sep| - 1];
  }

  lemma {:induction false} NotPrefixOfPrefix(p: string, x: string, s: string)
    requires x <= s && !(p <= s)
    ensures !(p <= x)
  {
  }

  lemma {:induction false} ShortNotContains(s: string, t: string)
    requires |s| < |t|
    ensures !Contains(s, t)
    decreases |s|
  {
    if |s| > 0 {
      ShortNotContains(s[1..], t);
    }
  }

  /** The two facts above pin `SplitOn` down: any splitting that keeps a text
      without the separator whole and cuts at the leftmost occurrence agrees
      with `SplitOn` everywhere. */
  lemma {:induction false} SplitOnUnique(split: string -> seq<string>, sep: string, s: string)
    requires |sep| > 0
    requires forall t :: !Contains(t, sep) ==> split(t) == [t]
    requires forall a, b :: !Contains(a + sep[..|sep| - 1], sep) ==> split(a + sep + b) == [a] + split(b)
    ensures split(s) == SplitOn(s, sep)
    decreases |s|
  {
    if Contains(s, sep) {
      var a, b := LeftmostOccurrence(s, sep);
      SplitOnUnique(split, sep, b);
      SplitOnFirst(a, sep, b);
    } else {
      SplitOnAbsent(s, sep);
    }
  }

  /** Round trip: the pieces of `s.split(sep)` joined with `sep` give `s`. */
  lemma {:induction false} SplitOnJoin(s: string, sep: string)
    requires |sep| > 0
    ensures Join(SplitOn(s, sep), sep) == s
    decreases |s|
  {
    if |s| > 0 {
      if sep <= s {
        SplitOnJoin(s[|sep|..], sep);
        SplitOnJoinAtSep(s, sep);
      } else {
        SplitOnJoin(s[1..], sep);
        SplitOnJoinAtChar(s, sep);
      }
    }
  }

  /** The round trip's step when `s` opens with the separator. */
  lemma {:induction false} SplitOnJoinAtSep(s: string, sep: string)
    requires |sep| > 0 && |s| > 0 && sep <= s
    requires Join(SplitOn(s[|sep|..], sep), sep) == s[|sep|..]
    ensures Join(SplitOn(s, sep), sep) == s
  {
    var tail := s[|sep|..];
    assert Join(SplitOn(s, sep), sep) == sep + tail by {
      var rest := SplitOn(tail, sep);
      assert SplitOn(s, sep) == [""] + rest;
      JoinCons("", rest, sep);
      assert "" + sep == sep;
    }
    assert sep + tail == s by {
      assert s[..|sep|] == sep;
    }
  }

  /** The round trip's step when `s` does not open with the separator. */
  lemma {:induction false} SplitOnJoinAtChar(s: string, sep: string)
    requires |sep| > 0 && |s| > 0 && !(sep <= s)
    requires Join(SplitOn(s[1..], sep), sep) == s[1..]
    ensures Join(SplitOn(s, sep), sep) == s
  {
    var tail := s[1..];
    var rest := SplitOn(tail, sep);
    assert SplitOn(s, sep) == [[s[0]] + rest[0]] + rest[1..];
    JoinHead([s[0]], rest, sep);
    assert [s[0]] + tail == s;
  }

  /** `s.replace(old, new)` is `new.join(s.split(old))`: every leftmost
      non-overlapping occurrence of `old` becomes `new` and nothing else changes. */
  lemma {:induction false} ReplaceIsSplitJoin(s: string, target: string, repl: string)
    requires |target| > 0
    ensures Replace(s, target, repl) == Join(SplitOn(s, target), repl)
    decreases |s|
  {
    if |s| > 0 {
      if target <= s {
        var rest := SplitOn(s[|target|..], target);
        assert SplitOn(s, target) == [""] + rest;
        ReplaceIsSplitJoin(s[|target|..], target, repl);
        JoinCons("", rest, repl);
      } else {
        var rest := SplitOn(s[1..], target);
        ReplaceIsSplitJoin(s[1..], target, repl);
        JoinHead([s[0]], rest, repl);
      }
    }
  }

  lemma {:induction false} SplitOnPiece(a: string, c: char, b: string)
    requires c !in a
    ensures SplitOn(a + [c] + b, [c]) == [a] + SplitOn(b, [c])
    decreases |a|
  {
    var s := a + [c] + b;
    if |a| == 0 {
      assert s == [c] + b;
      assert s[1..] == b;
    } else {
      assert s[0] == a[0];
      assert !([c] <= s);
      assert s[1..] == a[1..] + [c] + b;
      SplitOnPiece(a[1..], c, b);
      assert [a[0]] + a[1..] == a;
    }
  }

  /** Lines free of the separator are read back one by one from their join. */
  lemma {:induction false} SplitOnJoinPrefix(ps: seq<string>, x: string, c: char)
    requires forall i :: 0 <= i < |ps| ==> c !in ps[i]
    ensures SplitOn(Join(ps + [x], [c]), [c]) == ps + SplitOn(x, [c])
    decreases |ps|
  {
    if |ps| == 0 {
      assert ps + [x] == [x];
    } else {
      SplitOnJoinPrefix(ps[1..], x, c);
      JoinConsSnoc(ps[0], ps[1..], x, [c]);
      assert [ps[0]] + ps[1..] == ps;
      SplitOnCons(ps[0], c, Join(ps[1..] + [x], [c]), ps[1..], SplitOn(x, [c]));
    }
  }

  /** Reading back a first line free of the separator, then the rest. */
  lemma {:induction false} SplitOnCons(p: string, c: char, rest: string, qs: seq<string>, t: seq<string>)
    requires c !in p && SplitOn(rest, [c]) == qs + t
    ensures SplitOn(p + [c] + rest, [c]) == [p] + qs + t
  {
    SplitOnPiece(p, c, rest);
    assert [p] + (qs + t) == [p] + qs + t;
  }

  /** `Join` of a list with a first and a last element. */
  lemma {:induction false} JoinConsSnoc(p: string, qs: seq<string>, x: string, sep: string)
    ensures Join([p] + qs + [x], sep) == p + sep + Join(qs + [x], sep)
  {
    assert [p] + qs + [x] == [p] + (qs + [x]);
    JoinCons(p, qs + [x], sep);
  }
}
