/**
 * The handful of Python `str` built-ins the application relies on, written as
 * functions on `string` (a sequence of Unicode scalar values, as Python's
 * code points): `isspace`, `strip`, `split(sep)`, `split()`, `sep.join`,
 * slicing `s[:n]`, `replace(' ', c)` and `startswith`.
 */
module PyStr {

  /**
   * Python's `str.isspace` for one character, which decides what `strip()`
   * removes and where `split()` cuts: the ASCII controls U+0009 to U+000D and
   * U+001C to U+001F, the space, and the Unicode spaces and separators.
   */
  predicate IsSpace(c: char)
  {
    ('\t' <= c <= '\r') || ('\U{001C}' <= c <= ' ') || c == '\U{0085}' || c == '\U{00A0}'
    || c == '\U{1680}' || ('\U{2000}' <= c <= '\U{200A}') || ('\U{2028}' <= c <= '\U{2029}')
    || c == '\U{202F}' || c == '\U{205F}' || c == '\U{3000}'
  }

  /** No character of `s` is whitespace. */
  predicate NoSpace(s: string)
  {
    forall i :: 0 <= i < |s| ==> !IsSpace(s[i])
  }

  /** Every string of `ws` is non-empty and holds no whitespace: what `split()` yields. */
  predicate Tokens(ws: seq<string>)
  {
    forall k :: 0 <= k < |ws| ==> ws[k] != [] && NoSpace(ws[k])
  }

  /** Python's `xs[:n]` on a string or a list, for a non-negative `n`. */
  function Take<T>(xs: seq<T>, n: nat): (r: seq<T>)
    ensures r <= xs
    ensures |r| == if |xs| < n then |xs| else n
  {
    if |xs| <= n then xs else xs[..n]
  }

  predicate StartsWith(s: string, p: string)
  {
    |p| <= |s| && s[..|p|] == p
  }

  predicate EndsWith(s: string, p: string)
  {
    |p| <= |s| && s[|s| - |p|..] == p
  }

  /** Drops the leading whitespace (the left half of `strip()`). */
  function TrimStart(s: string): string
  {
    if s != [] && IsSpace(s[0]) then TrimStart(s[1..]) else s
  }

  /** Drops the trailing whitespace (the right half of `strip()`). */
  function TrimEnd(s: string): string
  {
    if s != [] && IsSpace(s[|s| - 1]) then TrimEnd(s[..|s| - 1]) else s
  }

  /** `TrimStart` keeps a suffix, drops only whitespace, and stops at the first other character. */
  lemma {:induction false} TrimStartDropsSpace(s: string)
    ensures var r := TrimStart(s);
            |r| <= |s| && r == s[|s| - |r|..]
            && (forall i :: 0 <= i < |s| - |r| ==> IsSpace(s[i]))
            && (r == [] || !IsSpace(r[0]))
  {
    if s != [] && IsSpace(s[0]) {
      TrimStartDropsSpace(s[1..]);
      assert forall i :: 1 <= i < |s| - |TrimStart(s)| ==> s[i] == s[1..][i - 1];
    }
  }

  /** `TrimEnd` keeps a prefix, drops only whitespace, and stops at the last other character. */
  lemma {:induction false} TrimEndDropsSpace(s: string)
    ensures var r := TrimEnd(s);
            |r| <= |s| && r == s[..|r|]
            && (forall i :: |r| <= i < |s| ==> IsSpace(s[i]))
            && (r == [] || !IsSpace(r[|r| - 1]))
  {
    if s != [] && IsSpace(s[|s| - 1]) {
      TrimEndDropsSpace(s[..|s| - 1]);
    }
  }

  /** Python's `s.strip()` with no argument. */
  function Strip(s: string): (r: string)
  {
    TrimEnd(TrimStart(s))
  }

  /**
   * `strip()` keeps the slice of its argument that starts after the leading
   * whitespace; everything it drops is whitespace, and the slice neither
   * starts nor ends with whitespace.
   */
  lemma {:induction false} StripSlice(s: string)
    ensures var a, r := |s| - |TrimStart(s)|, Strip(s);
            0 <= a && a + |r| <= |s| && r == s[a..a + |r|]
            && (forall k :: 0 <= k < a ==> IsSpace(s[k]))
            && (forall k :: a + |r| <= k < |s| ==> IsSpace(s[k]))
            && (r == [] || (!IsSpace(r[0]) && !IsSpace(r[|r| - 1])))
  {
    var t := TrimStart(s);
    var r := TrimEnd(t);
    var a := |s| - |t|;
    assert t == s[a..] && forall k :: 0 <= k < a ==> IsSpace(s[k]) by {
      TrimStartDropsSpace(s);
    }
    assert r == t[..|r|] && (forall k :: |r| <= k < |t| ==> IsSpace(t[k])) && (r == [] || !IsSpace(r[|r| - 1])) by {
      TrimEndDropsSpace(t);
    }
    assert r == [] || !IsSpace(r[0]) by {
      TrimStartDropsSpace(s);
    }
    assert r == s[a..a + |r|];
    forall k | a + |r| <= k < |s| ensures IsSpace(s[k]) {
      assert s[k] == t[k - a];
    }
  }

  /** A string that neither starts nor ends with whitespace is left alone by `strip()`. */
  lemma {:induction false} StripKeepsTrimmed(s: string)
    requires s == [] || (!IsSpace(s[0]) && !IsSpace(s[|s| - 1]))
    ensures Strip(s) == s
  {
  }

  /** Leading whitespace in front of a trimmed string is all that `strip()` removes. */
  lemma {:induction false} StripLeadingSpace(s: string)
    requires s != [] && !IsSpace(s[0]) && !IsSpace(s[|s| - 1])
    ensures Strip([' '] + s) == s
  {
    assert ([' '] + s)[1..] == s;
    assert TrimStart([' '] + s) == TrimStart(s) == s;
  }

  /** Python's `s.replace(' ', c)`: every U+0020 becomes `c`, nothing else changes. */
  function ReplaceSpaces(s: string, c: char): (r: string)
    ensures |r| == |s|
    ensures forall i :: 0 <= i < |s| ==> r[i] == (if s[i] == ' ' then c else s[i])
  {
    if s == [] then [] else [if s[0] == ' ' then c else s[0]] + ReplaceSpaces(s[1..], c)
  }

  /** Python's `sep.join(xs)` for a one-character separator. */
  function Join(xs: seq<string>, sep: char): string
  {
    if |xs| == 0 then ""
    else if |xs| == 1 then xs[0]
    else xs[0] + [sep] + Join(xs[1..], sep)
  }

  /** Joining one more piece appends the separator and the piece. */
  lemma {:induction false} JoinSnoc(xs: seq<string>, w: string, sep: char)
    requires xs != []
    ensures Join(xs + [w], sep) == Join(xs, sep) + [sep] + w
  {
    if |xs| > 1 {
      assert (xs + [w])[1..] == xs[1..] + [w];
      JoinSnoc(xs[1..], w, sep);
    }
  }

  /** Non-empty pieces without whitespace join to a text that neither starts nor ends with whitespace. */
  lemma {:induction false} JoinEdges(xs: seq<string>, sep: char)
    requires xs != [] && Tokens(xs)
    ensures var s := Join(xs, sep);
            s != [] && !IsSpace(s[0]) && !IsSpace(s[|s| - 1])
  {
    if |xs| > 1 {
      assert Tokens(xs[1..]) by {
        assert forall k :: 0 <= k < |xs| - 1 ==> xs[1..][k] == xs[k + 1];
      }
      JoinEdges(xs[1..], sep);
    }
  }

  /** Python's `s.split(sep)` for a one-character separator: never an empty list. */
  function Split(s: string, sep: char): (r: seq<string>)
    ensures |r| >= 1
  {
    if s == [] then [""]
    else
      var rest := Split(s[1..], sep);
      if s[0] == sep then [""] + rest else [[s[0]] + rest[0]] + rest[1..]
  }

  /** No piece produced by `split(sep)` contains the separator. */
  lemma {:induction false} SplitPiecesLackSep(s: string, sep: char)
    ensures forall k :: 0 <= k < |Split(s, sep)| ==> sep !in Split(s, sep)[k]
  {
    if s != [] {
      SplitPiecesLackSep(s[1..], sep);
    }
  }

  /** `sep.join(s.split(sep)) == s`: splitting loses nothing. */
  lemma {:induction false} JoinSplit(s: string, sep: char)
    ensures Join(Split(s, sep), sep) == s
  {
    if s != [] {
      var rest := Split(s[1..], sep);
      JoinSplit(s[1..], sep);
      if s[0] == sep {
        assert ([""] + rest)[1..] == rest;
      } else {
        var r := [[s[0]] + rest[0]] + rest[1..];
        assert r[1..] == rest[1..];
        if |rest| > 1 {
          assert Join(rest, sep) == rest[0] + [sep] + Join(rest[1..], sep);
        }
      }
    }
  }

  /** The last piece of `s.split(sep)` is the text after the last separator. */
  lemma {:induction false} SplitLastIsSuffix(s: string, sep: char)
    ensures var r := Split(s, sep);
            var last := Last(r);
            |last| <= |s| && last == s[|s| - |last|..]
            && (|last| < |s| ==> s[|s| - |last| - 1] == sep)
            && (|r| > 1 ==> |last| < |s|)
            && sep !in last
  {
    if s != [] {
      SplitLastIsSuffix(s[1..], sep);
      var rest := Split(s[1..], sep);
      var r := Split(s, sep);
      if s[0] == sep {
        assert r[|r| - 1] == rest[|rest| - 1];
      } else if |rest| > 1 {
        assert r[|r| - 1] == rest[|rest| - 1];
      } else {
        JoinSplit(s[1..], sep);
        assert r == [[s[0]] + s[1..]];
        assert [s[0]] + s[1..] == s;
      }
    }
  }

  /** The first piece of `s.split(sep)` is the text before the first separator. */
  lemma {:induction false} SplitFirstIsPrefix(s: string, sep: char)
    ensures var first := Split(s, sep)[0];
            first <= s && (|first| < |s| ==> s[|first|] == sep)
  {
    if s != [] {
      SplitFirstIsPrefix(s[1..], sep);
    }
  }

  /**
   * Python's `s.split()` with no argument: the maximal runs of non-whitespace
   * characters, in order; whitespace runs of any length separate words.
   */
  function Words(s: string): (r: seq<string>)
    ensures s != [] && !IsSpace(s[0]) ==> r != []
  {
    if s == [] then []
    else
      var rest := Words(s[1..]);
      if IsSpace(s[0]) then rest
      else if |s| > 1 && !IsSpace(s[1]) then [[s[0]] + rest[0]] + rest[1..]
      else [[s[0]]] + rest
  }

  /** Every word is non-empty and holds no whitespace. */
  lemma {:induction false} WordsAreTokens(s: string)
    ensures Tokens(Words(s))
  {
    if s != [] {
      WordsAreTokens(s[1..]);
      var rest := Words(s[1..]);
      if !IsSpace(s[0]) && |s| > 1 && !IsSpace(s[1]) {
        var w := [s[0]] + rest[0];
        assert NoSpace(w) by {
          assert forall i :: 1 <= i < |w| ==> w[i] == rest[0][i - 1];
        }
      }
    }
  }

  /** `split()` of a text, in terms of its first character and the rest. */
  lemma WordsCons(c: char, t: string)
    ensures Words([c] + t) == if IsSpace(c) then Words(t)
                              else if t != [] && !IsSpace(t[0]) then [[c] + Words(t)[0]] + Words(t)[1..]
                              else [[c]] + Words(t)
  {
    assert ([c] + t)[1..] == t;
  }

  /** A word followed by a space is the first word of the text, and the rest is split on its own. */
  lemma {:induction false} WordsAfterWord(w: string, rest: string)
    requires w != [] && NoSpace(w)
    ensures Words(w + [' '] + rest) == [w] + Words(rest)
  {
    var c, w' := w[0], w[1..];
    var t := w' + [' '] + rest;
    assert w + [' '] + rest == [c] + t;
    WordsCons(c, t);
    if w' == [] {
      assert t == [' '] + rest && w == [c];
      WordsCons(' ', rest);
    } else {
      assert NoSpace(w') by {
        assert forall i :: 0 <= i < |w'| ==> w'[i] == w[i + 1];
      }
      WordsAfterWord(w', rest);
      assert t[0] == w'[0];
      assert Words(t) == [w'] + Words(rest);
      assert [c] + w' == w;
    }
  }

  /** A non-empty word without whitespace splits to itself. */
  lemma {:induction false} WordsOfWord(w: string)
    requires w != [] && NoSpace(w)
    ensures Words(w) == [w]
  {
    if |w| > 1 {
      assert NoSpace(w[1..]) by {
        forall i | 0 <= i < |w| - 1 ensures !IsSpace(w[1..][i]) {
          assert w[1..][i] == w[i + 1];
        }
      }
      WordsOfWord(w[1..]);
      assert [w[0]] + w[1..] == w;
    } else {
      assert !IsSpace(w[0]) && w[1..] == [] && w == [w[0]];
    }
  }

  /** `" ".join(ws).split() == ws` for non-empty words without whitespace. */
  lemma {:induction false} WordsOfJoin(ws: seq<string>)
    requires Tokens(ws)
    ensures Words(Join(ws, ' ')) == ws
  {
    if |ws| == 1 {
      WordsOfWord(ws[0]);
    } else if |ws| > 1 {
      WordsOfWord(ws[0]);
      WordsOfJoin(ws[1..]);
      WordsAfterWord(ws[0], Join(ws[1..], ' '));
    }
  }

  /**
   * The text with its whitespace normalised, read character by character:
   * every non-whitespace character is kept, a run of whitespace between two
   * kept characters becomes one space, and whitespace at either end is
   * dropped. `started` says a character has been kept already, `gap` that
   * whitespace has followed it.
   */
  function Squeeze(s: string, started: bool, gap: bool): string
  {
    if s == [] then []
    else if IsSpace(s[0]) then Squeeze(s[1..], started, started)
    else (if gap then [' '] else []) + [s[0]] + Squeeze(s[1..], true, false)
  }

  /** `s` with inner whitespace runs collapsed to one space and both ends stripped. */
  function Normalize(s: string): string
  {
    Squeeze(s, false, false)
  }

  /** Joining a list whose first piece is glued to a character puts that character in front. */
  lemma JoinGlue(c: char, ws: seq<string>, sep: char)
    requires ws != []
    ensures Join([[c] + ws[0]] + ws[1..], sep) == [c] + Join(ws, sep)
  {
    assert ([[c] + ws[0]] + ws[1..])[1..] == ws[1..];
  }

  /** Joining a piece in front of a list. */
  lemma JoinCons(w: string, ws: seq<string>, sep: char)
    ensures Join([w] + ws, sep) == if ws == [] then w else w + [sep] + Join(ws, sep)
  {
    assert ([w] + ws)[1..] == ws;
  }

  /**
   * `" ".join(s.split())` is `s` with its whitespace normalised, so `split()`
   * loses no character other than whitespace; the other two clauses describe
   * the reader in the middle of a word and after a gap.
   */
  lemma {:induction false} JoinWords(s: string)
    ensures Join(Words(s), ' ') == Normalize(s)
    ensures s != [] && !IsSpace(s[0]) ==> Squeeze(s, true, false) == Join(Words(s), ' ')
    ensures Squeeze(s, true, true) == if Words(s) == [] then [] else [' '] + Join(Words(s), ' ')
  {
    if s != [] {
      var t := s[1..];
      JoinWords(t);
      var wt := Words(t);
      if !IsSpace(s[0]) {
        if t != [] && !IsSpace(t[0]) {
          JoinGlue(s[0], wt, ' ');
        } else {
          assert Squeeze(t, true, false) == Squeeze(t, true, true);
          JoinCons([s[0]], wt, ' ');
        }
      }
    }
  }

  /**
   * `split()` is the one list of words without whitespace whose single-space
   * join is the normalised text.
   */
  lemma WordsUnique(s: string, ws: seq<string>)
    ensures Tokens(ws) && Join(ws, ' ') == Normalize(s) <==> ws == Words(s)
  {
    JoinWords(s);
    WordsAreTokens(s);
    if Tokens(ws) {
      WordsOfJoin(ws);
      WordsOfJoin(Words(s));
    }
  }

  /** The prefix one longer is the prefix with the next element appended. */
  lemma PrefixSnoc<T>(xs: seq<T>, i: nat)
    requires i < |xs|
    ensures xs[..i + 1] == xs[..i] + [xs[i]]
  {
  }

  /** Python's `list[-1]` on a non-empty list. */
  function Last<T>(xs: seq<T>): T
    requires xs != []
  {
    xs[|xs| - 1]
  }
}
