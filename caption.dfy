/**
 * The caption overlay: the caption text is wrapped greedily into lines no
 * wider than the frame minus its margins, and the lines are stacked from the
 * bottom of the frame, each centred horizontally. Glyph metrics are not
 * modelled: `width` stands for the font's text-length measure.
 */
module Caption {
  import opened PyStr

  /** Horizontal margin on each side of the caption, in pixels. */
  const Margin: int := 60
  /** Vertical distance from one caption line to the next, in pixels. */
  const LineHeight: int := 55
  /** Space kept free below the caption block, in pixels. */
  const BottomGap: int := 80

  /** The widest a caption line may be in a frame `frameWidth` pixels wide. */
  function MaxLineWidth(frameWidth: int): int
  {
    frameWidth - Margin * 2
  }

  /** The words of `group`, separated by single spaces, are no wider than `maxWidth`. */
  predicate Fits(group: seq<string>, width: string -> int, maxWidth: int)
  {
    width(Join(group, ' ')) <= maxWidth
  }

  /** The lines already finished, as word groups, and the words of the line being filled. */
  datatype Fill = Fill(done: seq<seq<string>>, current: seq<string>)

  /**
   * One pass of the wrapping loop: the next word joins the current line when
   * the widened line fits, and otherwise starts a new line.
   */
  function FillStep(f: Fill, word: string, width: string -> int, maxWidth: int): Fill
  {
    if Fits(f.current + [word], width, maxWidth) then f.(current := f.current + [word])
    else Fill(f.done + [f.current], [word])
  }

  /** The wrapping loop after the first `n` words. */
  function Filled(words: seq<string>, n: nat, width: string -> int, maxWidth: int): Fill
    requires n <= |words|
  {
    if n == 0 then Fill([], [])
    else FillStep(Filled(words, n - 1, width, maxWidth), words[n - 1], width, maxWidth)
  }

  /** The lines of the wrapped caption, as word groups. */
  function Wrap(words: seq<string>, width: string -> int, maxWidth: int): (groups: seq<seq<string>>)
    ensures |groups| >= 1
  {
    var f := Filled(words, |words|, width, maxWidth);
    f.done + [f.current]
  }

  /** The text of each line: its words separated by single spaces. */
  function Lines(groups: seq<seq<string>>): (lines: seq<string>)
    ensures |lines| == |groups|
  {
    seq(|groups|, k requires 0 <= k < |groups| => Join(groups[k], ' '))
  }

  /** One more group adds its line. */
  lemma LinesSnoc(groups: seq<seq<string>>, g: seq<string>)
    ensures Lines(groups + [g]) == Lines(groups) + [Join(g, ' ')]
  {
  }

  /** All words of all groups, in order. */
  function Flatten(groups: seq<seq<string>>): seq<string>
  {
    if groups == [] then [] else Flatten(groups[..|groups| - 1]) + groups[|groups| - 1]
  }

  /** Flattening one more group appends its words. */
  lemma FlattenSnoc(groups: seq<seq<string>>, g: seq<string>)
    ensures Flatten(groups + [g]) == Flatten(groups) + g
  {
    assert (groups + [g])[..|groups|] == groups;
  }

  /**
   * The test line of the loop: `f"{line} {word}".strip()` is the current
   * line's words with the new word appended, separated by single spaces.
   */
  lemma {:induction false} TestLine(current: seq<string>, word: string)
    requires Tokens(current) && word != [] && NoSpace(word)
    ensures Strip(Join(current, ' ') + [' '] + word) == Join(current + [word], ' ')
  {
    if current == [] {
      assert Join(current, ' ') + [' '] + word == [' '] + word;
      StripLeadingSpace(word);
    } else {
      JoinSnoc(current, word, ' ');
      JoinEdges(current, ' ');
      var s := Join(current, ' ') + [' '] + word;
      assert s[0] == Join(current, ' ')[0] && s[|s| - 1] == word[|word| - 1];
      StripKeepsTrimmed(s);
    }
  }

  /**
   * One pass of the wrapping loop on the strings `line` and `lines` does what
   * `FillStep` does on word groups.
   */
  lemma WrapStep(f: Fill, lines: seq<string>, line: string, word: string, width: string -> int, maxWidth: int)
    requires lines == Lines(f.done) && line == Join(f.current, ' ') && Tokens(f.current)
    requires word != [] && NoSpace(word)
    ensures var test, f' := Strip(line + " " + word), FillStep(f, word, width, maxWidth);
            Tokens(f'.current)
            && (width(test) <= maxWidth ==> Lines(f'.done) == lines && Join(f'.current, ' ') == test)
            && (width(test) > maxWidth ==> Lines(f'.done) == lines + [line] && Join(f'.current, ' ') == word)
  {
    TestLine(f.current, word);
    assert Join([word], ' ') == word;
    LinesSnoc(f.done, f.current);
  }

  /**
   * One pass of the wrapping loop (app.py lines 143-148): the test line is kept when
   * it fits, and otherwise the current line is finished and the word starts
   * the next one.
   */
  method WrapWord(lines: seq<string>, line: string, word: string, width: string -> int, maxWidth: int, ghost f: Fill)
    returns (lines': seq<string>, line': string)
    requires lines == Lines(f.done) && line == Join(f.current, ' ') && Tokens(f.current)
    requires word != [] && NoSpace(word)
    ensures var f' := FillStep(f, word, width, maxWidth);
            lines' == Lines(f'.done) && line' == Join(f'.current, ' ') && Tokens(f'.current)
  {
    var test := Strip(line + " " + word);
    WrapStep(f, lines, line, word, width, maxWidth);
    if width(test) <= maxWidth {
      lines', line' := lines, test;
    } else {
      lines', line' := lines + [line], word;
    }
  }

  /** The wrapping loop (app.py lines 140-149) over words without whitespace, for lines at most `maxWidth` wide. */
  method WrapWords(words: seq<string>, width: string -> int, maxWidth: int) returns (lines: seq<string>)
    requires Tokens(words)
    ensures lines == Lines(Wrap(words, width, maxWidth))
  {
    lines := [];
    var line := "";
    ghost var f := Fill([], []);
    for i := 0 to |words|
      invariant f == Filled(words, i, width, maxWidth)
      invariant lines == Lines(f.done) && line == Join(f.current, ' ') && Tokens(f.current)
    {
      lines, line := WrapWord(lines, line, words[i], width, maxWidth, f);
      f := FillStep(f, words[i], width, maxWidth);
    }
    LinesSnoc(f.done, f.current);
    lines := lines + [line];
  }

  /**
   * `make_text_clip`'s word wrap (app.py lines 137-149): the words of `text` are
   * placed on lines greedily, a line ending when the next word would make it
   * wider than the frame minus both margins.
   */
  method WrapCaption(text: string, frameWidth: int, width: string -> int) returns (lines: seq<string>)
    ensures lines == Lines(Wrap(Words(text), width, MaxLineWidth(frameWidth)))
  {
    WordsAreTokens(text);
    lines := WrapWords(Words(text), width, MaxLineWidth(frameWidth));
  }

  /** One pass of the loop places exactly the next word, after all the words placed before. */
  lemma FillStepKeepsWords(f: Fill, word: string, width: string -> int, maxWidth: int)
    ensures var f' := FillStep(f, word, width, maxWidth);
            Flatten(f'.done) + f'.current == Flatten(f.done) + f.current + [word]
  {
    FlattenSnoc(f.done, f.current);
  }

  /** The wrap keeps every word exactly once, in order. */
  lemma {:induction false} FilledKeepsWords(words: seq<string>, n: nat, width: string -> int, maxWidth: int)
    requires n <= |words|
    ensures var f := Filled(words, n, width, maxWidth);
            Flatten(f.done) + f.current == words[..n]
  {
    if n > 0 {
      FilledKeepsWords(words, n - 1, width, maxWidth);
      FillStepKeepsWords(Filled(words, n - 1, width, maxWidth), words[n - 1], width, maxWidth);
      PrefixSnoc(words, n - 1);
    }
  }

  /** Only the first line can be empty; the line being filled is empty only before the first word. */
  lemma {:induction false} FilledShape(words: seq<string>, n: nat, width: string -> int, maxWidth: int)
    requires n <= |words|
    ensures var f := Filled(words, n, width, maxWidth);
            (n == 0 ==> f.done == []) && (n > 0 ==> f.current != [])
            && forall k :: 0 < k < |f.done| ==> f.done[k] != []
  {
    if n > 0 {
      FilledShape(words, n - 1, width, maxWidth);
    }
  }

  /** Every line fits, or holds at most one word. */
  predicate EachFits(groups: seq<seq<string>>, width: string -> int, maxWidth: int)
  {
    forall k :: 0 <= k < |groups| ==> |groups[k]| <= 1 || Fits(groups[k], width, maxWidth)
  }

  /** Every line after the first starts with a word that would not have fitted on the line before it. */
  predicate BreaksOnlyWhenFull(groups: seq<seq<string>>, width: string -> int, maxWidth: int)
  {
    forall k :: 0 < k < |groups| ==> groups[k] != [] && !Fits(groups[k - 1] + [groups[k][0]], width, maxWidth)
  }

  /** Every line the loop makes fits, or holds at most one word. */
  lemma {:induction false} FilledFits(words: seq<string>, n: nat, width: string -> int, maxWidth: int)
    requires n <= |words|
    ensures var f := Filled(words, n, width, maxWidth);
            EachFits(f.done + [f.current], width, maxWidth)
  {
    if n > 0 {
      FilledFits(words, n - 1, width, maxWidth);
      var f := Filled(words, n - 1, width, maxWidth);
      var f' := Filled(words, n, width, maxWidth);
      var before, after := f.done + [f.current], f'.done + [f'.current];
      if f'.done == f.done {
        assert Fits(f'.current, width, maxWidth);
        forall k | 0 <= k < |after| ensures |after[k]| <= 1 || Fits(after[k], width, maxWidth) {
          if k < |f.done| {
            assert after[k] == before[k];
          }
        }
      } else {
        assert after == before + [[words[n - 1]]];
      }
    }
  }

  /** The loop starts a new line only when the next word does not fit on the current one. */
  lemma {:induction false} FilledIsGreedy(words: seq<string>, n: nat, width: string -> int, maxWidth: int)
    requires n <= |words|
    ensures var f := Filled(words, n, width, maxWidth);
            BreaksOnlyWhenFull(f.done + [f.current], width, maxWidth)
  {
    if n > 0 {
      FilledIsGreedy(words, n - 1, width, maxWidth);
      FilledShape(words, n - 1, width, maxWidth);
      var f := Filled(words, n - 1, width, maxWidth);
      var f' := Filled(words, n, width, maxWidth);
      var before, after := f.done + [f.current], f'.done + [f'.current];
      var w := words[n - 1];
      if f'.done == f.done {
        assert f'.current == f.current + [w];
        forall k | 0 < k < |after|
          ensures after[k] != [] && !Fits(after[k - 1] + [after[k][0]], width, maxWidth)
        {
          if k == |f.done| {
            assert f.current != [] && after[k][0] == before[k][0];
          } else {
            assert after[k] == before[k];
          }
          assert after[k - 1] == before[k - 1];
        }
      } else {
        assert after == before + [[w]];
      }
    }
  }

  /** Once a word is placed, the first line is empty exactly when the first word alone does not fit. */
  lemma {:induction false} FirstLineSettled(words: seq<string>, n: nat, width: string -> int, maxWidth: int)
    requires 0 < n <= |words|
    ensures var g := Filled(words, n, width, maxWidth);
            var groups := g.done + [g.current];
            groups[0] == [] <==> !Fits([words[0]], width, maxWidth)
  {
    FilledShape(words, n, width, maxWidth);
    if n > 1 {
      FirstLineSettled(words, n - 1, width, maxWidth);
      FilledShape(words, n - 1, width, maxWidth);
    }
  }

  /**
   * The wrapped caption: at least one line; all the words, each once and in
   * order; every line fits or holds one word; a line breaks only where the
   * next word would not fit; and only the first line can be empty, which
   * happens exactly when there are no words or the first word is too wide.
   */
  lemma WrapProperties(words: seq<string>, width: string -> int, maxWidth: int)
    ensures var groups := Wrap(words, width, maxWidth);
            |groups| >= 1
            && Flatten(groups) == words
            && EachFits(groups, width, maxWidth)
            && BreaksOnlyWhenFull(groups, width, maxWidth)
            && (groups[0] == [] <==> words == [] || !Fits([words[0]], width, maxWidth))
  {
    var n := |words|;
    var f := Filled(words, n, width, maxWidth);
    FilledKeepsWords(words, n, width, maxWidth);
    FlattenSnoc(f.done, f.current);
    assert words[..n] == words;
    FilledShape(words, n, width, maxWidth);
    FilledFits(words, n, width, maxWidth);
    FilledIsGreedy(words, n, width, maxWidth);
    if n > 0 {
      FirstLineSettled(words, n, width, maxWidth);
    }
  }

  /** The words of every group are words of the text: non-empty and without whitespace. */
  lemma {:induction false} FlattenTokens(groups: seq<seq<string>>)
    requires Tokens(Flatten(groups))
    ensures forall k :: 0 <= k < |groups| ==> Tokens(groups[k])
  {
    if groups != [] {
      var init, last := groups[..|groups| - 1], groups[|groups| - 1];
      var flat := Flatten(groups);
      assert flat == Flatten(init) + last;
      assert Tokens(Flatten(init)) by {
        assert forall j :: 0 <= j < |Flatten(init)| ==> flat[j] == Flatten(init)[j];
      }
      assert Tokens(last) by {
        assert forall j :: 0 <= j < |last| ==> flat[|Flatten(init)| + j] == last[j];
      }
      FlattenTokens(init);
    }
  }

  /**
   * Splitting each drawn line back into words gives that line's words: the
   * lines together carry exactly the words of the caption, each once, in order.
   */
  lemma LinesCarryWords(text: string, width: string -> int, maxWidth: int)
    ensures var groups := Wrap(Words(text), width, maxWidth);
            var lines := Lines(groups);
            Flatten(groups) == Words(text)
            && forall k :: 0 <= k < |lines| ==> Words(lines[k]) == groups[k]
  {
    var groups := Wrap(Words(text), width, maxWidth);
    WrapProperties(Words(text), width, maxWidth);
    WordsAreTokens(text);
    FlattenTokens(groups);
    forall k | 0 <= k < |groups| ensures Words(Lines(groups)[k]) == groups[k] {
      WordsOfJoin(groups[k]);
    }
  }

  /**
   * `make_text_clip`'s placement (app.py lines 151-156): the lines are stacked
   * `LineHeight` apart so that the block ends `BottomGap` above the bottom
   * edge, and each is centred, rounding its left offset down.
   */
  method PlaceLines(lines: seq<string>, frameWidth: int, frameHeight: int, width: string -> int)
    returns (xs: seq<int>, ys: seq<int>)
    ensures |xs| == |ys| == |lines|
    ensures forall i :: 0 <= i < |lines| ==> ys[i] == frameHeight - LineHeight * (|lines| - i) - BottomGap
    ensures forall i :: 0 <= i < |lines| ==>
              var right := frameWidth - width(lines[i]) - xs[i];
              xs[i] <= right <= xs[i] + 1
  {
    xs, ys := [], [];
    var y := frameHeight - |lines| * LineHeight - BottomGap;
    for i := 0 to |lines|
      invariant |xs| == |ys| == i
      invariant y == frameHeight - LineHeight * (|lines| - i) - BottomGap
      invariant forall j :: 0 <= j < i ==> ys[j] == frameHeight - LineHeight * (|lines| - j) - BottomGap
      invariant forall j :: 0 <= j < i ==>
                  var right := frameWidth - width(lines[j]) - xs[j];
                  xs[j] <= right <= xs[j] + 1
    {
      var w := width(lines[i]);
      var x := (frameWidth - w) / 2;
      xs, ys := xs + [x], ys + [y];
      y := y + LineHeight;
    }
  }
}
