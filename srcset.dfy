/**
 * Choosing which image to download from an `<img>` tag's responsive
 * source set: the first space-separated token of the last comma-separated
 * candidate, after trimming whitespace (the widest one on a site that lists
 * candidates in increasing width).
 */
module Srcset {
  import opened PyStr

  /** `srcset.split(',')[-1].strip().split(' ')[0]`. */
  function ChooseImageUrl(srcset: string): string
  {
    Split(Strip(Last(Split(srcset, ','))), ' ')[0]
  }

  /**
   * The chosen URL contains neither a comma nor a space, and it is the part of
   * the trimmed last candidate up to its first space, or all of it.
   */
  lemma {:induction false} ChosenUrlIsOneToken(srcset: string)
    ensures var url, candidate := ChooseImageUrl(srcset), Strip(Last(Split(srcset, ',')));
            ',' !in url && ' ' !in url && url <= candidate
            && (|url| < |candidate| ==> candidate[|url|] == ' ')
  {
    var last := Last(Split(srcset, ','));
    var candidate := Strip(last);
    var url := Split(candidate, ' ')[0];
    assert |url| < |candidate| ==> candidate[|url|] == ' ' by {
      SplitFirstIsPrefix(candidate, ' ');
    }
    assert ' ' !in url by {
      SplitPiecesLackSep(candidate, ' ');
    }
    assert url <= candidate by {
      SplitFirstIsPrefix(candidate, ' ');
    }
    assert ',' !in last by {
      SplitLastIsSuffix(srcset, ',');
    }
    assert ',' !in candidate by {
      StripSlice(last);
      var a := |last| - |TrimStart(last)|;
      assert candidate == last[a..a + |candidate|];
    }
    assert ',' !in url by {
      assert forall k :: 0 <= k < |url| ==> url[k] == candidate[k];
    }
  }

  /** Where the chosen URL begins in the source set: after the last comma and the whitespace following it. */
  function UrlStart(srcset: string): int
  {
    |srcset| - |TrimStart(Last(Split(srcset, ',')))|
  }

  /**
   * The chosen URL is the text of the source set at `UrlStart`, up to
   * whitespace or the end, and no comma follows that point.
   */
  lemma {:induction false} UrlFollowsLastComma(srcset: string)
    ensures var url, i := ChooseImageUrl(srcset), UrlStart(srcset);
            0 <= i && i + |url| <= |srcset| && srcset[i..i + |url|] == url && ',' !in srcset[i..]
            && (i + |url| == |srcset| || IsSpace(srcset[i + |url|]))
  {
    var last := Last(Split(srcset, ','));
    assert |last| <= |srcset| && last == srcset[|srcset| - |last|..] && ',' !in last by {
      SplitLastIsSuffix(srcset, ',');
    }
    assert ChooseImageUrl(srcset) <= Strip(last)
           && (|ChooseImageUrl(srcset)| < |Strip(last)| ==> Strip(last)[|ChooseImageUrl(srcset)|] == ' ') by {
      ChosenUrlIsOneToken(srcset);
    }
    UrlInCandidate(srcset, last, ChooseImageUrl(srcset), UrlStart(srcset));
  }

  /** The URL step of `UrlFollowsLastComma`, over plain values. */
  lemma {:induction false} UrlInCandidate(s: string, last: string, url: string, i: int)
    requires |last| <= |s| && last == s[|s| - |last|..] && ',' !in last
    requires url <= Strip(last) && i == |s| - |TrimStart(last)|
    requires |url| < |Strip(last)| ==> Strip(last)[|url|] == ' '
    ensures 0 <= i && i + |url| <= |s| && s[i..i + |url|] == url && ',' !in s[i..]
    ensures i + |url| == |s| || IsSpace(s[i + |url|])
  {
    var a, candidate := |last| - |TrimStart(last)|, Strip(last);
    assert a + |candidate| <= |last| && candidate == last[a..a + |candidate|]
           && forall k :: a + |candidate| <= k < |last| ==> IsSpace(last[k]) by {
      StripSlice(last);
    }
    SliceOfSuffix(s, last, a, candidate, url);
    if i + |url| < |s| {
      assert s[i + |url|] == last[a + |url|];
      if |url| < |candidate| {
        assert last[a + |url|] == candidate[|url|];
      }
    }
  }

  /** A prefix of a slice of a comma-free suffix of `s` lies in `s`, and no comma follows it. */
  lemma {:induction false} SliceOfSuffix(s: string, last: string, a: nat, candidate: string, url: string)
    requires |last| <= |s| && last == s[|s| - |last|..] && ',' !in last
    requires a + |candidate| <= |last| && candidate == last[a..a + |candidate|]
    requires url <= candidate
    ensures var i := |s| - |last| + a;
            i + |url| <= |s| && s[i..i + |url|] == url && ',' !in s[i..]
  {
    var i := |s| - |last| + a;
    forall k | 0 <= k < |url| ensures s[i + k] == url[k] {
      assert url[k] == candidate[k] == last[a + k];
    }
    assert s[i..] == last[a..];
  }
}
