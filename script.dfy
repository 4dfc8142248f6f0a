/**
 * The text side of the pipeline: the encyclopedia excerpt with its length cap
 * and fallback sentence, the fixed advertising template, the prefixes handed
 * to speech synthesis and to the caption, and the download file name.
 */
module Script {
  import opened PyStr

  /** Returned whenever the scrape yields nothing or fails. */
  const Fallback: string := "Découvrez les avantages uniques de ce sujet."
  /** Characters kept of the joined paragraphs. */
  const ExcerptCap: nat := 1000
  /** Paragraphs read from the article body. */
  const ParagraphLimit: nat := 5
  /** Characters of the excerpt that go into the script. */
  const ScriptExcerptBudget: nat := 400
  /** Characters of the script sent to speech synthesis. */
  const SpeechBudget: nat := 1000
  /** Characters of the script shown as a caption (before the ellipsis). */
  const CaptionBudget: nat := 180
  const Ellipsis: string := "..."

  /**
   * What the article request produced: an error (network failure, timeout,
   * parse error), a page without the main content container, or the texts of
   * that container's paragraphs in document order.
   */
  datatype ArticlePage = Unreachable | NoContentDiv | ContentDiv(paragraphs: seq<string>)

  /** The first `ParagraphLimit` paragraphs, each stripped, joined by single spaces. */
  function JoinedParagraphs(paragraphs: seq<string>): (j: string)
  {
    var first := Take(paragraphs, ParagraphLimit);
    Join(seq(|first|, i requires 0 <= i < |first| => Strip(first[i])), ' ')
  }

  /** The excerpt fetcher: capped joined paragraphs, or the fallback sentence. */
  function GetContent(page: ArticlePage): (r: string)
    ensures r != []
    ensures |r| <= ExcerptCap
    ensures !page.ContentDiv? ==> r == Fallback
    ensures page.ContentDiv? ==>
              var j := JoinedParagraphs(page.paragraphs);
              if j == [] then r == Fallback
              else r <= j && |r| == (if |j| < ExcerptCap then |j| else ExcerptCap)
  {
    var content := if page.ContentDiv? then Take(JoinedParagraphs(page.paragraphs), ExcerptCap) else "";
    if content != [] then content else Fallback
  }

  /** Paragraphs after the fifth never influence the excerpt. */
  lemma {:induction false} ContentReadsFiveParagraphs(ps: seq<string>, qs: seq<string>)
    requires Take(ps, ParagraphLimit) == Take(qs, ParagraphLimit)
    ensures GetContent(ContentDiv(ps)) == GetContent(ContentDiv(qs))
  {
  }

  /** The attention hook that opens every script. */
  function Opening(subject: string, company: string): string
  {
    "Attention ! " + subject + " change tout ! Avec " + company + ", profitez du meilleur. "
  }

  /** The call to action that closes every script. */
  function Closing(company: string): string
  {
    "... Chez " + company + ", qualité, innovation et confiance."
  }

  /** The advertising template: hook, at most 400 characters of excerpt, call to action. */
  function GenerateScript(subject: string, company: string, content: string): (r: string)
    ensures StartsWith(r, Opening(subject, company))
    ensures EndsWith(r, Closing(company))
    ensures |r| == |Opening(subject, company)| + |Take(content, ScriptExcerptBudget)| + |Closing(company)|
  {
    Opening(subject, company) + Take(content, ScriptExcerptBudget) + Closing(company)
  }

  /** The excerpt part of a script, given the subject and company it was built for. */
  function ExcerptOf(script: string, subject: string, company: string): string
    requires |Opening(subject, company)| + |Closing(company)| <= |script|
  {
    script[|Opening(subject, company)|..|script| - |Closing(company)|]
  }

  /** Reading the excerpt back out of a script yields exactly the 400-character prefix used. */
  lemma {:induction false} ExcerptOfScript(subject: string, company: string, content: string)
    ensures var s := GenerateScript(subject, company, content);
            |Opening(subject, company)| + |Closing(company)| <= |s|
            && ExcerptOf(s, subject, company) == Take(content, ScriptExcerptBudget)
  {
    var o, p, c := Opening(subject, company), Take(content, ScriptExcerptBudget), Closing(company);
    var s := o + p + c;
    assert s[|o|..|s| - |c|] == p;
  }

  /** Two excerpts give the same script exactly when their first 400 characters agree. */
  lemma {:induction false} ScriptSeesFirst400(subject: string, company: string, a: string, b: string)
    ensures GenerateScript(subject, company, a) == GenerateScript(subject, company, b)
            <==> Take(a, ScriptExcerptBudget) == Take(b, ScriptExcerptBudget)
  {
    ExcerptOfScript(subject, company, a);
    ExcerptOfScript(subject, company, b);
  }

  /** The text given to speech synthesis: the script's first 1000 characters. */
  function SpeechText(script: string): (r: string)
    ensures r <= script && |r| == if |script| < SpeechBudget then |script| else SpeechBudget
    ensures |script| <= SpeechBudget ==> r == script
  {
    Take(script, SpeechBudget)
  }

  /** Speech synthesis receives the whole script whenever subject and company are short enough. */
  lemma {:induction false} SpeechKeepsShortScripts(subject: string, company: string, content: string)
    requires |subject| + 2 * |company| <= 500
    ensures SpeechText(GenerateScript(subject, company, content)) == GenerateScript(subject, company, content)
  {
    assert |Opening(subject, company)| == 56 + |subject| + |company|;
    assert |Closing(company)| == 44 + |company|;
  }

  /** The caption text: the script's first 180 characters and an ellipsis. */
  function CaptionText(script: string): (r: string)
    ensures |r| <= CaptionBudget + |Ellipsis|
    ensures EndsWith(r, Ellipsis)
    ensures r[..|r| - |Ellipsis|] <= script
    ensures |r| == |Ellipsis| + (if |script| < CaptionBudget then |script| else CaptionBudget)
  {
    Take(script, CaptionBudget) + Ellipsis
  }

  /** The suggested name of the downloaded video: `Pro_<company>_<subject>.mp4`, spaces as underscores. */
  function DownloadFileName(company: string, subject: string): (r: string)
    ensures ' ' !in r
    ensures StartsWith(r, "Pro_") && EndsWith(r, ".mp4")
    ensures |r| == |company| + |subject| + 9
    // the company comes first, then an underscore, then the subject, each with its spaces as underscores
    ensures r[4..4 + |company|] == ReplaceSpaces(company, '_') && r[4 + |company|] == '_'
    ensures r[5 + |company|..|r| - 4] == ReplaceSpaces(subject, '_')
  {
    "Pro_" + ReplaceSpaces(company, '_') + "_" + ReplaceSpaces(subject, '_') + ".mp4"
  }

  /**
   * The name gives back the company and the subject, with their spaces read
   * as underscores, once the company's length is known.
   */
  lemma DownloadFileNameReadsBack(company: string, subject: string, company': string, subject': string)
    ensures DownloadFileName(company, subject) == DownloadFileName(company', subject') && |company| == |company'|
            <==> ReplaceSpaces(company, '_') == ReplaceSpaces(company', '_')
                 && ReplaceSpaces(subject, '_') == ReplaceSpaces(subject', '_')
  {
    var r, r' := DownloadFileName(company, subject), DownloadFileName(company', subject');
    var c, c' := ReplaceSpaces(company, '_'), ReplaceSpaces(company', '_');
    var t, t' := ReplaceSpaces(subject, '_'), ReplaceSpaces(subject', '_');
    if r == r' && |company| == |company'| {
      assert c == r[4..4 + |company|] == c';
      assert t == r[5 + |company|..|r| - 4] == t';
    }
    if c == c' && t == t' {
      assert |company| == |c| == |c'| == |company'|;
    }
  }

  /** Without that length the name is ambiguous: a space may sit on either side of the separator. */
  lemma DownloadFileNamesCollide()
    ensures DownloadFileName("a b", "c") == DownloadFileName("a", "b c")
  {
    assert ReplaceSpaces("a b", '_') == "a_b" && ReplaceSpaces("b c", '_') == "b_c";
  }
}
