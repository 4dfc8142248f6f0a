# agentvideo core, modelled in Dafny

The application is a small Streamlit page. It turns a subject and a company
name into a short advertising video:

1. It fetches an encyclopedia excerpt about the subject (`get_content`).
2. It wraps the excerpt in a fixed advertising template (`generate_script`).
3. It synthesises the narration and boosts its loudness with an external
   encoder (`boost_audio_volume`).
4. It scrapes a few photos from a photo search page (`get_images`).
5. It lays the caption over the frame (`make_text_clip`), with the frame size
   chosen from the platform picked in the interface.
6. Whatever happens, it tries to remove every path on its cleanup list: the
   narration, the music, the video and the returned images (the `finally`
   block).

This project models that core in `app.py` and proves what it promises.

| file | module | what it models |
|---|---|---|
| `pystr.dfy` | `PyStr` | The Python string builtins the core relies on: `isspace`, `strip`, `split(sep)`, `split()`, `' '.join`, slicing and `replace(' ', '_')`. Also their algebra: split/join round trip, `split()` of a join, `strip` as a slice. |
| `script.dfy` | `Script` | `get_content` (with the 1000-character cap and the fallback sentence), `generate_script`, the 1000-character speech prefix, the 180-character caption and the download file name. |
| `srcset.dfy` | `Srcset` | The URL chosen from an `<img srcset>` attribute. |
| `files.dfy` | `Files` | The directory the pipeline writes to, as a class. Its methods are `tempfile.mktemp`, `open(...,'wb')`, `os.path.exists`, `os.remove` and `os.replace`. Files held open elsewhere make a removal or replacement fail. |
| `audio.dfy` | `Audio` | `boost_audio_volume`: the copy swapped in or removed. |
| `images.dfy` | `Images` | `get_images`, as methods on the file system, proved against a loop-free reference. The reference keeps the first `num` (one when `num` is 0) complete status-200 downloads before the first exception. |
| `caption.dfy` | `Caption` | `make_text_clip`: greedy word wrap and the placement of the lines. |
| `layout.dfy` | `Layout` | The platform-to-frame-size table. |
| `cleanup.dfy` | `Cleanup` | The `finally` cleanup loop and what it leaves on disk. |

Network answers are inputs to the model:
- The article page is an `ArticlePage`.
- The search page is a `ResultsPage` of `Tag`s.
- Each image request's outcome is a `Download`.
- The encoder's output is an `Option<nat>` file size.

The font's text-length measure is an arbitrary function `width: string -> int`.

The model shows that the cleanup list does not hold every temporary file the
job makes. When an image body breaks off mid-stream, its temporary file stays
on disk and is not among the returned images. Its name differs from those of
the narration, the music and the video, so the final cleanup never removes it
(`Cleanup.BrokenDownloadSurvivesCleanup`). A large boosted copy that could not
replace a locked narration stays on disk too (`Audio.BoostAudioVolume`).

## Model

| member | source | states |
|---|---|---|
| PyStr.Take | app.py:59 | A slice `s[:n]` is a prefix of `s` of length `min(n, len(s))`. |
| PyStr.StripSlice | app.py:77 | `strip()` gives a contiguous piece of the string, starting after its leading whitespace, and that piece has no whitespace at either end. |
| PyStr.Split | app.py:76 | `split(sep)` always yields at least one piece, so indexing `[-1]` and `[0]` never raises. |
| PyStr.SplitPiecesLackSep | app.py:76 | No piece of `split(sep)` contains the separator. |
| PyStr.JoinSplit | app.py:76 | Joining the pieces of `split(sep)` with `sep` gives back the original string. |
| PyStr.SplitLastIsSuffix | app.py:76 | The last piece of `split(sep)` is the text after the last separator: a suffix without a separator. |
| PyStr.SplitFirstIsPrefix | app.py:77 | The first piece of `split(sep)` is a prefix of the string. |
| PyStr.Words | app.py:139 | `split()` finds a word whenever the text starts with a non-space character. |
| PyStr.JoinWords | app.py:139 | Joining the words of `split()` with single spaces gives the text with every inner whitespace run collapsed to one space and both ends stripped. That normalisation is defined character by character, so `split()` drops nothing but whitespace. |
| PyStr.WordsUnique | app.py:139 | A list is the result of `split()` if and only if its words are non-empty, contain no whitespace and join with single spaces to the normalised text. |
| PyStr.WordsAreTokens | app.py:139 | Every word from `split()` is non-empty and contains no whitespace. |
| PyStr.WordsOfJoin | app.py:139 | Applying `split()` to space-joined words returns exactly those words. |
| PyStr.ReplaceSpaces | app.py:261 | `replace(' ', c)` keeps the length and changes exactly the spaces into `c`. |
| Script.GetContent | app.py:48-62 | The excerpt is never empty and at most 1000 characters. It is the fallback sentence when the request fails, the container is missing or the joined text is empty. Otherwise it is the first 1000 characters of the stripped first five paragraphs joined by spaces. |
| Script.ContentReadsFiveParagraphs | app.py:58 | Paragraphs after the fifth never change the excerpt. |
| Script.GenerateScript | app.py:91-96 | The script starts with the hook naming subject and company and ends with the call to action. Its length is theirs plus that of at most 400 characters of excerpt. |
| Script.ExcerptOfScript | app.py:95 | Cutting hook and call to action off a script gives back exactly the first 400 characters of the excerpt. |
| Script.ScriptSeesFirst400 | app.py:95 | Two excerpts give the same script if and only if their first 400 characters agree. |
| Script.SpeechText | app.py:194 | Speech synthesis receives the first `min(1000, len(script))` characters of the script, so the whole script when it is short enough. |
| Script.SpeechKeepsShortScripts | app.py:194 | When subject and company are short enough, speech synthesis receives the whole script. |
| Script.CaptionText | app.py:237 | The caption is a prefix of the script of at most 180 characters followed by `...`. |
| Script.DownloadFileName | app.py:261 | The file name contains no space. It starts with `Pro_` and ends with `.mp4`. Between them come the company, an underscore and the subject, each with its spaces turned into underscores. |
| Script.DownloadFileNameReadsBack | app.py:261 | Two names are equal, for companies of equal length, if and only if the companies and the subjects agree with spaces read as underscores. |
| Script.DownloadFileNamesCollide | app.py:261 | Without the company's length the name is ambiguous: company "a b" with subject "c" gives the same name as company "a" with subject "b c". |
| Srcset.ChosenUrlIsOneToken | app.py:76-77 | The chosen URL contains no comma and no space. It is the trimmed last candidate up to its first space, or the whole candidate when it has no space. |
| Srcset.UrlFollowsLastComma | app.py:76-77 | The chosen URL is the text of the attribute right after the last comma and its whitespace. It runs up to whitespace or the end of the attribute, and no comma follows it. |
| Files.FileSystem.MakeTemp | app.py:80 | `mktemp` hands out a name not yet on disk and creates no file. |
| Files.FileSystem.Write | app.py:81-83 | Writing a file sets its size and leaves every other file alone. |
| Files.FileSystem.Remove | app.py:124 | `os.remove` deletes exactly the named file. It fails, changing nothing, when the file is missing or locked. |
| Files.FileSystem.Replace | app.py:121 | `os.replace` moves the source's contents onto the destination and removes the source. It fails, changing nothing, on a missing or locked file. |
| Audio.BoostAudioVolume | app.py:112-126 | The narration takes the boosted copy's size, and the copy disappears, when the copy exists, exceeds 10000 bytes and neither file is locked. A large copy that cannot replace a locked file stays on disk beside the unchanged narration. A missing copy leaves the disk as it was. A too small copy is removed, leaving the disk as it was, unless the copy is locked and stays. The narration changes only through a large enough copy, and no other file is touched. |
| Images.Examined | app.py:73 | `find_all` hands over the first `3*num` tags, or all of them for `num == 0`. |
| Images.Visit | app.py:75-86 | One tag: the URL is the one chosen from its `srcset`. A status-200 answer is written to a fresh `.jpg` file and kept when complete. The pass changes the scan state as `Step` says, and the disk and the returned list reflect the new state. |
| Images.ScanTags | app.py:75-87 | The loop over the tags leaves on disk exactly the files its reference state wrote, returns the names of the kept ones and requests the tags up to where it stopped. |
| Images.GetImages | app.py:64-89 | The scrape returns fresh consecutive temporary names of the kept images. Exactly the written files are added to the disk, with their sizes, and nothing else changes. A failed page request returns no image and touches nothing. |
| Images.StoppedScanStays | app.py:85-87 | Once the loop has ended, later tags change nothing. |
| Images.WriteTempsHolds | app.py:80-83 | Every written file is on disk under its temporary name with its size. |
| Images.WriteTempsKeeps | app.py:80-83 | Files under other names keep their presence and size. |
| Images.ReferenceStep | app.py:78-86 | One pass of the loop preserves agreement with the loop-free reference. |
| Images.ScanMatchesReference | app.py:75-88 | After any number of tags, the loop state is the reference state. It holds the first completed images before the first exception, up to the cap: `num`, or one when `num` is 0. It has stopped exactly on an exception or on reaching the cap, and it has left a file behind exactly on a broken body before the cap. |
| Images.FirstFailureIsFirst | app.py:78-87 | The reference's first exception raises, and no earlier download does. |
| Images.GatherKeepsFirstCompleted | app.py:73-89 | The scrape keeps the complete status-200 downloads before the first exception, in tag order, at most `num` of them, or one when `num` is 0. |
| Images.ExceptionKeepsEarlierImages | app.py:78-88 | An exception before `num` images are collected ends the scrape and keeps every image completed before it. A file is left behind exactly when the exception was a broken body. |
| Images.BrokenDownloadLeavesFile | app.py:80-84 | A body that breaks off leaves its file on disk, and that file is not among the returned images. |
| Caption.TestLine | app.py:143 | `f"{line} {word}".strip()` is the current line's words plus the new word, separated by single spaces. |
| Caption.WrapStep | app.py:142-148 | One pass of the loop on strings does what the greedy step does on word groups. |
| Caption.WrapWord | app.py:143-148 | One pass of the loop changes the finished lines and the current line as the greedy step does on word groups. |
| Caption.WrapWords | app.py:140-149 | The loop over words without whitespace ends with one string per line of the greedy wrapping. |
| Caption.WrapCaption | app.py:137-149 | The loop produces the greedy wrapping of the caption's words, one string per line. |
| Caption.FillStepKeepsWords | app.py:142-148 | One pass places exactly the next word after those already placed. |
| Caption.FilledKeepsWords | app.py:142-148 | After any number of passes, the lines hold exactly the words seen so far, in order. |
| Caption.FilledShape | app.py:140-148 | No finished line after the first is empty, and once a word is read the line being filled is non-empty. |
| Caption.FilledFits | app.py:144-148 | Every line fits the width or holds a single word. |
| Caption.FilledIsGreedy | app.py:144-148 | A new line starts only when the next word would not fit on the previous one. |
| Caption.FirstLineSettled | app.py:142-148 | The first line is empty exactly when the first word alone is too wide. |
| Caption.WrapProperties | app.py:137-149 | The wrapped caption has at least one line and holds all words once, in order. Each line fits or holds one word, and breaks happen only where the next word does not fit. Only the first line can be empty, exactly when there are no words or the first is too wide. |
| Caption.FlattenTokens | app.py:139-149 | Every wrapped line consists of words from `split()`: non-empty, without whitespace. |
| Caption.LinesCarryWords | app.py:139-149 | Splitting each drawn line back into words gives that line's words, so the lines together carry exactly the caption's words. |
| Caption.PlaceLines | app.py:151-156 | Lines are stacked 55 pixels apart, the block ending 80 pixels above the bottom edge. Each line is centred, its left offset rounded down. |
| Layout.FrameFor | app.py:217-222 | A label starting with "TikTok" gets a portrait frame, else one starting with "YouTube" a landscape frame, else a square one. The short side is always 1080 pixels. |
| Layout.ChoicesGetTheirAspectRatio | app.py:166-170 | Each of the three platform choices gets the aspect ratio its label names: 9:16, 16:9 and 1:1. |
| Cleanup.CleanupList | app.py:271 | The cleanup list holds the narration, the music and the video, in that order, followed by the images in order. |
| Cleanup.CleanupListHasJobPaths | app.py:271 | The narration, the music and the video, when present, and every returned image are on the cleanup list. |
| Cleanup.Cleanup | app.py:270-277 | The loop tries one removal per listed path that exists, ignores failures, and ends in the state the loop-free fold describes. |
| Cleanup.SweptFiles | app.py:272-277 | After the sweep a file is on disk exactly when it was there before and it was unlisted or locked; files left keep their sizes. |
| Cleanup.SweptAttempts | app.py:272-277 | A removal is attempted for exactly the listed paths that existed, and a removable file is attempted once however often it is listed. |
| Cleanup.JobLeavesNoFiles | app.py:270-277 | After the job, none of the narration, the music, the video and the returned images remains unless it was locked. Every file not on the list is untouched. |
| Cleanup.BrokenDownloadSurvivesCleanup | app.py:81-84 | The file of a broken image download is not on the cleanup list and survives the cleanup. The narration and music were named before the scrape and the video after it, and the scrape did not return that file. |

## Left out

- The Streamlit interface, progress bar, messages and the download button are not modelled. Only the button's file name is.
- The HTTP requests and HTML parsing are inputs. The article page is an `ArticlePage` and the search page a `ResultsPage`. Each image request is a `Download`. `Images.Tag` holds only the `srcset` text and that download's outcome.
- `get_text()` of a paragraph is taken as given (the strings in `ArticlePage`).
- The URL built from the subject is not modelled. It only addresses the request.
- `download_background_music` (app.py:98-110) is not modelled. The music path is only an input to the cleanup list.
- gTTS synthesis, `tts.save` and the `ffmpeg` command are not modelled. The narration is a path, and the encoder's output is the `encoded` parameter of `Audio.BoostAudioVolume`.
- The video assembly with moviepy is not modelled: clip durations (floating point), crossfades, compositing, encoding and `write_videofile`.
- The font loading with fallback is not modelled. Only the text-length measure matters, and it is an arbitrary function.
- Caption.PlaceLines: the text length is a float in the source; the model treats it as an integer, so `//` on floats is the integer floor there. Drawing the text is not modelled.
- Files.FileSystem.MakeTemp: the random name and a possible collision with a file another process creates after `mktemp` are not modelled. Names are numbered, and a fresh one is never on disk.
- Files.FileSystem.Write: chunked writing is one write of the total size. A failing write, such as a full disk, is not modelled.
- Files.FileSystem.Remove: every error from `os.remove` (permission, file in use) is the single `locked` set.
- Images.GetImages: an exception anywhere in the loop comes from the tag's `Download`. A failure in `mktemp` or `open` is not modelled.
- Cleanup.Cleanup: `if path` also skips an empty string. Paths here are never empty, so only an absent (`None`) path is skipped.
- `gc.collect()` is not modelled; it has no observable effect on the files.
