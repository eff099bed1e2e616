# ytcc caption download — Dafny model

This project models the `Download` class of `ytcc/download.py`, which fetches the
automatically generated captions of a video and reduces them to a single line of
plain text. Three pieces of logic in it are modelled and proved:

1. **The caption normaliser** (`get_captions_from_output`, `remove_time_from_caption`),
   module `Captions` with string helpers in `Text`. The input is the sequence of
   printed cues. Each cue is the string the caption parser prints for it. The
   normaliser turns every escaped `\n` of a cue into a line break. It drops the
   cue's first and last character and replaces its header line by one line break.
   It concatenates the stripped cues and splits the result on line breaks. It
   removes a line only when it equals the line immediately before it, starting
   from an empty cursor. It joins what is left with single spaces.
2. **The options dictionary** (`__init__`, `update_opts` and the in-place append in
   `get_result`), module `Options`. The defaults are overridden key by key. Take
   a call of `get_result` with a non-empty language, and a `subtitleslangs`
   entry that can be unpacked. It appends that language to `subtitleslangs` in
   the object's own dictionary. So repeated calls accumulate entries, even when
   the download then fails. A flag or the logger in that entry cannot be
   unpacked: the call raises `TypeError` and nothing is appended.
3. **Retrieval and the batch loop** (`get_result`, `get_captions`,
   `get_captions_batch`), module `Download`. The downloader, the file system and
   the caption parser are function-valued fields of an `Env`. A non-zero status
   and every raised error become an `Error`. The batch is a left fold over the
   ids. It threads the options through and records only successes.

Three behaviours of the code are worth knowing:

- The empty lines produced by the split are ordinary lines. Take two cues
  whose texts end in a line break and whose last lines are not empty. The
  empty line between the cues survives. (When the first cue's text is only a
  line break, its empty lines collapse against the starting cursor instead.) The
  output then has a double space where the cues meet and a trailing space:
  `hello world  world again `. The lemma
  `Captions.TwoCuesWithTrailingBreaks` states this. It also shows that a line
  that ends one such cue and starts the next is kept twice.
- A cue with no line break left after trimming is kept whole. It is not dropped.
- `get_captions_batch` also changes the object's options. With a non-empty
  language, and a `subtitleslangs` entry that can be unpacked, it appends that
  language once per id, whether or not the id succeeds.

## Model

| member | source | states |
|---|---|---|
| Text.Unescape | ytcc/download.py:96 | replacing escaped `\n` pairs never lengthens a cue, starts the result with a line break when the cue starts with an escaped pair, otherwise with the cue's first character, and is the identity on text without a backslash |
| Text.UnescapeLeavesNoEscape | ytcc/download.py:96 | the left-to-right replacement leaves no backslash followed by `n` behind |
| Text.UnescapeEscape | ytcc/download.py:96 | unescaping inverts the parser's escaping of line breaks for every text that holds no escaped pair of its own |
| Text.UnescapeEscapeThen | ytcc/download.py:96 | an escaped backslash-free text unescapes back to itself whatever follows it |
| Text.UnescapePlainPrefix | ytcc/download.py:96 | text without a backslash passes through the replacement unchanged, whatever follows it |
| Text.UnescapeWrapped | ytcc/download.py:96 | escaped backslash-free text between two plain characters unescapes back to itself between the same characters |
| Text.Split | ytcc/download.py:101 | splitting on line breaks gives at least one piece, even for the empty text, and no piece holds a line break |
| Text.SplitFromPlain | ytcc/download.py:101 | text without a line break is one piece |
| Text.SplitAround | ytcc/download.py:101 | splitting at a line break splits the text on either side independently |
| Text.JoinSplit | ytcc/download.py:101 | joining the split pieces with line breaks gives the text back |
| Text.SplitJoin | ytcc/download.py:101 | splitting the join of break-free lines gives the same lines back |
| Captions.FirstBreak | ytcc/download.py:110 | the lazy match ends at a line break with no line break before it, or covers the whole text when there is none |
| Captions.RemoveTimeFromCaption | ytcc/download.py:108-110 | after dropping the first and last characters: text with a line break becomes one break followed by everything after its first break; text without one is returned whole; the result is never longer than the trimmed text, so at least two characters shorter than a cue of two or more |
| Captions.RemoveTimeAt | ytcc/download.py:108-110 | for any line break of the trimmed text with none before it, the result is one break followed by everything after it: the header removed is exactly the first line |
| Captions.RemoveTimeOfHeader | ytcc/download.py:108-110 | a wrapped cue made of a header line and caption text keeps only one line break followed by the caption text |
| Text.Trim | ytcc/download.py:109 | slicing `[1:-1]` leaves exactly the characters between the first and the last, and nothing for a string shorter than two |
| Captions.StripCue | ytcc/download.py:95-96 | a stripped cue is at least two characters shorter than the cue, a cue shorter than two characters strips to nothing, and a cue without a backslash only loses its wrapping and header |
| Captions.StripPrintedCue | ytcc/download.py:95-96 | a cue printed with escaped line breaks is unescaped and loses its header line |
| Text.ConcatAppend | ytcc/download.py:93-97 | appending pieces one at a time concatenates two runs of pieces into the concatenation of each run |
| Captions.Flatten | ytcc/download.py:93-97 | no cues give the empty text, and one cue gives exactly that cue stripped |
| Captions.FlattenAppend | ytcc/download.py:93-97 | stripped cues are concatenated in cue order with nothing inserted between them |
| Captions.FlattenPrefix | ytcc/download.py:94-97 | each pass of the first loop appends exactly the next stripped cue |
| Captions.ConcatStripped | ytcc/download.py:93-97 | the first loop builds exactly the in-order concatenation of the stripped cues |
| Captions.Collapse | ytcc/download.py:99-104 | the kept lines are drawn from the input, no two neighbours are equal, and the first differs from the starting cursor |
| Captions.CollapseStep | ytcc/download.py:100-104 | each next line is kept exactly when it differs from the line immediately before it (or from the cursor at the start); the cursor moves on every line |
| Captions.CollapseFixpoint | ytcc/download.py:99-104 | a sequence without equal neighbours whose head differs from the cursor is unchanged by the collapse |
| Captions.CollapseIdempotent | ytcc/download.py:99-104 | collapsing the kept lines again returns them unchanged |
| Captions.CollapseWithoutRepeats | ytcc/download.py:99-104 | on lines without equal neighbours the collapse drops at most a leading line equal to the cursor |
| Captions.NonAdjacentRepeatKeptExample | ytcc/download.py:100-104 | a line equal to an earlier, non-neighbouring line is kept |
| Captions.EmptyLinesExample | ytcc/download.py:100-104 | empty lines are collapsed like any other line and only against their neighbour |
| Captions.CollapsePrefix | ytcc/download.py:101-104 | each pass of the second loop appends a break and the line exactly when the line differs from the cursor, and moves the cursor to the line |
| Captions.CollapseLines | ytcc/download.py:99-104 | the second loop builds a break followed by each kept line, in order |
| Captions.PrefixedAppend | ytcc/download.py:103 | keeping one more line extends the text by a line break and that line |
| Captions.Render | ytcc/download.py:106 | the final text holds no line break, and no kept lines give the empty string |
| Text.ReplaceChar | ytcc/download.py:106 | replacing line breaks by spaces keeps the length, leaves no line break, and changes only the line breaks |
| Text.DropFirst | ytcc/download.py:106 | slicing `[1:]` leaves everything after the first character, and the empty string for the empty string |
| Captions.RenderIsJoin | ytcc/download.py:103-106 | replacing the breaks by spaces and dropping the first character equals joining the kept lines with single spaces |
| Captions.NormalizeText | ytcc/download.py:99-106 | the text after the first loop normalises to text without a line break, and the empty text to the empty string |
| Captions.Normalize | ytcc/download.py:90-106 | the normalised captions hold no line break, and an empty cue sequence gives the empty string |
| Captions.NormalizeIsJoinOfKept | ytcc/download.py:90-106 | the result is the kept lines joined by spaces; those lines come from the split stream, hold no break, have no equal neighbours, and the first is never empty |
| Captions.NormalizeWithoutRepeats | ytcc/download.py:90-106 | when the split lines have no equal neighbours, the result is those lines joined by spaces, minus a leading empty line |
| Captions.NormalizeTextOfLines | ytcc/download.py:99-106 | text made of break-free lines without equal neighbours, starting with an empty line, comes out as the other lines joined by single spaces |
| Captions.TrailingBreaksText | ytcc/download.py:99-106 | two stripped cues that each end in a line break give a double space where they meet and a trailing space |
| Captions.TwoCuesWithTrailingBreaks | ytcc/download.py:90-110 | two cues ending in a line break give a double space where they meet and a trailing space, and a line shared across them is not collapsed |
| Captions.SharedLineText | ytcc/download.py:99-106 | two stripped cues without trailing breaks that share a line give that line once |
| Captions.TwoCuesSharingALine | ytcc/download.py:90-110 | two cues without trailing breaks that share a line give that line once |
| Captions.GetCaptionsFromOutput | ytcc/download.py:90-106 | the two loops and the final replace compute exactly the normalised captions, which hold no line break |
| Options.Defaults | ytcc/download.py:17-22 | the four default keys, with no language list |
| Options.Update | ytcc/download.py:23-26 | `dict.update` keeps every key of either dictionary; a passed key takes the passed value, every other key keeps its old one |
| Options.Init | ytcc/download.py:16-23 | after construction every passed key maps to the passed value, the other defaults keep their values, and no other key exists |
| Options.UpdateOpts | ytcc/download.py:25-26 | every passed key maps to the passed value and every other key keeps its value |
| Options.Characters | ytcc/download.py:71 | unpacking a string gives one one-character string per character, in order |
| Options.RequestedLanguages | ytcc/download.py:71 | a missing entry unpacks to no languages, a list to its items in order, a string to its characters; only a flag or the logger fails to unpack |
| Options.AddLanguage | ytcc/download.py:69-71 | an empty language leaves the options unchanged; a non-empty one is appended after the earlier entries and no other key changes; an entry that cannot be unpacked is an error |
| Options.AddLanguageTwice | ytcc/download.py:69-71 | two calls give two entries, in call order, after the earlier ones |
| Options.AddLanguageAccumulates | ytcc/download.py:69-71 | `n` calls append `n` copies of the language and leave every other key alone |
| Download.VideoUrl | ytcc/download.py:87-88 | the URL is the watch address followed by `?v=` and the encoded id |
| Download.StatusOf | ytcc/download.py:74-85 | a returned status passes through unchanged, and every raised error becomes a failure |
| Download.GetResult | ytcc/download.py:68-85 | the options are updated before the download and stay updated whatever it returns; the result is the returned status |
| Download.GetCaptions | ytcc/download.py:28-40 | retrieval succeeds exactly when the status is 0 and the file the downloader wrote with the updated options parses; the value is then the normalised captions; a non-zero status is an error carrying that status |
| Download.GetCaptionsBatch | ytcc/download.py:54 | an empty id list gives an empty map and leaves the options alone |
| Download.Fold | ytcc/download.py:56-63 | the loop never removes an entry it starts with and only adds ids from the list |
| Download.RecordsCons | ytcc/download.py:58-63 | recording the first id's success and then what the rest of the loop records gives exactly the keys and values the loop promises for the whole list |
| Download.FoldSpec | ytcc/download.py:56-65 | the loop's keys are the starting keys plus the ids whose retrieval succeeded; each maps to its last success; a failure never removes an entry |
| Download.BatchSpec | ytcc/download.py:42-65 | the batch's keys are exactly the ids whose retrieval succeeded, each mapped to its last successful result |
| Download.AllFailedBatchIsEmpty | ytcc/download.py:56-65 | when every retrieval fails, the result is an empty map, not an error |
| Download.MiddleFailureSkipped | ytcc/download.py:56-65 | of three distinct ids whose second fails, exactly the first and the third are mapped, to their results |
| Download.FoldAppendsLanguage | ytcc/download.py:58-71 | every retrieval in the loop appends the language, whether or not it succeeds |
| Download.BatchAppendsLanguage | ytcc/download.py:42-71 | a batch of `n` ids leaves `n` more copies of the language in `subtitleslangs`, and every other key as it was |
| Download.GetCaptionsBatchLoop | ytcc/download.py:54-65 | the imperative loop, including the early return for an empty list, computes the same options and map as the fold |

## Left out

- The downloader (`youtube_dl.YoutubeDL` and its `download`) is not modelled. It is the `Env.download` parameter. Its errors appear only as the three kinds `get_result` tells apart. The exception message texts are not modelled.
- Opening and reading the subtitle file, `Storage` path computation and `remove_file` are not modelled. They are file-system I/O, and `ytcc/storage.py` is not part of this model. Reading and parsing together are the `Env.cues` parameter, which may fail. It receives the options handed to the downloader, because the file holds what the downloader wrote with them (its name follows `outtmpl`, its languages `subtitleslangs`). How the file's contents depend on those options is not modelled. The file is left behind when parsing raises. The model does not record this, because it has no file system.
- `WebVTTReader` and the exact output of `str(caption)` are not modelled. This is a foreign library, so the printed cues are taken as input. `Captions.PrintedCue` is an assumed printing shape. It is used only by the example lemmas.
- Download.VideoUrl: `urlencode` is the `Env.quote` parameter. So only the prefix `?v=` and the encoded suffix are stated, not the percent-encoding.
- `FakeLogger` is represented by the opaque value `Logger`. The default value `'en'` of the `language` arguments is not modelled: every operation takes the language as an explicit parameter, and a default only chooses that value.
- Python's mutable default argument `opts = {}` in `__init__` is not modelled. That dictionary is only read, never changed.
- Exceptions outside the modelled ones are not modelled. Examples are a non-string language or a non-hashable id. The batch loop would skip such an id like any other failure.
- `get_captions_batch` returns a Python dict, whose iteration order is the order in which ids were first inserted. `Batch.captions` is a `map` and keeps no order. Only which ids are present and the value of each are modelled.
- `Options.Value` has four shapes: a flag, a string, a list of strings and the logger. Option values of other Python types cannot be expressed. Examples are `None`, an int or a tuple. So `subtitleslangs: None`, which raises `TypeError` when unpacked, and a tuple, which unpacks like a list, are not modelled.
