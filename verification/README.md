# Playout bookkeeping of the luis-hls live channel, in Dafny

The channel encodes a queue of MP4 videos into HLS segments with GStreamer and
serves a growing live media playlist. Around the external encoder sit two pieces of
sequential bookkeeping. This project models both as pure functions over
strings, sequences and a set of file names that stands in for a directory.

* `app/main.py`, the playout loop:
  * which raw videos are accepted, and how their names are normalised;
  * the append-only `video_queue` and its cursor `current_video_index`, moved
    by the encoder's bus messages;
  * the live playlist rewritten from `all_segments`;
  * the merge of newly produced `.ts` names after each session;
  * the SCTE-35 ad marker;
  * the `file` to preview-URL rewrite of `view_json`.
* `app/schedule.py`, the scheduler:
  * `merge_playlists`, which renames a session's segments onto the global
    `SEGMENT_COUNTER` and appends them to the global playlist;
  * the merge guard of `process_video`;
  * one cycle of `play_videos_in_order`.

Modules, one file each:

| file | module | what it holds |
|---|---|---|
| wrappers.dfy | `Wrappers` | `Option` and `Result` |
| seqs.dfy | `Seqs` | list comprehension with a condition (`Filter`), `list(dict.fromkeys(..))` (`Dedup`), first-occurrence index |
| text.dfy | `Text` | `\s` and `isspace`, `re.sub(r'\s+', '', ..)`, `strip`, `upper`, `replace('MP4', 'mp4')`, `in` on strings, newline-terminated lines |
| order.dfy | `Order` | `<` on `str` and `sorted` |
| segment_names.dfy | `SegmentNames` | `f"segment_{n:05d}.ts"` and parsing it back |
| playlist.dfy | `Playlist` | `regenerate_playlist` |
| playout.dfy | `Playout` | queue and cursor, `bus_call` and the main loop that dispatches to it, the ad marker, the post-session segment merge |
| ingest.dfy | `Ingest` | `is_valid_mp4`, `preprocess_video`, one pass of `normalize_videos` |
| schedule.dfy | `Schedule` | `merge_playlists` as written and the corrected staged merge, `process_video`, `play_videos_in_order` |
| preview.dfy | `Preview` | the rewrite loop of `view_json` over a JSON value |

How the model represents the program:

* A directory is a `set<string>` of file names. A move removes the source name
  and adds the target name.
* The auxiliary playlist is the sequence of lines its file iterator yields,
  each with its terminator.
* Writes to the global playlist are kept as a list of `Write` values: a tag
  line copied verbatim, or the segment numbered `n`. `Concat` renders them as
  the text that lands in the file.
* A Python exception is the `Err` side of a `Result`.
* The encoder is an input: its exit status, the files it produced, and the
  auxiliary playlist it left.

What the code does, where its docstrings or its configuration suggest more:

* `is_valid_mp4`'s docstring (app/main.py:89) promises H.264 video and AAC
  audio; the code tests only the `.mp4` suffix (app/main.py:90).
* `preprocess_video` reports success as soon as the path is valid, whatever
  the `cp` it runs did (app/main.py:95-97).
* An error on the bus stops the loop without moving the cursor
  (app/main.py:155-158); only end of stream moves it.
* `max-files=0` (app/main.py:144, app/schedule.py:41): no segment is ever
  evicted, and `all_segments` only grows.
* Every `#EXT-X-ENDLIST` line of the auxiliary playlist is copied on every
  merge (app/schedule.py:73-74), so the global playlist gains one per video.
* The in-place renaming can overwrite a source, and the session loop never
  dispatches a bus message (see Findings).

## Model

| member | source | states |
|---|---|---|
| Seqs.Dedup | app/main.py:219 | `list(dict.fromkeys(xs))` has no duplicates and exactly the elements of `xs` |
| Seqs.DedupFirstOccurrenceOrder | app/main.py:219 | the de-duplicated list orders its elements by where each first occurs in the input |
| Seqs.DedupPrefix | app/main.py:218-219 | extending the list before de-duplicating never changes the de-duplicated form of what was already there |
| Seqs.DedupDropsRepeat | app/main.py:219 | a later repetition of an element already present leaves no trace in the result |
| Seqs.DedupOfNoDup | app/main.py:219 | a list without duplicates comes back unchanged |
| Seqs.FilterMembers | app/main.py:104 | a comprehension with a condition keeps an element exactly when it occurs and passes the test |
| Seqs.FilterCounts | app/main.py:104 | every element that passes keeps all its occurrences, and every other element none |
| Seqs.FilterAppend | app/main.py:104 | filtering distributes over concatenation, so the kept elements stay in their relative order |
| Text.RemoveWhitespace | app/main.py:108 | the normalised name holds no whitespace character, and a name without whitespace is returned unchanged |
| Text.RemoveWhitespaceCounts | app/main.py:108 | every non-whitespace character keeps its number of occurrences; no whitespace is left |
| Text.RemoveWhitespaceAppend | app/main.py:108 | removal distributes over concatenation, so the kept characters stay in their original order |
| Text.RemoveWhitespaceIdempotent | app/main.py:108 | normalising an already normalised name changes nothing |
| Text.RemoveWhitespaceKeepsSuffix | app/main.py:104-108 | a name ending in `.mp4` still ends in `.mp4` after normalisation |
| Text.Upper | app/main.py:300 | `upper()` keeps the length, turns every lower-case letter into its capital (32 code points lower), so none is left, and leaves every other character where it was |
| Text.UpperIdempotent | app/main.py:300 | upper-casing an upper-cased name changes nothing |
| Text.UpperAppend | app/main.py:300-301 | upper-casing distributes over concatenation, so appending `.MP4` commutes with it |
| Text.LowerMp4Complete | app/main.py:303 | after `replace('MP4', 'mp4')` no `MP4` is left, not even one formed across a replaced occurrence |
| Text.LowerMp4Upper | app/main.py:303 | the replacement changes only the case of letters |
| Text.LowerMp4Unchanged | app/main.py:303 | a string without `MP4` is returned unchanged |
| Text.LowerMp4Append | app/main.py:303 | the replacement distributes over a concatenation whose second part cannot continue an `MP4` begun in the first |
| Text.TrimStartShape | app/schedule.py:75-76 | `lstrip` drops exactly the leading run of whitespace and keeps the rest as a suffix |
| Text.TrimEndShape | app/schedule.py:75-76 | `rstrip` drops exactly the trailing run of whitespace and keeps the rest as a prefix |
| Text.TrimEmpty | app/schedule.py:75 | `line.strip()` is empty exactly when every character of the line is whitespace |
| Text.TrimShape | app/schedule.py:76 | `strip()` yields a contiguous piece of the line without whitespace at either end |
| Text.TrimLine | app/schedule.py:76 | a line read with its newline strips back to its text when that text has no whitespace at its ends |
| Text.SplitJoinLines | app/main.py:169-175 | writing lines each with a newline and reading them back yields the same lines, when no line holds a newline |
| Order.LessIrreflexive | app/main.py:217 | no string is smaller than itself |
| Order.LessTransitive | app/main.py:217 | string `<` is transitive |
| Order.LessTotal | app/main.py:217 | any two strings are equal or ordered one way or the other |
| Order.Insert | app/main.py:217 | inserting into a sorted list keeps it sorted and adds exactly that one string |
| Order.Sort | app/main.py:217 | `sorted` returns an ascending permutation of its input |
| Order.SortedUnique | app/main.py:217 | two sorted permutations of one multiset of strings are equal, so any correct sort agrees with Python's `sorted` |
| Order.SortIsSorted | app/main.py:217 | any ascending permutation of the input is the sort's result |
| SegmentNames.DecimalValue | app/schedule.py:77 | the decimal digits of `n` denote `n` |
| SegmentNames.Format05Value | app/schedule.py:77 | the zero-padded digits of `{n:05d}` still denote `n` |
| SegmentNames.DecimalLength | app/schedule.py:77 | `str(n)` has at most `k` digits exactly when `n < 10^k` |
| SegmentNames.Format05Length | app/schedule.py:77 | `{n:05d}` is exactly five digits long exactly when `n < 100000` |
| SegmentNames.SegmentNameLength | app/schedule.py:77 | a segment name has 16 characters exactly when its counter is below 100000 |
| SegmentNames.ParseFormat | app/schedule.py:77 | parsing the digits of `segment_{n:05d}.ts` gives back `n` |
| SegmentNames.FormatParse | app/schedule.py:77 | a 16-character name that parses to `n` is the formatted name of `n`, and `n < 100000` |
| SegmentNames.DigitsOrder | app/schedule.py:77 | for digit strings of one length, string order is numeric order, both ways |
| SegmentNames.SegmentNameOrder | app/schedule.py:77 | below 100000, `segment_{n:05d}.ts < segment_{m:05d}.ts` as strings exactly when `n < m`, which the `sorted` of new names relies on |
| SegmentNames.SegmentNameOrderBreaksAtWidth | app/schedule.py:77 | at 100000 the name grows a digit and sorts before the name of 99999 |
| SegmentNames.SegmentNameInjective | app/schedule.py:77 | different counters give different names |
| Playlist.EntriesAsLines | app/main.py:174-175 | one `#EXTINF:5,\n{segment}\n` write per segment is the same text as the entry lines joined with newlines |
| Playlist.EntryLinesAppend | app/main.py:174-175 | the entry lines of two lists of segments are those of the first followed by those of the second |
| Playlist.EntryLinesSnoc | app/main.py:174-175 | one more segment adds exactly its `#EXTINF:5,` line and its name at the end |
| Playlist.PlaylistAsLines | app/main.py:166-175 | the rewritten playlist is the four header lines followed by the entry lines |
| Playlist.ReadBackPlaylist | app/main.py:166-175 | read back line by line, the playlist is `#EXTM3U`, `#EXT-X-VERSION:3`, `#EXT-X-MEDIA-SEQUENCE:0`, `#EXT-X-TARGETDURATION:5`, then `#EXTINF:5,` and the segment for each segment in order, `4 + 2n` lines in all, when no segment name holds a newline (the ad marker does; see Playout.AdMarkerMidPlaylist) |
| Playout.OnBusMessage | app/main.py:151-163 | an error stops the loop with the state unchanged; end of stream stops it with the cursor at `(i+1) mod len`, in range; an empty queue on end of stream raises; other messages change nothing; the queue is never touched and a valid state stays valid |
| Playout.CurrentVideo | app/main.py:126-130 | for a valid state, a video is read exactly when the queue is non-empty, and it is the one under the cursor |
| Playout.AfterEndOfStreams | app/main.py:159-162 | end-of-stream messages never change the queue |
| Playout.PlayOrder | app/main.py:159-162 | after `n` videos end the cursor is `(i+n) mod len`, in range, and the next video read is the one `n` places on |
| Playout.RunLoop | app/main.py:151-163 | the main loop hands bus messages to the handler until one stops it; it never touches the queue, keeps a valid state valid, and cannot fail on a non-empty queue |
| Playout.RunLoopFirstQuit | app/main.py:151-163 | a session ends at the first message that stops the loop: earlier messages change nothing, later ones are never handled, an error keeps the cursor and an end of stream moves it on by one |
| Playout.StreamSession | app/main.py:194-209 | as written, the running test comes before `loop.run()` on a fresh loop, so a session leaves the state unchanged whatever the bus carries |
| Playout.StreamSessionIntended | app/main.py:194-209 | with the loop run first, a session never touches the queue and cannot fail on a non-empty queue |
| Playout.EndOfStreamIgnored | app/main.py:201-209 | with two queued videos and an end of stream, the session as written replays the first video where the intended one moves on to the second |
| Playout.EnqueueTwice | app/main.py:115 | two appends to the queue are one append of both batches |
| Playout.EnqueueKeepsCursor | app/main.py:115 | appending only extends the queue; a valid cursor stays valid (on an empty queue, cursor 0 becomes the first new video) and keeps pointing at the same video |
| Playout.InsertAdvertisement | app/main.py:73-86 | with the ad video present exactly one `AD_SCTE35_MARKER` is appended at the end; without it the list is unchanged |
| Playout.MarkerAsLines | app/main.py:44 | the marker's own newline turns into an extra empty line when it is written after `#EXTINF:5,` |
| Playout.AdMarkerInPlaylist | app/main.py:84-85 | after an ad, the playlist reads back as before plus `#EXTINF:5,`, the cue line and an empty line |
| Playout.AdMarkerMidPlaylist | app/main.py:166-175 | with the marker anywhere among newline-free segment names, as after later merges append names behind it, the playlist reads back as the header, the entries before the marker, `#EXTINF:5,`, the cue line, an empty line, then the entries after it |
| Playout.AdMarkerMidLineCount | app/main.py:166-175 | with the marker among `n` entries, the playlist reads back as `4 + 2n + 1` lines, one more than newline-free names give |
| Playout.NewSegments | app/main.py:217 | the new names are an ascending permutation of the listing's `.ts` names: sorted, with each name as often as the listing has it |
| Playout.CollectSegments | app/main.py:217-219 | the merged list has no duplicates; its elements are the old ones and the new `.ts` names; a duplicate-free old list stays a prefix |
| Playout.OldSegmentsStayInFront | app/main.py:218-219 | a duplicate-free old list is a prefix of the merged list |
| Playout.CollectSegmentsOrder | app/main.py:217-219 | the merged list orders names by first occurrence in the old list followed by the sorted new names |
| Playout.CollectSegmentsIdempotent | app/main.py:217-219 | merging again over an unchanged directory changes nothing |
| Playout.RepeatedAdMarkerDropped | app/main.py:217-219 | once one ad marker is in the list, a second ad break leaves no trace after the next merge |
| Ingest.PreprocessVideo | app/main.py:93-98 | success is reported exactly for a path ending in `.mp4` (case-sensitive), whether or not the copy lands; the output name is stored exactly when it was already or the copy of a valid path lands; nothing else is stored |
| Ingest.NameShape | app/main.py:104-108 | every normalised `.mp4` name has no whitespace and still ends in `.mp4` |
| Ingest.NormalizeFileMp4 | app/main.py:106-118 | an `.mp4` file whose normalised name is stored is skipped; otherwise that name is enqueued, and stored only if the copy lands |
| Ingest.NormalizeAllSpec | app/main.py:106-118 | over `.mp4` names the loop enqueues exactly the reference list (each name not stored before and not already copied from an earlier file, in listing order) and stores the names of exactly the files whose copy landed |
| Ingest.EnqueuedAllLand | app/main.py:106-118 | when every copy lands, the enqueued names are the distinct new normalised names in first-occurrence order |
| Ingest.NormalizePassSpec | app/main.py:101-118 | one scan of a raw listing enqueues the reference list for its `.mp4` names and stores the names of the landed copies |
| Ingest.NormalizePassEnqueues | app/main.py:104-118 | a scan only extends the queue and the store and never moves the cursor; it enqueues nothing stored before, and each name it enqueues is free of whitespace and ends in `.mp4` |
| Ingest.NormalizePassLanded | app/main.py:104-118 | when every copy lands, a scan enqueues each name once and only names it has stored |
| Ingest.NormalizePassIdempotent | app/main.py:101-118 | when every copy lands, scanning the same listing twice equals scanning it once |
| Ingest.FailedCopyRequeued | app/main.py:103-120 | a `.mp4` file whose copy does not land never reaches the store, so each of `k` scans enqueues its name again |
| Ingest.OnlyMp4Queued | app/main.py:104 | of an `.mp4` file and a file of another kind, only the `.mp4` one's normalised name is queued |
| Ingest.SameNormalNameQueuedOnce | app/main.py:108-111 | two raw names that normalise alike are queued once when the first one's copy lands |
| Schedule.MergePlaylists | app/schedule.py:55-85 | without an auxiliary playlist nothing changes; otherwise the global playlist exists after, extends its old text or the header, and the counter never goes down |
| Schedule.ClassifyUri | app/schedule.py:73-75 | a line is copied exactly when it starts with `#EXTINF` or `#EXT-X-ENDLIST`, and read as a URI exactly when it is no `#` line and not blank |
| Schedule.HashLines | app/schedule.py:73-75 | a copied tag starts with `#`, and no `#` line is a URI line |
| Schedule.UriLineOfName | app/schedule.py:75-77 | a segment name read with its newline is a URI line naming that segment |
| Schedule.MergeTagsCopied | app/schedule.py:72-74 | every `#EXTINF` and `#EXT-X-ENDLIST` line reaches the global playlist verbatim and in order, and no other line is copied |
| Schedule.MergeNamesNumbered | app/schedule.py:77-85 | the names written carry consecutive numbers from the old counter up to the new one |
| Schedule.MergeNamesStep | app/schedule.py:82-85 | one line moves the counter by at most one and only a URI line moves it; a URI whose file exists has it moved to the old counter's name, which is written; otherwise the files and counter stay |
| Schedule.MergeCounterBound | app/schedule.py:75-85 | the counter grows by at most the number of URI lines |
| Schedule.MergeOutput | app/schedule.py:71-85 | the global playlist becomes its old text or the header, followed by exactly the copied tags and the consecutively numbered names; the counter moves by the number of names |
| Schedule.MergeCreatesHeader | app/schedule.py:64-69 | with no global playlist, the merge starts it with exactly the four header lines |
| Schedule.MergeKeepsGlobal | app/schedule.py:71 | an existing global playlist is an untouched prefix of the result |
| Schedule.ClobberFirstMove | app/schedule.py:82-85 | with counter `c`, moving `segment_{c-1}` lands on the still-unmoved `segment_{c}` |
| Schedule.ClobberSecondMove | app/schedule.py:82-85 | the next line finds the moved file under `segment_{c}` and moves it on to `segment_{c+1}` |
| Schedule.MergeClobbersLaterSource | app/schedule.py:75-85 | for every counter `c >= 1`, sources `segment_{c-1}` and `segment_{c}` end as one file, while the playlist names `segment_{c}`, which no longer exists |
| Schedule.MergeStaged | app/schedule.py:55-85 | the corrected merge keeps the as-written merge's guard, header and prefix behaviour and never lowers the counter |
| Schedule.PlanCounts | app/schedule.py:75-85 | the staged plan claims one number per source; the sources are the distinct URI names present at the start, in first-occurrence order |
| Schedule.PlanTagsCopied | app/schedule.py:72-74 | the staged merge copies the same tags, verbatim and in order |
| Schedule.PlanNamesNumbered | app/schedule.py:77-85 | the staged merge writes consecutive numbers from the old counter to the new one |
| Schedule.MergeStagedOutput | app/schedule.py:71-85 | the corrected global playlist is the old text or the header, then the copied tags and the consecutively numbered names |
| Schedule.MergeStagedSources | app/schedule.py:75-85 | the corrected counter moves by exactly the number of distinct URI names whose file existed when the merge began |
| Schedule.TargetsPresent | app/schedule.py:82-85 | every number the corrected merge hands out names a file afterwards |
| Schedule.MergeAsStaged | app/schedule.py:71-85 | when no URI line names a segment name the counter may already have handed out before that line, the in-place merge leaves exactly the files, playlist text and counter of the staged merge |
| Schedule.MergeMovesEachSource | app/schedule.py:75-85 | in that case the in-place merge moves each distinct URI name present at the start exactly once onto consecutive numbers from the old counter, and changes no other file |
| Schedule.MergeOntoOwnNames | app/schedule.py:75-85 | when the auxiliary playlist names the segments from the counter on, in order (the first merge of a process: counter 0 and names from `segment_00000.ts`), every move renames a file onto itself: the condition above holds, the two merges agree, and if every listed segment exists the files stay as they were while the counter moves by the number of names |
| Schedule.ProcessVideoGuard | app/schedule.py:51-52 | without exit status 0 or an auxiliary playlist the counter and global playlist stay put; with both, `merge_playlists` runs on the directory; the global playlist only grows |
| Schedule.PlayCycle | app/schedule.py:97-104 | a cycle processes exactly the predefined entries that exist, in list order; the counter never drops; the global playlist only grows |
| Schedule.PlayCycleDir | app/schedule.py:97-104 | the directory a cycle leaves is `process_video` applied front to back to exactly the existing entries, each with the encoder run of its position |
| Preview.KeyIndex | app/main.py:299 | `"file" in obj` finds the first entry with that key, or reports that none has it |
| Preview.RewriteItem | app/main.py:298-303 | an object without `file` passes unchanged; an object stays an object; `in` on `null`, a boolean or a number raises `TypeError` |
| Preview.RewriteFileObject | app/main.py:299-303 | a string `file` entry is replaced by its preview URL while every key and every other entry stays |
| Preview.RewriteNonStringFile | app/main.py:300 | a `file` value that is not a string raises `AttributeError` |
| Preview.RewriteList | app/main.py:298-305 | a rewritten list has as many elements as the original |
| Preview.RewriteListPointwise | app/main.py:298-305 | a list is rewritten exactly when each element is, and then element by element, in order |
| Preview.RewriteListFirstFault | app/main.py:298-305 | a failing list fails with the exception of its first failing element |
| Preview.ViewJson | app/main.py:293 | a document that is not an object raises `AttributeError` on `.items()` |
| Preview.ViewOnlyLists | app/main.py:293-305 | the result holds exactly the list-valued keys in document order, each with its list rewritten |
| Preview.ViewFailsIff | app/main.py:293-305 | the request fails exactly when some list-valued entry fails to rewrite |
| Preview.PreviewNameShape | app/main.py:300-301 | `.MP4` is appended exactly when the upper-cased name lacks it; the name handed on always contains it, so asking twice changes nothing |
| Preview.PreviewUrlShape | app/main.py:303 | the URL is the preview prefix followed by the name with no `MP4` left, equal to it up to letter case |
| Preview.PreviewUrlAppends | app/main.py:300-303 | a name without `.MP4` in any case becomes the prefix, the name with its `MP4`s lowered, then `.mp4` |

## Left out

- File I/O, `os.system("cp ...")`, `shutil.move` and `os.listdir` are replaced by a set of names, and listings are inputs. A listing is taken as given; the names the operating system returns are not modelled.
- Why a `cp` fails (a `'` in the name breaks its quoting; a full disk) is not modelled. Which raw names fail is an input, the set `fails`.
- Ingest.NormalizePassIdempotent: holds only when every copy lands; Ingest.FailedCopyRequeued states what a failing copy does instead.
- GStreamer pipelines, `gst-launch-1.0` and `subprocess.Popen` are the external encoder. Its exit status, produced files and auxiliary playlist are inputs (`EncoderRun`).
- The `hlssink` encoder overwriting segment files of an earlier session is not modelled. A run's produced names are added to the directory.
- Threads and `time.sleep` are left out. The GLib main loop is modelled only as its running flag and the dispatch of bus messages to `bus_call`.
- The wall-clock ad timer (`time.time()` floats, app/main.py:181 and 203) is left out, because it is clock-driven. Only the list update of `insert_advertisement` is modelled.
- The pipeline strings built by `create_gstreamer_pipeline` and `create_gstreamer_pipeline_for_ad` are opaque encoder input. Only the queue read at app/main.py:130 is modelled.
- Flask routes (`start_stream`, `list_videos`, `view_epg`, `download_epg`, `preview_video`) and app/app.py are HTTP plumbing with no logic to verify.
- `view_json`: the JSON file's existence check, its 404 answer, `json.load` and `jsonify` are left out. The model starts from the loaded document and returns the result as an ordered list of entries.
- JSON numbers are integers only, because floats play no part in the rewrite. An object holds one entry per key, as a Python dict does.
- Text.Upper: maps ASCII letters only, because full Unicode case mapping (which can change length) is not modelled.
- Text.IsSpace: a fixed set of code points stands for Python's Unicode whitespace.
- URI lines in the auxiliary playlist are stripped and joined to the output directory. A line naming a path outside that directory is not modelled.
- Schedule.MergeOutput: states the counter's move as the number of names written, and bounds it by the number of URI lines. The exact count and the files moved are stated by Schedule.MergeMovesEachSource, only when no URI line names a segment name the counter may already have handed out before that line (Schedule.MergeOntoOwnNames shows this covers the first merge of a process), because otherwise a file's existence depends on earlier moves.
- Playout.OnBusMessage: the `GLib` loop's `quit()` is a flag in the result; the message's error details are not modelled.

## Findings

| source | as written | input that shows it | evidently intended | confidence | as-written member | corrected member |
|---|---|---|---|---|---|---|
| app/schedule.py:75-85 | each segment is moved to `segment_{SEGMENT_COUNTER:05d}.ts` in place, in the same directory where the encoder wrote `segment_00000.ts`, `segment_00001.ts`, ... | counter 1; the auxiliary playlist lists `segment_00000.ts` and `segment_00001.ts`; both files exist; no global playlist. The first move overwrites `segment_00001.ts`; the second moves that file on to `segment_00002.ts`. The playlist names `segment_00001.ts` and `segment_00002.ts`, but only `segment_00002.ts` exists, and the second source's content is lost | every source present when the merge starts gets its own new number, and every written name is a file afterwards | not executed | Schedule.MergeClobbersLaterSource | Schedule.MergeStaged (proved in Schedule.MergeStagedOutput, Schedule.MergeStagedSources, Schedule.TargetsPresent) |
| app/main.py:201-209 | the inner loop tests `loop.is_running()` before it ever calls `loop.run()`, and a freshly created `GLib.MainLoop` is not running | two queued videos `a.mp4` and `b.mp4`, cursor 0, the encoder ends the first video. The loop is left before `loop.run()`, so `bus_call` never sees the end of stream; the cursor stays 0 and the next session plays `a.mp4` again | the loop runs until `bus_call` stops it, so the end of stream moves the cursor to 1 and `b.mp4` plays next | not executed | Playout.StreamSession (shown by Playout.EndOfStreamIgnored) | Playout.StreamSessionIntended (proved in Playout.RunLoopFirstQuit) |

The corrected merge first plans the moves against a snapshot of the directory.
It removes every source and then adds every target. `Schedule.MergeAsStaged`
shows that the merge as written does the same whenever no URI line names a
segment name the counter may already have handed out before that line. `Schedule.ProcessVideo` and the
scheduler cycle run the merge as written.
