/** Playout state of the GStreamer loop: the append-only queue of normalised
    videos with its cursor, the encoder's bus messages that move the cursor,
    the list of every segment the live playlist has shown, and the ad marker. */
module Playout {
  import opened Wrappers
  import Seqs
  import Order
  import Text
  import Playlist
  import SegmentNames

  /** `video_queue` and `current_video_index`. */
  datatype Playout = Playout(queue: seq<string>, cursor: nat)

  /** The start state: an empty queue, cursor 0. */
  const Initial := Playout([], 0)

  /** The cursor names a queued video, or the queue is still empty and the
      cursor is at its start value. */
  ghost predicate Valid(p: Playout) {
    p.cursor < |p.queue| || (p.queue == [] && p.cursor == 0)
  }

  /** The kinds of bus message the handler tells apart. */
  datatype Message = ErrorMessage | EndOfStream | OtherMessage

  /** What the handler raises: `% len(video_queue)` on an empty queue, or an
      index past the end of the queue. */
  datatype Fault = ZeroDivision | EmptyQueue | IndexOutOfRange

  /** The handler's effect: the new state and whether it stops the main loop. */
  datatype Reaction = Reaction(next: Playout, quitLoop: bool)

  /** `bus_call`: an error stops the loop and keeps the cursor on the failed
      video; end of stream moves the cursor on, wrapping to the front; any
      other message changes nothing. */
  function OnBusMessage(p: Playout, m: Message): (r: Result<Reaction, Fault>)
    ensures r.Ok? ==> r.value.next.queue == p.queue
    ensures r.Err? <==> m == EndOfStream && |p.queue| == 0
    ensures m == ErrorMessage ==> r == Ok(Reaction(p, true))
    ensures m == OtherMessage ==> r == Ok(Reaction(p, false))
    ensures r.Ok? && m == EndOfStream ==>
              r.value.quitLoop && r.value.next.cursor < |p.queue|
              && r.value.next.cursor == (p.cursor + 1) % |p.queue|
    ensures r.Ok? && Valid(p) ==> Valid(r.value.next)
  {
    match m
    case ErrorMessage => Ok(Reaction(p, true))
    case OtherMessage => Ok(Reaction(p, false))
    case EndOfStream =>
      if |p.queue| == 0 then Err(ZeroDivision)
      else Ok(Reaction(p.(cursor := (p.cursor + 1) % |p.queue|), true))
  }

  /** `video_queue[current_video_index]` as the pipeline builder reads it;
      an empty queue yields no pipeline. */
  function CurrentVideo(p: Playout): (r: Result<string, Fault>)
    ensures r.Ok? ==> r.value in p.queue
    ensures Valid(p) ==> (r.Ok? <==> |p.queue| > 0)
    ensures Valid(p) && |p.queue| > 0 ==> r == Ok(p.queue[p.cursor])
  {
    if |p.queue| == 0 then Err(EmptyQueue)
    else if p.cursor < |p.queue| then Ok(p.queue[p.cursor])
    else Err(IndexOutOfRange)
  }

  /** The state after `n` end-of-stream messages. */
  function AfterEndOfStreams(p: Playout, n: nat): (q: Playout)
    requires |p.queue| > 0
    ensures q.queue == p.queue
  {
    if n == 0 then p
    else OnBusMessage(AfterEndOfStreams(p, n - 1), EndOfStream).value.next
  }

  lemma ModStep(c: nat, n: nat, len: nat)
    requires len > 0
    ensures ((c + n) % len + 1) % len == (c + n + 1) % len
  {
    var a := c + n;
    var q := a / len;
    var r := a % len;
    assert a == q * len + r;
    MulSucc(q, len);
    if r + 1 < len {
      ModUnique(r + 1, 0, r + 1, len);
      ModUnique(a + 1, q, r + 1, len);
    } else {
      ModUnique(r + 1, 1, 0, len);
      ModUnique(a + 1, q + 1, 0, len);
    }
  }

  lemma MulSucc(q: nat, len: nat)
    ensures (q + 1) * len == q * len + len && 0 * len == 0 && 1 * len == len
  {
  }

  lemma ModUnique(x: nat, q: nat, r: nat, len: nat)
    requires len > 0 && r < len && x == q * len + r
    ensures x % len == r
  {
    var q2, r2 := x / len, x % len;
    assert x == q2 * len + r2;
    assert (q + 1) * len == q * len + len && (q2 + 1) * len == q2 * len + len;
    if q < q2 {
      SegmentNames.MulMono(q + 1, q2, len);
    } else if q2 < q {
      SegmentNames.MulMono(q2 + 1, q, len);
    }
  }

  /** After `n` videos end, the cursor has moved `n` places around the queue,
      stays in range, and the video played next is the one `n` places on. */
  lemma {:induction false} PlayOrder(p: Playout, n: nat)
    requires Valid(p) && |p.queue| > 0
    ensures AfterEndOfStreams(p, n).cursor == (p.cursor + n) % |p.queue|
    ensures AfterEndOfStreams(p, n).cursor < |p.queue|
    ensures CurrentVideo(AfterEndOfStreams(p, n)) == Ok(p.queue[(p.cursor + n) % |p.queue|])
  {
    if n > 0 {
      PlayOrder(p, n - 1);
      ModStep(p.cursor, n - 1, |p.queue|);
    } else {
      ModUnique(p.cursor, 0, p.cursor, |p.queue|);
    }
  }

  // ---------------------------------------------------------------------
  // One session of `stream_videos`: the GLib main loop that dispatches the
  // bus messages to the handler.
  // ---------------------------------------------------------------------

  /** `loop.run()`: bus messages reach the handler in order until one stops
      the loop; a handler fault ends the run; if the messages run out first,
      the state reached so far is kept. */
  function RunLoop(p: Playout, bus: seq<Message>): (r: Result<Playout, Fault>)
    ensures r.Ok? ==> r.value.queue == p.queue
    ensures r.Ok? && Valid(p) ==> Valid(r.value)
    ensures |p.queue| > 0 ==> r.Ok?
    decreases |bus|
  {
    if |bus| == 0 then Ok(p)
    else
      match OnBusMessage(p, bus[0])
      case Err(f) => Err(f)
      case Ok(reaction) =>
        if reaction.quitLoop then Ok(reaction.next) else RunLoop(reaction.next, bus[1..])
  }

  /** A freshly created `GLib.MainLoop()` is not running. */
  const FreshLoopRunning := false

  /** The inner `while True` of `stream_videos` for a main loop whose
      running flag is `running`: the flag is tested first, and the loop is
      left when it is clear; otherwise `loop.run()` dispatches the bus, after
      which the flag is clear and the loop is left. */
  function InnerLoop(running: bool, p: Playout, bus: seq<Message>): Result<Playout, Fault>
  {
    if !running then Ok(p) else RunLoop(p, bus)
  }

  /** One session as written: the inner loop starts on a fresh main loop, so
      whatever the encoder reports, no message reaches the handler and the
      cursor stays where it was. */
  function StreamSession(p: Playout, bus: seq<Message>): (r: Result<Playout, Fault>)
    ensures r == Ok(p)
  {
    InnerLoop(FreshLoopRunning, p, bus)
  }

  /** One session as intended: the main loop runs until the handler stops it. */
  function StreamSessionIntended(p: Playout, bus: seq<Message>): (r: Result<Playout, Fault>)
    ensures r.Ok? ==> r.value.queue == p.queue
    ensures |p.queue| > 0 ==> r.Ok?
  {
    RunLoop(p, bus)
  }

  /** With two queued videos and an end of stream on the bus, the session as
      written replays the first video, where the intended one moves on to the
      second. */
  lemma EndOfStreamIgnored()
    ensures StreamSession(Playout(["a.mp4", "b.mp4"], 0), [EndOfStream]) == Ok(Playout(["a.mp4", "b.mp4"], 0))
    ensures StreamSessionIntended(Playout(["a.mp4", "b.mp4"], 0), [EndOfStream]) == Ok(Playout(["a.mp4", "b.mp4"], 1))
  {
    var p := Playout(["a.mp4", "b.mp4"], 0);
    assert OnBusMessage(p, EndOfStream) == Ok(Reaction(p.(cursor := 1), true));
  }

  /** The intended session ends at the first message that stops the loop:
      messages before it change nothing, messages after it are never
      handled, an error keeps the cursor, and an end of stream moves it on. */
  lemma {:induction false} RunLoopFirstQuit(p: Playout, others: seq<Message>, m: Message, rest: seq<Message>)
    requires |p.queue| > 0
    requires forall i :: 0 <= i < |others| ==> others[i] == OtherMessage
    requires m != OtherMessage
    ensures StreamSessionIntended(p, others + [m] + rest)
         == Ok(if m == EndOfStream then p.(cursor := (p.cursor + 1) % |p.queue|) else p)
    decreases |others|
  {
    var bus := others + [m] + rest;
    if |others| == 0 {
      assert bus[0] == m;
    } else {
      assert bus[0] == OtherMessage;
      assert bus[1..] == others[1..] + [m] + rest;
      RunLoopFirstQuit(p, others[1..], m, rest);
    }
  }

  /** The ingest side appends normalised names; nothing else in the state moves. */
  function Enqueue(p: Playout, names: seq<string>): (q: Playout)
  {
    p.(queue := p.queue + names)
  }

  /** Two appends in a row are one append of both batches. */
  lemma EnqueueTwice(p: Playout, a: seq<string>, b: seq<string>)
    ensures Enqueue(Enqueue(p, a), b) == Enqueue(p, a + b)
  {
    assert p.queue + a + b == p.queue + (a + b);
  }

  /** Because the queue only grows, a valid cursor stays valid and keeps
      pointing at the same video. */
  lemma EnqueueKeepsCursor(p: Playout, names: seq<string>)
    requires Valid(p)
    ensures Valid(Enqueue(p, names))
    ensures p.queue <= Enqueue(p, names).queue
    ensures |p.queue| > 0 ==> CurrentVideo(Enqueue(p, names)) == CurrentVideo(p)
  {
  }

  /** `AD_SCTE35_MARKER`, with its own trailing newline. */
  const AdMarker := "#EXT-SCTE35:/DYNAMIC/PLACEMENT\n"
  const AdCueLine := "#EXT-SCTE35:/DYNAMIC/PLACEMENT"

  /** The list update of `insert_advertisement`: one marker at the end, or
      nothing when the ad video is missing. */
  function InsertAdvertisement(segments: seq<string>, adVideoExists: bool): (r: seq<string>)
    ensures segments <= r
    ensures |r| == |segments| + (if adVideoExists then 1 else 0)
    ensures adVideoExists ==> r[|r| - 1] == AdMarker
    ensures !adVideoExists ==> r == segments
  {
    if adVideoExists then segments + [AdMarker] else segments
  }

  /** The marker carries its own newline, so in the rewritten playlist it
      takes the place of a segment URI after an `#EXTINF:5,` line and leaves
      an empty line behind it. */
  lemma AdMarkerInPlaylist(segments: seq<string>)
    requires forall i :: 0 <= i < |segments| ==> Text.NoNewline(segments[i])
    ensures Text.SplitLines(Playlist.RegeneratePlaylist(InsertAdvertisement(segments, true)))
         == Playlist.HeaderLines + Playlist.EntryLines(segments) + [Playlist.ExtInfLine, AdCueLine, ""]
  {
    assert InsertAdvertisement(segments, true) == segments + [AdMarker] + [];
    assert Playlist.EntryLines([]) == [];
    AdMarkerMidPlaylist(segments, []);
  }

  /** Later merges append segment names after the marker; wherever it sits,
      the marker reads back as `#EXTINF:5,`, the cue line and an empty line,
      between the entries before it and those after it. */
  lemma AdMarkerMidPlaylist(before: seq<string>, after: seq<string>)
    requires forall i :: 0 <= i < |before| ==> Text.NoNewline(before[i])
    requires forall i :: 0 <= i < |after| ==> Text.NoNewline(after[i])
    ensures Text.SplitLines(Playlist.RegeneratePlaylist(before + [AdMarker] + after))
         == Playlist.HeaderLines + Playlist.EntryLines(before) + [Playlist.ExtInfLine, AdCueLine, ""] + Playlist.EntryLines(after)
  {
    var front := Playlist.HeaderLines + Playlist.EntryLines(before);
    var cueLines := [Playlist.ExtInfLine, AdCueLine, ""];
    var back := Playlist.EntryLines(after);
    var lines := front + cueLines + back;
    MarkerMidText(before, after);
    Playlist.LinesHaveNoNewline(before);
    Playlist.LinesHaveNoNewline(after);
    Playlist.HeaderHasNoNewline();
    assert Text.NoNewline(AdCueLine) && Text.NoNewline("");
    forall k | 0 <= k < |lines|
      ensures Text.NoNewline(lines[k])
    {
      if k < |front| {
        assert lines[k] == (Playlist.HeaderLines + Playlist.EntryLines(before))[k];
      } else if k < |front| + 3 {
        assert lines[k] == cueLines[k - |front|];
      } else {
        assert lines[k] == (Playlist.HeaderLines + back)[k - |front| - 3 + 4];
      }
    }
    Text.SplitJoinLines(lines);
  }

  /** The marker costs one line more than a segment name would: `4 + 2n + 1`. */
  lemma AdMarkerMidLineCount(before: seq<string>, after: seq<string>)
    requires forall i :: 0 <= i < |before| ==> Text.NoNewline(before[i])
    requires forall i :: 0 <= i < |after| ==> Text.NoNewline(after[i])
    ensures |Text.SplitLines(Playlist.RegeneratePlaylist(before + [AdMarker] + after))|
         == 4 + 2 * |before + [AdMarker] + after| + 1
  {
    AdMarkerMidPlaylist(before, after);
  }

  /** The written text of a playlist with the marker in the middle, as lines. */
  lemma MarkerMidText(before: seq<string>, after: seq<string>)
    ensures Playlist.RegeneratePlaylist(before + [AdMarker] + after)
         == Text.JoinLines(Playlist.HeaderLines + Playlist.EntryLines(before) + [Playlist.ExtInfLine, AdCueLine, ""] + Playlist.EntryLines(after))
  {
    var front := Playlist.HeaderLines + Playlist.EntryLines(before);
    var cueLines := [Playlist.ExtInfLine, AdCueLine, ""];
    var back := Playlist.EntryLines(after);
    var s := before + [AdMarker] + after;
    Playlist.PlaylistAsLines(s);
    Playlist.EntryLinesAppend(before + [AdMarker], after);
    Playlist.EntryLinesSnoc(before, AdMarker);
    assert Playlist.HeaderLines + Playlist.EntryLines(s) == front + [Playlist.ExtInfLine, AdMarker] + back;
    Text.JoinLinesAppend(front + [Playlist.ExtInfLine, AdMarker], back);
    Text.JoinLinesAppend(front, [Playlist.ExtInfLine, AdMarker]);
    Text.JoinLinesAppend(front + cueLines, back);
    Text.JoinLinesAppend(front, cueLines);
    MarkerAsLines();
  }

  /** Written after its `#EXTINF:5,` line, the marker's own newline adds an empty line. */
  lemma MarkerAsLines()
    ensures Text.JoinLines([Playlist.ExtInfLine, AdMarker])
         == Text.JoinLines([Playlist.ExtInfLine, AdCueLine, ""])
  {
    var cueLines := [Playlist.ExtInfLine, AdCueLine, ""];
    assert [Playlist.ExtInfLine, AdMarker][1..] == [AdMarker];
    assert cueLines[1..] == [AdCueLine, ""];
    assert cueLines[1..][1..] == [""];
    assert Text.JoinLines([AdMarker]) == AdMarker + "\n";
    assert Text.JoinLines([""]) == "\n";
    assert Text.JoinLines([AdCueLine, ""]) == AdCueLine + "\n" + "\n";
    assert AdMarker + "\n" == AdCueLine + "\n" + "\n";
  }

  predicate IsTsName(name: string) {
    Text.EndsWith(name, ".ts")
  }

  /** `sorted(f for f in os.listdir(HLS_OUTPUT_DIR) if f.endswith(".ts"))`. */
  function NewSegments(outputListing: seq<string>): (incoming: seq<string>)
    ensures Order.Sorted(incoming)
    ensures forall x :: x in incoming <==> x in outputListing && IsTsName(x)
    ensures multiset(incoming) == multiset(Seqs.Filter(outputListing, IsTsName))
  {
    var incoming := Order.Sort(Seqs.Filter(outputListing, IsTsName));
    Seqs.FilterMembers(outputListing, IsTsName);
    assert forall x :: x in incoming <==> x in Seqs.Filter(outputListing, IsTsName) by {
      forall x
        ensures x in incoming <==> x in Seqs.Filter(outputListing, IsTsName)
      {
        assert x in incoming <==> x in multiset(incoming);
      }
    }
    incoming
  }

  /** The segment-merge lines after a session: the `.ts` names of the output
      directory, sorted, appended, then de-duplicated keeping first occurrences. */
  function CollectSegments(segments: seq<string>, outputListing: seq<string>): (r: seq<string>)
    ensures Seqs.NoDup(r)
    ensures forall x :: x in r <==> x in segments || (x in outputListing && IsTsName(x))
    ensures Seqs.NoDup(segments) ==> segments <= r
  {
    var incoming := NewSegments(outputListing);
    var r := Seqs.Dedup(segments + incoming);
    OldSegmentsStayInFront(segments, incoming);
    r
  }

  lemma OldSegmentsStayInFront(segments: seq<string>, incoming: seq<string>)
    ensures Seqs.NoDup(segments) ==> segments <= Seqs.Dedup(segments + incoming)
  {
    Seqs.DedupPrefix(segments, incoming);
    if Seqs.NoDup(segments) {
      Seqs.DedupOfNoDup(segments);
    }
  }

  /** The merged list keeps the order in which names first occur in the old
      list followed by the sorted new names. */
  lemma CollectSegmentsOrder(segments: seq<string>, outputListing: seq<string>)
    ensures forall i, j :: 0 <= i < j < |CollectSegments(segments, outputListing)| ==>
              Seqs.FirstIndex(segments + NewSegments(outputListing), CollectSegments(segments, outputListing)[i])
              < Seqs.FirstIndex(segments + NewSegments(outputListing), CollectSegments(segments, outputListing)[j])
  {
    Seqs.DedupFirstOccurrenceOrder(segments + NewSegments(outputListing));
  }

  /** Repeating the merge over an unchanged directory changes nothing. */
  lemma CollectSegmentsIdempotent(segments: seq<string>, outputListing: seq<string>)
    ensures CollectSegments(CollectSegments(segments, outputListing), outputListing)
         == CollectSegments(segments, outputListing)
  {
    var r := CollectSegments(segments, outputListing);
    var r2 := CollectSegments(r, outputListing);
    assert r <= r2;
    assert forall x :: x in r2 ==> x in r;
    Seqs.DedupOfNoDup(r2);
    NoDupPrefixSameElements(r, r2);
  }

  lemma NoDupPrefixSameElements(a: seq<string>, b: seq<string>)
    requires a <= b && Seqs.NoDup(b) && forall x :: x in b ==> x in a
    ensures a == b
  {
    if |a| < |b| {
      ElementIn(b, |a|);
      assert false;
    }
  }

  lemma ElementIn(s: seq<string>, k: int)
    ensures 0 <= k < |s| ==> s[k] in s
  {
  }

  /** Once one ad marker is in the list, another ad break leaves no trace after
      the next merge: only the first break is ever marked. */
  lemma RepeatedAdMarkerDropped(segments: seq<string>, outputListing: seq<string>)
    requires AdMarker in segments
    ensures CollectSegments(InsertAdvertisement(segments, true), outputListing)
         == CollectSegments(segments, outputListing)
  {
    var incoming := NewSegments(outputListing);
    assert InsertAdvertisement(segments, true) + incoming == segments + [AdMarker] + incoming;
    Seqs.DedupDropsRepeat(segments, AdMarker, incoming);
  }
}
