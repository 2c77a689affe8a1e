/** The live HLS media playlist that the playout loop rewrites from its list
    of segments (tags from section 4.3 of RFC 8216: `#EXTM3U`,
    `#EXT-X-VERSION`, `#EXT-X-MEDIA-SEQUENCE`, `#EXT-X-TARGETDURATION`,
    `#EXTINF`). */
module Playlist {
  import Text

  /** Seconds per segment, used for the target duration and every `#EXTINF`. */
  const SegmentDuration := 5

  const HeaderLines: seq<string> := [
    "#EXTM3U",
    "#EXT-X-VERSION:3",
    "#EXT-X-MEDIA-SEQUENCE:0",
    "#EXT-X-TARGETDURATION:5"
  ]

  const ExtInfLine := "#EXTINF:5,"

  /** One `#EXTINF:5,\n{segment}\n` write per segment, in order. */
  function EntriesText(segments: seq<string>): string
  {
    if |segments| == 0 then ""
    else ExtInfLine + "\n" + segments[0] + "\n" + EntriesText(segments[1..])
  }

  /** The file body `regenerate_playlist` writes: four header writes, then
      the entries. */
  function RegeneratePlaylist(segments: seq<string>): string
  {
    "#EXTM3U\n" + "#EXT-X-VERSION:3\n" + "#EXT-X-MEDIA-SEQUENCE:0\n"
      + "#EXT-X-TARGETDURATION:5\n" + EntriesText(segments)
  }

  /** The intended line layout, stated by position: after the header,
      even positions hold `#EXTINF:5,` and odd ones the segments in order. */
  function EntryLines(segments: seq<string>): (lines: seq<string>)
  {
    seq(2 * |segments|, k requires 0 <= k < 2 * |segments| =>
      if k % 2 == 0 then ExtInfLine else segments[k / 2])
  }

  lemma EntryLinesCons(segments: seq<string>)
    requires |segments| > 0
    ensures EntryLines(segments) == [ExtInfLine, segments[0]] + EntryLines(segments[1..])
  {
    var a := EntryLines(segments);
    var b := [ExtInfLine, segments[0]] + EntryLines(segments[1..]);
    assert |a| == |b|;
    forall k | 2 <= k < |a|
      ensures a[k] == b[k]
    {
      assert (k - 2) % 2 == k % 2;
      assert (k - 2) / 2 == k / 2 - 1;
    }
  }

  /** Appending a segment appends its `#EXTINF:5,` line and its name. */
  lemma EntryLinesSnoc(segments: seq<string>, x: string)
    ensures EntryLines(segments + [x]) == EntryLines(segments) + [ExtInfLine, x]
  {
    var a := EntryLines(segments + [x]);
    var b := EntryLines(segments) + [ExtInfLine, x];
    assert |a| == |b|;
    forall k | 0 <= k < |a|
      ensures a[k] == b[k]
    {
      if k < 2 * |segments| {
        assert k / 2 < |segments|;
      }
    }
  }

  /** The entry lines of two lists of segments, one after the other. */
  lemma EntryLinesAppend(a: seq<string>, b: seq<string>)
    ensures EntryLines(a + b) == EntryLines(a) + EntryLines(b)
  {
    var x := EntryLines(a + b);
    var y := EntryLines(a) + EntryLines(b);
    assert |x| == |y|;
    forall k | 0 <= k < |x|
      ensures x[k] == y[k]
    {
      if k < 2 * |a| {
        assert k / 2 < |a|;
      } else {
        var j := k - 2 * |a|;
        assert j % 2 == k % 2;
        assert j / 2 == k / 2 - |a|;
      }
    }
  }

  lemma {:induction false} EntriesAsLines(segments: seq<string>)
    ensures EntriesText(segments) == Text.JoinLines(EntryLines(segments))
    decreases |segments|
  {
    if |segments| > 0 {
      EntryLinesCons(segments);
      EntriesAsLines(segments[1..]);
      var rest := EntryLines(segments[1..]);
      Text.JoinLinesAppend([ExtInfLine, segments[0]], rest);
      assert Text.JoinLines([ExtInfLine, segments[0]]) == ExtInfLine + "\n" + segments[0] + "\n" by {
        assert [ExtInfLine, segments[0]][1..] == [segments[0]];
        assert [segments[0]][1..] == [];
      }
    } else {
      assert EntryLines(segments) == [];
    }
  }

  /** The rewritten playlist is the header lines followed by the entry lines. */
  lemma PlaylistAsLines(segments: seq<string>)
    ensures RegeneratePlaylist(segments) == Text.JoinLines(HeaderLines + EntryLines(segments))
  {
    EntriesAsLines(segments);
    Text.JoinLinesAppend(HeaderLines, EntryLines(segments));
    HeaderText();
  }

  /** The four header writes are the header lines, each with its newline. */
  lemma HeaderText()
    ensures Text.JoinLines(HeaderLines) ==
      "#EXTM3U\n" + "#EXT-X-VERSION:3\n" + "#EXT-X-MEDIA-SEQUENCE:0\n" + "#EXT-X-TARGETDURATION:5\n"
  {
    assert HeaderLines[1..] == ["#EXT-X-VERSION:3", "#EXT-X-MEDIA-SEQUENCE:0", "#EXT-X-TARGETDURATION:5"];
    assert HeaderLines[1..][1..] == ["#EXT-X-MEDIA-SEQUENCE:0", "#EXT-X-TARGETDURATION:5"];
    assert HeaderLines[1..][1..][1..] == ["#EXT-X-TARGETDURATION:5"];
    assert HeaderLines[1..][1..][1..][1..] == [];
  }

  /** Read back line by line, the playlist is exactly the four header lines
      and then one `#EXTINF:5,` line and one segment line per segment, in
      order, provided no segment name holds a newline. */
  lemma ReadBackPlaylist(segments: seq<string>)
    requires forall i :: 0 <= i < |segments| ==> Text.NoNewline(segments[i])
    ensures Text.SplitLines(RegeneratePlaylist(segments)) == HeaderLines + EntryLines(segments)
    ensures |Text.SplitLines(RegeneratePlaylist(segments))| == 4 + 2 * |segments|
  {
    PlaylistAsLines(segments);
    LinesHaveNoNewline(segments);
    Text.SplitJoinLines(HeaderLines + EntryLines(segments));
  }

  /** No header or entry line holds a newline when no segment name does. */
  lemma LinesHaveNoNewline(segments: seq<string>)
    requires forall i :: 0 <= i < |segments| ==> Text.NoNewline(segments[i])
    ensures forall k :: 0 <= k < |HeaderLines + EntryLines(segments)| ==> Text.NoNewline((HeaderLines + EntryLines(segments))[k])
  {
    var lines := HeaderLines + EntryLines(segments);
    HeaderHasNoNewline();
    forall k | 0 <= k < |lines|
      ensures Text.NoNewline(lines[k])
    {
      if k >= 4 {
        assert lines[k] == EntryLines(segments)[k - 4];
      } else {
        assert lines[k] == HeaderLines[k];
      }
    }
  }

  lemma HeaderHasNoNewline()
    ensures forall k :: 0 <= k < |HeaderLines| ==> Text.NoNewline(HeaderLines[k])
    ensures Text.NoNewline(ExtInfLine)
  {
  }
}
