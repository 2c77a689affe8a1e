/** The scheduler: each predefined video is encoded into an auxiliary HLS
    playlist, whose segments are then renamed onto a global counter and
    appended to the global playlist (`#EXTINF` and `#EXT-X-ENDLIST` from
    sections 4.3.2.1 and 4.3.3.4 of RFC 8216). The directory is a set of file
    names; the encoder is an input. */
module Schedule {
  import opened Wrappers
  import Seqs
  import Text
  import SegmentNames

  /** The four lines written when the global playlist does not exist yet. */
  const GlobalHeader := "#EXTM3U\n" + "#EXT-X-VERSION:3\n" + "#EXT-X-TARGETDURATION:10\n" + "#EXT-X-MEDIA-SEQUENCE:0\n"

  /** The output directory: its segment files, the auxiliary playlist as the
      lines the file iterator yields (each with its terminator), the global
      playlist's text, and `SEGMENT_COUNTER`. */
  datatype HlsDir = HlsDir(files: set<string>, aux: Option<seq<string>>, global: Option<string>, counter: nat)

  /** Lines copied verbatim into the global playlist. */
  predicate IsCopiedTag(line: string) {
    Text.StartsWith(line, "#EXTINF") || Text.StartsWith(line, "#EXT-X-ENDLIST")
  }

  /** Lines taken as a segment URI: not a `#` line and not blank. */
  predicate IsUriLine(line: string) {
    !Text.StartsWith(line, "#") && Text.Trim(line) != ""
  }

  /** What the global playlist receives for the segment numbered `n`. */
  function NameLine(n: nat): string {
    SegmentNames.SegmentName(n) + "\n"
  }

  /** One write of the merge to the global playlist: a tag line copied
      verbatim, or the name of the segment numbered `n`. */
  datatype Write = Copied(line: string) | Named(n: nat)

  /** The text a write appends. */
  function Render(w: Write): string {
    match w
    case Copied(line) => line
    case Named(n) => NameLine(n)
  }

  /** The writes concatenated, as they land in the file. */
  function Concat(writes: seq<Write>): string
  {
    if |writes| == 0 then "" else Concat(writes[..|writes| - 1]) + Render(writes[|writes| - 1])
  }

  /** The copied tag lines among the writes, in order. */
  function CopiedLines(writes: seq<Write>): seq<string>
  {
    if |writes| == 0 then []
    else
      var w := writes[|writes| - 1];
      CopiedLines(writes[..|writes| - 1]) + (if w.Copied? then [w.line] else [])
  }

  /** The numbers of the segment names among the writes, in order. */
  function NamedNumbers(writes: seq<Write>): seq<nat>
  {
    if |writes| == 0 then []
    else
      var w := writes[|writes| - 1];
      NamedNumbers(writes[..|writes| - 1]) + (if w.Named? then [w.n] else [])
  }

  lemma WritesSnoc(writes: seq<Write>, w: Write)
    ensures CopiedLines(writes + [w]) == CopiedLines(writes) + (if w.Copied? then [w.line] else [])
    ensures NamedNumbers(writes + [w]) == NamedNumbers(writes) + (if w.Named? then [w.n] else [])
  {
    assert (writes + [w])[..|writes|] == writes;
  }

  /** The numbers from `lo` up to but excluding `hi`, in order. */
  function Range(lo: nat, hi: nat): (r: seq<nat>)
    ensures |r| == if lo <= hi then hi - lo else 0
    decreases hi
  {
    if hi <= lo then [] else Range(lo, hi - 1) + [hi - 1]
  }

  // ---------------------------------------------------------------------
  // Reading the auxiliary playlist: each line takes one branch of the
  // merge loop.
  // ---------------------------------------------------------------------

  /** How the merge loop reads a line: a tag to copy, a URI naming a source
      file (the line stripped), or a line it ignores. */
  datatype LineKind = Tag(text: string) | Uri(source: string) | Other

  /** The branch a line takes: the tag test comes first, then the URI test. */
  function Classify(line: string): LineKind {
    if IsCopiedTag(line) then Tag(line)
    else if IsUriLine(line) then Uri(Text.Trim(line))
    else Other
  }

  /** The lines classified, in file order. */
  function Kinds(lines: seq<string>): (ks: seq<LineKind>)
    ensures |ks| == |lines|
    decreases |lines|
  {
    if |lines| == 0 then [] else Kinds(lines[..|lines| - 1]) + [Classify(lines[|lines| - 1])]
  }

  lemma KindsSnoc(lines: seq<string>, l: string)
    ensures Kinds(lines + [l]) == Kinds(lines) + [Classify(l)]
  {
    assert (lines + [l])[..|lines|] == lines;
  }

  // ---------------------------------------------------------------------
  // `merge_playlists` as written: each existing source is moved in place.
  // ---------------------------------------------------------------------

  /** The merge's state after some lines: the files, the writes appended to
      the global playlist, and the counter. */
  datatype Merge = Merge(files: set<string>, writes: seq<Write>, counter: nat)

  /** One line. A tag is copied; a source that exists is moved to the next
      segment name, which is written, and the counter goes up by one;
      anything else, a missing file included, leaves no trace. */
  function MergeLine(m: Merge, k: LineKind): Merge {
    match k
    case Tag(text) => m.(writes := m.writes + [Copied(text)])
    case Uri(src) =>
      if src in m.files then
        Merge(m.files - {src} + {SegmentNames.SegmentName(m.counter)}, m.writes + [Named(m.counter)], m.counter + 1)
      else m
    case Other => m
  }

  /** The lines in file order. */
  function MergeLines(m: Merge, ks: seq<LineKind>): (r: Merge)
    ensures m.counter <= r.counter
    decreases |ks|
  {
    if |ks| == 0 then m
    else MergeLine(MergeLines(m, ks[..|ks| - 1]), ks[|ks| - 1])
  }

  lemma MergeLinesSnoc(m: Merge, ks: seq<LineKind>, k: LineKind)
    ensures MergeLines(m, ks + [k]) == MergeLine(MergeLines(m, ks), k)
  {
    assert (ks + [k])[..|ks|] == ks;
  }

  /** The global playlist a merge appends to: the existing one, or a fresh header. */
  function Base(global: Option<string>): string {
    if global.Some? then global.value else GlobalHeader
  }

  /** `merge_playlists`: nothing happens without an auxiliary playlist;
      otherwise the global playlist is created if missing and the lines are
      merged into it. */
  function MergePlaylists(d: HlsDir): (r: HlsDir)
    ensures d.aux.None? ==> r == d
    ensures d.aux.Some? ==> r.global.Some? && Text.StartsWith(r.global.value, Base(d.global))
    ensures d.counter <= r.counter && r.aux == d.aux
  {
    match d.aux
    case None => d
    case Some(lines) =>
      var m := MergeLines(Merge(d.files, [], d.counter), Kinds(lines));
      d.(files := m.files, global := Some(Base(d.global) + Concat(m.writes)), counter := m.counter)
  }

  /** A segment name is no `#` line, so never a copied tag. */
  lemma NameLineShape(n: nat)
    ensures !IsCopiedTag(NameLine(n))
  {
    SegmentNames.SegmentNameEnds(n);
    assert NameLine(n)[0] == 's';
    HashLines(NameLine(n));
  }

  /** Only a line that starts with `#` can be a tag, and such a line is no URI. */
  lemma HashLines(line: string)
    ensures IsCopiedTag(line) ==> |line| > 0 && line[0] == '#'
    ensures |line| > 0 && line[0] == '#' ==> !IsUriLine(line)
  {
    Text.StartsWithFirst(line, "#EXTINF");
    Text.StartsWithFirst(line, "#EXT-X-ENDLIST");
    Text.StartsWithFirst(line, "#");
    if |line| > 0 && line[0] == '#' {
      assert line[..1] == "#";
    }
  }

  /** A line is read as a URI exactly when it passes the URI test. */
  lemma ClassifyUri(line: string)
    ensures Classify(line).Uri? <==> IsUriLine(line)
    ensures Classify(line).Tag? <==> IsCopiedTag(line)
  {
    if IsCopiedTag(line) {
      HashLines(line);
    }
  }

  lemma FilterSnoc<T(!new)>(s: seq<T>, x: T, p: T -> bool)
    ensures Seqs.Filter(s + [x], p) == Seqs.Filter(s, p) + (if p(x) then [x] else [])
  {
    Seqs.FilterAppend(s, [x], p);
    assert [x][1..] == [];
  }

  /** Every `#EXTINF` and `#EXT-X-ENDLIST` line reaches the global playlist
      verbatim and in order, and no other line is copied. */
  lemma {:induction false} MergeTagsCopied(m: Merge, lines: seq<string>)
    requires m.writes == []
    ensures CopiedLines(MergeLines(m, Kinds(lines)).writes) == Seqs.Filter(lines, IsCopiedTag)
    decreases |lines|
  {
    if |lines| > 0 {
      var init, l := lines[..|lines| - 1], lines[|lines| - 1];
      assert lines == init + [l];
      MergeTagsCopied(m, init);
      KindsSnoc(init, l);
      MergeLinesSnoc(m, Kinds(init), Classify(l));
      MergeTagsStep(MergeLines(m, Kinds(init)), l);
      FilterSnoc(init, l, IsCopiedTag);
    }
  }

  lemma MergeTagsStep(m: Merge, l: string)
    ensures CopiedLines(MergeLine(m, Classify(l)).writes)
         == CopiedLines(m.writes) + (if IsCopiedTag(l) then [l] else [])
  {
    var r := MergeLine(m, Classify(l));
    ClassifyUri(l);
    if IsCopiedTag(l) {
      WritesSnoc(m.writes, Copied(l));
    } else if r.counter == m.counter + 1 {
      WritesSnoc(m.writes, Named(m.counter));
    }
  }

  /** The names written carry consecutive numbers from the old counter up to
      the new one. */
  lemma {:induction false} MergeNamesNumbered(m: Merge, ks: seq<LineKind>)
    requires m.writes == []
    ensures NamedNumbers(MergeLines(m, ks).writes) == Range(m.counter, MergeLines(m, ks).counter)
    decreases |ks|
  {
    if |ks| > 0 {
      var init, k := ks[..|ks| - 1], ks[|ks| - 1];
      MergeNamesNumbered(m, init);
      var mid := MergeLines(m, init);
      MergeNamesStep(mid, k);
      var r := MergeLine(mid, k);
      RangeExtend(m.counter, mid.counter, r.counter);
    }
  }

  /** One more number extends the range by its next element. */
  lemma RangeExtend(c: nat, mid: nat, counter: nat)
    requires c <= mid && (counter == mid || counter == mid + 1)
    ensures Range(c, counter) == Range(c, mid) + (if counter == mid + 1 then [mid] else [])
  {
  }

  /** One line moves the counter by at most one, and only a URI moves it: a
      URI whose file exists has that file moved to the next segment name and
      the number written; any other line leaves the files and the counter
      alone. */
  lemma MergeNamesStep(m: Merge, k: LineKind)
    ensures var r := MergeLine(m, k);
      && (r.counter == m.counter || (r.counter == m.counter + 1 && k.Uri?))
      && NamedNumbers(r.writes) == NamedNumbers(m.writes) + (if r.counter == m.counter + 1 then [m.counter] else [])
      && (k.Uri? && k.source in m.files ==>
            r.counter == m.counter + 1 && r.files == m.files - {k.source} + {SegmentNames.SegmentName(m.counter)})
      && (!(k.Uri? && k.source in m.files) ==> r.counter == m.counter && r.files == m.files)
  {
    match k
    case Tag(text) =>
      WritesSnoc(m.writes, Copied(text));
    case Uri(src) =>
      if src in m.files {
        WritesSnoc(m.writes, Named(m.counter));
      }
    case Other =>
  }

  /** The counter grows by at most one per URI line. */
  lemma {:induction false} MergeCounterBound(m: Merge, lines: seq<string>)
    ensures MergeLines(m, Kinds(lines)).counter <= m.counter + |Seqs.Filter(lines, IsUriLine)|
    decreases |lines|
  {
    if |lines| > 0 {
      var init, l := lines[..|lines| - 1], lines[|lines| - 1];
      assert lines == init + [l];
      MergeCounterBound(m, init);
      KindsSnoc(init, l);
      MergeLinesSnoc(m, Kinds(init), Classify(l));
      ClassifyUri(l);
      FilterSnoc(init, l, IsUriLine);
    }
  }

  /** The global playlist after a merge: the old text (or the header) followed
      by exactly the copied tags and the consecutively numbered names, and the
      counter moved by the number of names. */
  lemma MergeOutput(d: HlsDir)
    requires d.aux.Some?
    ensures var r := MergePlaylists(d);
      var writes := MergeLines(Merge(d.files, [], d.counter), Kinds(d.aux.value)).writes;
      && r.global == Some(Base(d.global) + Concat(writes))
      && CopiedLines(writes) == Seqs.Filter(d.aux.value, IsCopiedTag)
      && NamedNumbers(writes) == Range(d.counter, r.counter)
      && r.counter <= d.counter + |Seqs.Filter(d.aux.value, IsUriLine)|
  {
    var m := Merge(d.files, [], d.counter);
    var e := MergeLines(m, Kinds(d.aux.value));
    assert MergePlaylists(d) == d.(files := e.files, global := Some(Base(d.global) + Concat(e.writes)), counter := e.counter);
    MergeTagsCopied(m, d.aux.value);
    MergeNamesNumbered(m, Kinds(d.aux.value));
    MergeCounterBound(m, d.aux.value);
  }

  /** With no global playlist, the merge starts it with exactly the header. */
  lemma MergeCreatesHeader(d: HlsDir)
    requires d.aux.Some? && d.global.None?
    ensures Text.StartsWith(MergePlaylists(d).global.value, GlobalHeader)
  {
  }

  /** An existing global playlist is kept as an untouched prefix. */
  lemma MergeKeepsGlobal(d: HlsDir)
    requires d.aux.Some? && d.global.Some?
    ensures Text.StartsWith(MergePlaylists(d).global.value, d.global.value)
  {
  }

  /** The in-place moves can overwrite a source that a later line still
      names. With counter `c >= 1` and sources `segment_{c-1}` and
      `segment_{c}` both present, the first is moved onto the second, the
      result is moved on again, and the global playlist names
      `segment_{c}`, a file that no longer exists. */
  lemma MergeClobbersLaterSource(c: nat, d: HlsDir)
    requires c >= 1
    requires d == HlsDir({SegmentNames.SegmentName(c - 1), SegmentNames.SegmentName(c)}, Some([NameLine(c - 1), NameLine(c)]), None, c)
    ensures MergePlaylists(d).files == {SegmentNames.SegmentName(c + 1)}
    ensures SegmentNames.SegmentName(c) !in MergePlaylists(d).files
    ensures MergePlaylists(d).global == Some(GlobalHeader + NameLine(c) + NameLine(c + 1))
  {
    ClobberOutcome(c, d);
    DistinctNames(c);
    FreshTwoNames(c);
  }

  /** The clobbering merge's outcome, as the state of its line loop. */
  lemma ClobberOutcome(c: nat, d: HlsDir)
    requires c >= 1
    requires d == HlsDir({SegmentNames.SegmentName(c - 1), SegmentNames.SegmentName(c)}, Some([NameLine(c - 1), NameLine(c)]), None, c)
    ensures MergePlaylists(d).files == {SegmentNames.SegmentName(c + 1)}
    ensures MergePlaylists(d).global == Some(Base(None) + Concat([Named(c), Named(c + 1)]))
  {
    ClobberLines(c);
    MergeResult(d, Merge({SegmentNames.SegmentName(c + 1)}, [Named(c), Named(c + 1)], c + 2));
  }

  /** Three consecutive counters give three different names. */
  lemma DistinctNames(c: nat)
    requires c >= 1
    ensures SegmentNames.SegmentName(c - 1) != SegmentNames.SegmentName(c)
    ensures SegmentNames.SegmentName(c) != SegmentNames.SegmentName(c + 1)
    ensures SegmentNames.SegmentName(c - 1) != SegmentNames.SegmentName(c + 1)
  {
    if SegmentNames.SegmentName(c - 1) == SegmentNames.SegmentName(c) {
      SegmentNames.SegmentNameInjective(c - 1, c);
    }
    if SegmentNames.SegmentName(c) == SegmentNames.SegmentName(c + 1) {
      SegmentNames.SegmentNameInjective(c, c + 1);
    }
    if SegmentNames.SegmentName(c - 1) == SegmentNames.SegmentName(c + 1) {
      SegmentNames.SegmentNameInjective(c - 1, c + 1);
    }
  }

  /** A fresh playlist after two name writes: the header, then both names. */
  lemma FreshTwoNames(c: nat)
    ensures Base(None) + Concat([Named(c), Named(c + 1)]) == GlobalHeader + NameLine(c) + NameLine(c + 1)
  {
    ConcatTwo(Named(c), Named(c + 1));
  }

  /** The merge's outcome in terms of the line loop's final state. */
  lemma MergeResult(d: HlsDir, m: Merge)
    requires d.aux.Some? && MergeLines(Merge(d.files, [], d.counter), Kinds(d.aux.value)) == m
    ensures MergePlaylists(d) == d.(files := m.files, global := Some(Base(d.global) + Concat(m.writes)), counter := m.counter)
  {
  }

  /** The two lines of the clobbering example, merged one after the other. */
  lemma ClobberLines(c: nat)
    requires c >= 1
    ensures var a, b := SegmentNames.SegmentName(c - 1), SegmentNames.SegmentName(c);
      MergeLines(Merge({a, b}, [], c), Kinds([NameLine(c - 1), NameLine(c)]))
        == Merge({SegmentNames.SegmentName(c + 1)}, [Named(c), Named(c + 1)], c + 2)
  {
    var a, b := SegmentNames.SegmentName(c - 1), SegmentNames.SegmentName(c);
    KindsTwo(NameLine(c - 1), NameLine(c));
    UriLineOfName(c - 1);
    UriLineOfName(c);
    MergeTwoLines(Merge({a, b}, [], c), Uri(a), Uri(b));
    ClobberFirstMove(c);
    ClobberSecondMove(c);
  }

  /** Two lines are classified one by one. */
  lemma KindsTwo(x: string, y: string)
    ensures Kinds([x, y]) == [Classify(x), Classify(y)]
  {
    var none: seq<string> := [];
    var one: seq<string> := [x];
    KindsSnoc(none, x);
    KindsSnoc(one, y);
    assert none + [x] == one;
    assert one + [y] == [x, y];
  }

  lemma MergeTwoLines(m: Merge, x: LineKind, y: LineKind)
    ensures MergeLines(m, [x, y]) == MergeLine(MergeLine(m, x), y)
  {
    var one: seq<LineKind> := [x];
    var none: seq<LineKind> := [];
    assert [x, y][..1] == one;
    assert one[..0] == none;
    assert MergeLines(m, none) == m;
    assert MergeLines(m, one) == MergeLine(m, x);
  }

  /** The first source is moved onto the second source's name. */
  lemma ClobberFirstMove(c: nat)
    requires c >= 1
    ensures var a, b := SegmentNames.SegmentName(c - 1), SegmentNames.SegmentName(c);
      MergeLine(Merge({a, b}, [], c), Uri(a)) == Merge({b}, [Named(c)], c + 1)
  {
    var a, b := SegmentNames.SegmentName(c - 1), SegmentNames.SegmentName(c);
    if a == b {
      SegmentNames.SegmentNameInjective(c - 1, c);
    }
    assert {a, b} - {a} + {b} == {b};
  }

  /** The second line finds a file under its name, the moved one, and moves it on. */
  lemma ClobberSecondMove(c: nat)
    ensures var b, t := SegmentNames.SegmentName(c), SegmentNames.SegmentName(c + 1);
      && MergeLine(Merge({b}, [Named(c)], c + 1), Uri(b)) == Merge({t}, [Named(c), Named(c + 1)], c + 2)
      && b != t
  {
    var b, t := SegmentNames.SegmentName(c), SegmentNames.SegmentName(c + 1);
    if b == t {
      SegmentNames.SegmentNameInjective(c, c + 1);
    }
    assert {b} - {b} + {t} == {t};
  }

  /** A segment name read with its terminator is a URI line naming it. */
  lemma UriLineOfName(n: nat)
    ensures IsUriLine(NameLine(n)) && !IsCopiedTag(NameLine(n))
    ensures Classify(NameLine(n)) == Uri(SegmentNames.SegmentName(n))
  {
    var s := SegmentNames.SegmentName(n);
    SegmentNames.SegmentNameEnds(n);
    Text.TrimLine(s);
    NameLineShape(n);
  }

  lemma ConcatTwo(x: Write, y: Write)
    ensures Concat([x, y]) == Render(x) + Render(y)
  {
    var one: seq<Write> := [x];
    var none: seq<Write> := [];
    assert [x, y][..1] == one;
    assert one[..0] == none;
    assert Concat(one) == Render(x);
  }

  // ---------------------------------------------------------------------
  // The staged merge: sources are judged against the directory as it was
  // when the merge began, and all moves land together.
  // ---------------------------------------------------------------------

  /** The planned merge: the sources to move, in order, the writes, and the counter. */
  datatype Plan = Plan(sources: seq<string>, writes: seq<Write>, counter: nat)

  /** One line against the snapshot: a tag is copied; a URI naming a file of
      the snapshot not already claimed is claimed for the next number. */
  function PlanLine(snapshot: set<string>, p: Plan, k: LineKind): Plan {
    match k
    case Tag(text) => p.(writes := p.writes + [Copied(text)])
    case Uri(src) =>
      if src in snapshot && src !in p.sources then
        Plan(p.sources + [src], p.writes + [Named(p.counter)], p.counter + 1)
      else p
    case Other => p
  }

  function PlanLines(snapshot: set<string>, p: Plan, ks: seq<LineKind>): (r: Plan)
    ensures p.counter <= r.counter
    decreases |ks|
  {
    if |ks| == 0 then p
    else PlanLine(snapshot, PlanLines(snapshot, p, ks[..|ks| - 1]), ks[|ks| - 1])
  }

  lemma PlanLinesSnoc(snapshot: set<string>, p: Plan, ks: seq<LineKind>, k: LineKind)
    ensures PlanLines(snapshot, p, ks + [k]) == PlanLine(snapshot, PlanLines(snapshot, p, ks), k)
  {
    assert (ks + [k])[..|ks|] == ks;
  }

  /** The names `segment_{c}` to `segment_{c+k-1}`. */
  function Targets(c: nat, k: nat): set<string> {
    set i: nat | c <= i < c + k :: SegmentNames.SegmentName(i)
  }

  /** The sources a plan claims, as a set. */
  function Claimed(sources: seq<string>): set<string> {
    set s | s in sources
  }

  /** The merge with staged moves: every source leaves, then every target arrives. */
  function MergeStaged(d: HlsDir): (r: HlsDir)
    ensures d.aux.None? ==> r == d
    ensures d.aux.Some? ==> r.global.Some? && Text.StartsWith(r.global.value, Base(d.global))
    ensures d.counter <= r.counter && r.aux == d.aux
  {
    match d.aux
    case None => d
    case Some(lines) =>
      var p := PlanLines(d.files, Plan([], [], d.counter), Kinds(lines));
      d.(files := d.files - Claimed(p.sources) + Targets(d.counter, p.counter - d.counter),
         global := Some(Base(d.global) + Concat(p.writes)),
         counter := p.counter)
  }

  /** The URI names of the auxiliary playlist, stripped, in order. */
  function UriNames(lines: seq<string>): (names: seq<string>)
    decreases |lines|
  {
    if |lines| == 0 then []
    else
      var l := lines[|lines| - 1];
      UriNames(lines[..|lines| - 1]) + (if IsUriLine(l) then [Text.Trim(l)] else [])
  }

  function InSet(s: set<string>): string -> bool {
    (x: string) => x in s
  }

  /** The plan claims one number per source, and the sources are exactly the
      distinct URI names present in the snapshot, in first-occurrence order. */
  lemma {:induction false} PlanCounts(snapshot: set<string>, p: Plan, lines: seq<string>)
    requires p.sources == []
    ensures PlanLines(snapshot, p, Kinds(lines)).counter == p.counter + |PlanLines(snapshot, p, Kinds(lines)).sources|
    ensures PlanLines(snapshot, p, Kinds(lines)).sources == Seqs.Filter(Seqs.Dedup(UriNames(lines)), InSet(snapshot))
    decreases |lines|
  {
    if |lines| == 0 {
      assert UriNames(lines) == [];
    } else {
      var init, l := lines[..|lines| - 1], lines[|lines| - 1];
      assert lines == init + [l];
      PlanCounts(snapshot, p, init);
      KindsSnoc(init, l);
      PlanLinesSnoc(snapshot, p, Kinds(init), Classify(l));
      PlanCountsStep(snapshot, p.counter, PlanLines(snapshot, p, Kinds(init)), init, l);
    }
  }

  lemma PlanCountsStep(snapshot: set<string>, c: nat, mid: Plan, init: seq<string>, l: string)
    requires mid.counter == c + |mid.sources|
    requires mid.sources == Seqs.Filter(Seqs.Dedup(UriNames(init)), InSet(snapshot))
    ensures PlanLine(snapshot, mid, Classify(l)).counter == c + |PlanLine(snapshot, mid, Classify(l)).sources|
    ensures PlanLine(snapshot, mid, Classify(l)).sources == Seqs.Filter(Seqs.Dedup(UriNames(init + [l])), InSet(snapshot))
  {
    assert (init + [l])[..|init|] == init;
    ClassifyUri(l);
    if IsUriLine(l) {
      var x := Text.Trim(l);
      assert UriNames(init + [l]) == UriNames(init) + [x];
      Seqs.FilterDedupSnoc(UriNames(init), x, InSet(snapshot));
      if x in snapshot {
        ClaimedIffSeen(snapshot, UriNames(init), x);
      }
    } else {
      assert UriNames(init + [l]) == UriNames(init);
    }
  }

  /** A name present in the snapshot has been claimed exactly when it was seen before. */
  lemma ClaimedIffSeen(snapshot: set<string>, names: seq<string>, x: string)
    requires x in snapshot
    ensures x in Seqs.Filter(Seqs.Dedup(names), InSet(snapshot)) <==> x in names
  {
    Seqs.FilterMembers(Seqs.Dedup(names), InSet(snapshot));
  }

  /** Tags are copied as in the in-place merge. */
  lemma {:induction false} PlanTagsCopied(snapshot: set<string>, p: Plan, lines: seq<string>)
    requires p.writes == []
    ensures CopiedLines(PlanLines(snapshot, p, Kinds(lines)).writes) == Seqs.Filter(lines, IsCopiedTag)
    decreases |lines|
  {
    if |lines| > 0 {
      var init, l := lines[..|lines| - 1], lines[|lines| - 1];
      assert lines == init + [l];
      PlanTagsCopied(snapshot, p, init);
      KindsSnoc(init, l);
      PlanLinesSnoc(snapshot, p, Kinds(init), Classify(l));
      PlanTagsStep(snapshot, PlanLines(snapshot, p, Kinds(init)), l);
      FilterSnoc(init, l, IsCopiedTag);
    }
  }

  lemma PlanTagsStep(snapshot: set<string>, p: Plan, l: string)
    ensures CopiedLines(PlanLine(snapshot, p, Classify(l)).writes)
         == CopiedLines(p.writes) + (if IsCopiedTag(l) then [l] else [])
  {
    var r := PlanLine(snapshot, p, Classify(l));
    ClassifyUri(l);
    if IsCopiedTag(l) {
      WritesSnoc(p.writes, Copied(l));
    } else if r.counter == p.counter + 1 {
      WritesSnoc(p.writes, Named(p.counter));
    }
  }

  /** Names are numbered as in the in-place merge. */
  lemma {:induction false} PlanNamesNumbered(snapshot: set<string>, p: Plan, ks: seq<LineKind>)
    requires p.writes == []
    ensures NamedNumbers(PlanLines(snapshot, p, ks).writes) == Range(p.counter, PlanLines(snapshot, p, ks).counter)
    decreases |ks|
  {
    if |ks| > 0 {
      var init, k := ks[..|ks| - 1], ks[|ks| - 1];
      PlanNamesNumbered(snapshot, p, init);
      var mid := PlanLines(snapshot, p, init);
      PlanNamesStep(snapshot, mid, k);
      var r := PlanLine(snapshot, mid, k);
      RangeExtend(p.counter, mid.counter, r.counter);
    }
  }

  lemma PlanNamesStep(snapshot: set<string>, p: Plan, k: LineKind)
    ensures var r := PlanLine(snapshot, p, k);
      && (r.counter == p.counter || r.counter == p.counter + 1)
      && NamedNumbers(r.writes) == NamedNumbers(p.writes) + (if r.counter == p.counter + 1 then [p.counter] else [])
  {
    match k
    case Tag(text) =>
      WritesSnoc(p.writes, Copied(text));
    case Uri(src) =>
      if src in snapshot && src !in p.sources {
        WritesSnoc(p.writes, Named(p.counter));
      }
    case Other =>
  }

  /** The intended text of a merge: the global playlist gains the copied
      tags and the consecutively numbered names from the old counter to the
      new one. */
  lemma MergeStagedOutput(d: HlsDir)
    requires d.aux.Some?
    ensures var r := MergeStaged(d);
      var p := PlanLines(d.files, Plan([], [], d.counter), Kinds(d.aux.value));
      && r.global == Some(Base(d.global) + Concat(p.writes))
      && CopiedLines(p.writes) == Seqs.Filter(d.aux.value, IsCopiedTag)
      && NamedNumbers(p.writes) == Range(d.counter, r.counter)
  {
    var p0 := Plan([], [], d.counter);
    PlanTagsCopied(d.files, p0, d.aux.value);
    PlanNamesNumbered(d.files, p0, Kinds(d.aux.value));
  }

  /** The intended sources of a merge: one number per distinct URI name that
      exists when the merge begins, in first-occurrence order. */
  lemma MergeStagedSources(d: HlsDir)
    requires d.aux.Some?
    ensures var r := MergeStaged(d);
      var p := PlanLines(d.files, Plan([], [], d.counter), Kinds(d.aux.value));
      && p.sources == Seqs.Filter(Seqs.Dedup(UriNames(d.aux.value)), InSet(d.files))
      && r.counter == d.counter + |p.sources|
  {
    PlanCounts(d.files, Plan([], [], d.counter), d.aux.value);
  }

  /** Every number the staged merge hands out names a file afterwards. */
  lemma TargetsPresent(d: HlsDir)
    requires d.aux.Some?
    ensures forall k :: d.counter <= k < MergeStaged(d).counter ==> SegmentNames.SegmentName(k) in MergeStaged(d).files
  {
    var r := MergeStaged(d);
    var p := PlanLines(d.files, Plan([], [], d.counter), Kinds(d.aux.value));
    assert r.files == d.files - Claimed(p.sources) + Targets(d.counter, p.counter - d.counter);
    forall k | d.counter <= k < r.counter
      ensures SegmentNames.SegmentName(k) in r.files
    {
      assert SegmentNames.SegmentName(k) in Targets(d.counter, p.counter - d.counter);
    }
  }

  // ---------------------------------------------------------------------
  // Where the two merges agree: when no URI line names a segment name the
  // counter has already handed out in this merge, no move can land on a
  // file a later line still needs. A name equal to the target it is moved
  // to is harmless: renaming a file onto itself changes nothing.
  // ---------------------------------------------------------------------

  /** The first `k` names from `c` are among the first `n` when `k <= n`. */
  lemma TargetsMono(c: nat, k: nat, n: nat)
    requires k <= n
    ensures Targets(c, k) <= Targets(c, n)
  {
  }

  /** One more number adds its segment name to the targets. */
  lemma TargetsSnoc(c: nat, k: nat)
    ensures Targets(c, k + 1) == Targets(c, k) + {SegmentNames.SegmentName(c + k)}
  {
    var t := SegmentNames.SegmentName(c + k);
    assert t in Targets(c, k + 1);
    forall x | x in Targets(c, k + 1)
      ensures x in Targets(c, k) + {t}
    {
      var i: nat :| c <= i < c + k + 1 && x == SegmentNames.SegmentName(i);
      if i < c + k {
        assert x in Targets(c, k);
      }
    }
  }

  /** The in-place state matches the plan: same writes and counter, and the
      files are the snapshot without the claimed sources, plus the targets. */
  ghost predicate Agrees(snapshot: set<string>, c: nat, m: Merge, p: Plan) {
    && m.writes == p.writes
    && m.counter == p.counter
    && c <= p.counter
    && m.files == snapshot - Claimed(p.sources) + Targets(c, p.counter - c)
  }

  /** The set algebra of one move: dropping a fresh source and adding the next target. */
  lemma MoveAgrees(snapshot: set<string>, claimed: set<string>, targets: set<string>, src: string, t: string)
    requires src !in targets
    ensures snapshot - claimed + targets - {src} + {t} == snapshot - (claimed + {src}) + (targets + {t})
  {
  }

  /** One line keeps the two merges in step, provided its URI, if any, is
      not a target already handed out. */
  lemma AgreesStep(snapshot: set<string>, c: nat, m: Merge, p: Plan, l: string)
    requires Agrees(snapshot, c, m, p)
    requires IsUriLine(l) ==> Text.Trim(l) !in Targets(c, p.counter - c)
    ensures Agrees(snapshot, c, MergeLine(m, Classify(l)), PlanLine(snapshot, p, Classify(l)))
  {
    ClassifyUri(l);
    if IsUriLine(l) {
      var src, k := Text.Trim(l), p.counter - c;
      assert Classify(l) == Uri(src);
      assert src in m.files <==> src in snapshot && src !in p.sources;
      if src in m.files {
        var t := SegmentNames.SegmentName(c + k);
        assert Claimed(p.sources + [src]) == Claimed(p.sources) + {src};
        TargetsSnoc(c, k);
        MoveAgrees(snapshot, Claimed(p.sources), Targets(c, k), src, t);
      }
    }
  }

  lemma UriNamesSnoc(lines: seq<string>, l: string)
    ensures UriNames(lines + [l]) == UriNames(lines) + (if IsUriLine(l) then [Text.Trim(l)] else [])
  {
    assert (lines + [l])[..|lines|] == lines;
  }

  /** The `j`-th URI name is not among the `j` segment names from `c`: the
      most the counter can have handed out before that line. */
  ghost predicate AvoidsEarlierTargets(names: seq<string>, c: nat) {
    forall j :: 0 <= j < |names| ==> names[j] !in Targets(c, j)
  }

  /** Line by line, the two merges stay in step while no URI names a target
      that could already have been handed out before it. */
  lemma {:induction false} AgreesLines(snapshot: set<string>, c: nat, lines: seq<string>)
    requires AvoidsEarlierTargets(UriNames(lines), c)
    ensures Agrees(snapshot, c, MergeLines(Merge(snapshot, [], c), Kinds(lines)), PlanLines(snapshot, Plan([], [], c), Kinds(lines)))
    ensures PlanLines(snapshot, Plan([], [], c), Kinds(lines)).counter <= c + |UriNames(lines)|
    decreases |lines|
  {
    if |lines| == 0 {
      assert Claimed([]) == {};
      assert Targets(c, 0) == {};
    } else {
      var init, l := lines[..|lines| - 1], lines[|lines| - 1];
      assert lines == init + [l];
      UriNamesSnoc(init, l);
      var names := UriNames(init);
      assert AvoidsEarlierTargets(names, c) by {
        forall j | 0 <= j < |names|
          ensures names[j] !in Targets(c, j)
        {
          assert UriNames(lines)[j] == names[j];
        }
      }
      AgreesLines(snapshot, c, init);
      var m := MergeLines(Merge(snapshot, [], c), Kinds(init));
      var p := PlanLines(snapshot, Plan([], [], c), Kinds(init));
      if IsUriLine(l) {
        assert UriNames(lines)[|names|] == Text.Trim(l);
        TargetsMono(c, p.counter - c, |names|);
      }
      AgreesStep(snapshot, c, m, p, l);
      KindsSnoc(init, l);
      MergeLinesSnoc(Merge(snapshot, [], c), Kinds(init), Classify(l));
      PlanLinesSnoc(snapshot, Plan([], [], c), Kinds(init), Classify(l));
      PlanNamesStep(snapshot, p, Classify(l));
      ClassifyUri(l);
    }
  }

  /** No URI line of the auxiliary playlist names a segment name the counter
      could have handed out before that line in this merge. */
  ghost predicate NoClash(d: HlsDir)
    requires d.aux.Some?
  {
    AvoidsEarlierTargets(UriNames(d.aux.value), d.counter)
  }

  /** Without a clash, `merge_playlists` as written does exactly what the
      staged merge does: same files, same playlist text, same counter. */
  lemma MergeAsStaged(d: HlsDir)
    requires d.aux.Some? && NoClash(d)
    ensures MergePlaylists(d) == MergeStaged(d)
  {
    AgreesLines(d.files, d.counter, d.aux.value);
  }

  /** Without a clash, the in-place merge moves each distinct URI name that
      exists when it starts exactly once, in first-occurrence order, onto
      consecutive numbers from the old counter, and nothing else. */
  lemma MergeMovesEachSource(d: HlsDir)
    requires d.aux.Some? && NoClash(d)
    ensures var r := MergePlaylists(d);
      var sources := Seqs.Filter(Seqs.Dedup(UriNames(d.aux.value)), InSet(d.files));
      && r.counter == d.counter + |sources|
      && r.files == d.files - Claimed(sources) + Targets(d.counter, |sources|)
  {
    MergeAsStaged(d);
    MergeStagedSources(d);
  }

  /** Names that are the segment names from `c` on, in order, avoid every
      earlier target, occur once each, and are exactly the targets. */
  lemma OwnNames(names: seq<string>, c: nat)
    requires forall j :: 0 <= j < |names| ==> names[j] == SegmentNames.SegmentName(c + j)
    ensures AvoidsEarlierTargets(names, c)
    ensures Seqs.NoDup(names)
    ensures Claimed(names) == Targets(c, |names|)
  {
    forall j | 0 <= j < |names|
      ensures names[j] !in Targets(c, j)
    {
      if names[j] in Targets(c, j) {
        var i: nat :| c <= i < c + j && names[j] == SegmentNames.SegmentName(i);
        SegmentNames.SegmentNameInjective(i, c + j);
        assert false;
      }
    }
    forall i, j | 0 <= i < j < |names|
      ensures names[i] != names[j]
    {
      assert names[i] in Targets(c, j);
    }
    forall x | x in Targets(c, |names|)
      ensures x in Claimed(names)
    {
      var i: nat :| c <= i < c + |names| && x == SegmentNames.SegmentName(i);
      assert x == names[i - c];
    }
  }

  /** A playlist that names the segments from the counter on, in order, is
      the encoder's first run of a fresh process (counter 0, names from
      `segment_00000.ts`): every move renames a file onto itself, so the
      in-place merge is the staged one and, when every listed segment
      exists, the directory keeps exactly its files. */
  lemma MergeOntoOwnNames(d: HlsDir)
    requires d.aux.Some?
    requires forall j :: 0 <= j < |UriNames(d.aux.value)| ==>
      UriNames(d.aux.value)[j] == SegmentNames.SegmentName(d.counter + j)
    ensures NoClash(d)
    ensures MergePlaylists(d) == MergeStaged(d)
    ensures (forall x :: x in UriNames(d.aux.value) ==> x in d.files) ==>
      && MergePlaylists(d).files == d.files
      && MergePlaylists(d).counter == d.counter + |UriNames(d.aux.value)|
  {
    var names := UriNames(d.aux.value);
    OwnNames(names, d.counter);
    MergeAsStaged(d);
    if forall x :: x in names ==> x in d.files {
      OwnNamesAllPresent(d, names);
    }
  }

  /** The file and counter half of `MergeOntoOwnNames`. */
  lemma OwnNamesAllPresent(d: HlsDir, names: seq<string>)
    requires d.aux.Some? && names == UriNames(d.aux.value)
    requires AvoidsEarlierTargets(names, d.counter) && Seqs.NoDup(names)
    requires Claimed(names) == Targets(d.counter, |names|)
    requires forall x :: x in names ==> x in d.files
    ensures MergePlaylists(d).files == d.files
    ensures MergePlaylists(d).counter == d.counter + |names|
  {
    MergeMovesEachSource(d);
    Seqs.DedupOfNoDup(names);
    Seqs.FilterAll(names, InSet(d.files));
    assert Targets(d.counter, |names|) <= d.files;
  }

  // ---------------------------------------------------------------------
  // `process_video` and one cycle of `play_videos_in_order`.
  // ---------------------------------------------------------------------

  /** What one encoder run leaves behind: its exit status, the segment files
      it wrote, and the auxiliary playlist if it wrote one. */
  datatype EncoderRun = EncoderRun(returnCode: int, produced: set<string>, aux: Option<seq<string>>)

  /** `process_video`: the run's files land in the directory; the merge runs
      only when the encoder exited with 0 and an auxiliary playlist exists
      (possibly left over from an earlier run). */
  function ProcessVideo(d: HlsDir, run: EncoderRun): (r: HlsDir)
  {
    var after := d.(files := d.files + run.produced, aux := if run.aux.Some? then run.aux else d.aux);
    if run.returnCode == 0 && after.aux.Some? then MergePlaylists(after) else after
  }

  /** The merge guard: without a zero exit status or an auxiliary playlist the
      counter and the global playlist stay as they were; with both, the merge runs. */
  lemma ProcessVideoGuard(d: HlsDir, run: EncoderRun)
    ensures var r := ProcessVideo(d, run);
      var aux := if run.aux.Some? then run.aux else d.aux;
      && r.aux == aux
      && d.counter <= r.counter
      && (run.returnCode != 0 || aux.None? ==>
            r.counter == d.counter && r.global == d.global && r.files == d.files + run.produced)
      && (run.returnCode == 0 && aux.Some? ==>
            r == MergePlaylists(d.(files := d.files + run.produced, aux := aux)))
      && (d.global.Some? ==> r.global.Some? && Text.StartsWith(r.global.value, d.global.value))
  {
  }

  /** A cycle's result: the directory and the videos handed to the encoder. */
  datatype Cycle = Cycle(dir: HlsDir, processed: seq<string>)

  /** One pass of `play_videos_in_order` over the predefined list: each entry
      present among `videoFiles` is processed with the encoder run `run(i)`
      for its position `i`; missing ones are skipped. */
  function PlayCycle(d: HlsDir, videos: seq<string>, videoFiles: set<string>, run: nat -> EncoderRun): (c: Cycle)
    ensures c.processed == Seqs.Filter(videos, InSet(videoFiles))
    ensures d.counter <= c.dir.counter
    ensures d.global.Some? ==> c.dir.global.Some? && Text.StartsWith(c.dir.global.value, d.global.value)
    decreases |videos|
  {
    if |videos| == 0 then Cycle(d, [])
    else
      var init, v := videos[..|videos| - 1], videos[|videos| - 1];
      var prev := PlayCycle(d, init, videoFiles, run);
      assert videos == init + [v];
      FilterSnoc(init, v, InSet(videoFiles));
      if v in videoFiles then
        var next := ProcessVideo(prev.dir, run(|init|));
        ProcessVideoGuard(prev.dir, run(|init|));
        PrefixTransitive(d, prev.dir, next);
        Cycle(next, prev.processed + [v])
      else prev
  }

  lemma PrefixTransitive(a: HlsDir, b: HlsDir, c: HlsDir)
    requires a.global.Some? ==> b.global.Some? && Text.StartsWith(b.global.value, a.global.value)
    requires b.global.Some? ==> c.global.Some? && Text.StartsWith(c.global.value, b.global.value)
    ensures a.global.Some? ==> c.global.Some? && Text.StartsWith(c.global.value, a.global.value)
  {
    if a.global.Some? {
      var x, y, z := a.global.value, b.global.value, c.global.value;
      assert z[..|x|] == z[..|y|][..|x|];
    }
  }

  /** The cycle as the loop runs it, front to back, with `from` the position
      of the first entry: a present entry is processed with its position's
      encoder run, a missing one is skipped. */
  function PlayFrom(d: HlsDir, videos: seq<string>, videoFiles: set<string>, run: nat -> EncoderRun, from: nat): HlsDir
    decreases |videos|
  {
    if |videos| == 0 then d
    else
      var next := if videos[0] in videoFiles then ProcessVideo(d, run(from)) else d;
      PlayFrom(next, videos[1..], videoFiles, run, from + 1)
  }

  /** Running the loop over one more entry adds one step at its end. */
  lemma {:induction false} PlayFromSnoc(d: HlsDir, videos: seq<string>, v: string, videoFiles: set<string>, run: nat -> EncoderRun, from: nat)
    ensures PlayFrom(d, videos + [v], videoFiles, run, from)
         == var x := PlayFrom(d, videos, videoFiles, run, from);
            if v in videoFiles then ProcessVideo(x, run(from + |videos|)) else x
    decreases |videos|
  {
    if |videos| > 0 {
      var next := if videos[0] in videoFiles then ProcessVideo(d, run(from)) else d;
      assert (videos + [v])[1..] == videos[1..] + [v];
      PlayFromSnoc(next, videos[1..], v, videoFiles, run, from + 1);
    } else {
      assert (videos + [v])[1..] == [];
    }
  }

  /** The directory a cycle leaves is the loop's: `process_video` applied in
      list order to exactly the present entries, each with its own run. */
  lemma {:induction false} PlayCycleDir(d: HlsDir, videos: seq<string>, videoFiles: set<string>, run: nat -> EncoderRun)
    ensures PlayCycle(d, videos, videoFiles, run).dir == PlayFrom(d, videos, videoFiles, run, 0)
    decreases |videos|
  {
    if |videos| > 0 {
      var init, v := videos[..|videos| - 1], videos[|videos| - 1];
      assert videos == init + [v];
      PlayCycleDir(d, init, videoFiles, run);
      PlayFromSnoc(d, init, v, videoFiles, run, 0);
    }
  }
}
