/** The ingest side of the playout loop: which raw videos are accepted, how
    their names are normalised, and how one scan of the raw directory fills
    the normalised store and the play queue. Whether a shell copy produces
    its file is an input: `fails` is the set of raw names whose copy does
    not land. */
module Ingest {
  import Seqs
  import Text
  import Playout

  const VideosDir := "./videos"
  const NormalizeDir := "./videos/normalize"
  const Mp4Suffix := ".mp4"

  /** `os.path.join` of a directory and a plain file name. */
  function Join(dir: string, name: string): string {
    dir + "/" + name
  }

  /** `is_valid_mp4`: only the suffix is looked at, case-sensitively. */
  predicate IsValidMp4(path: string) {
    Text.EndsWith(path, Mp4Suffix)
  }

  /** `preprocess_video`: a valid path is handed to a shell `cp` and success
      is reported whatever the copy did; `lands` says whether the copy
      produced the file (a name holding `'` breaks the command's quoting,
      for one). An invalid path is refused and the store is left alone. */
  function PreprocessVideo(inputPath: string, outputName: string, store: set<string>, lands: bool)
    : (r: (bool, set<string>))
    ensures r.0 <==> IsValidMp4(inputPath)
    ensures outputName in r.1 <==> outputName in store || (r.0 && lands)
    ensures store <= r.1 && r.1 <= store + {outputName}
  {
    if IsValidMp4(inputPath) then (true, if lands then store + {outputName} else store) else (false, store)
  }

  /** The normalised store (names present in the normalised directory) and
      the playout state it feeds. */
  datatype Library = Library(store: set<string>, playout: Playout.Playout)

  /** The test that lets a raw name's copy land. */
  function Lands(fails: set<string>): string -> bool {
    (f: string) => f !in fails
  }

  /** The body of the scan loop for one raw file name `f`: strip whitespace,
      skip the file when its normalised name is already stored, otherwise copy
      it and, on reported success, enqueue the normalised name. */
  function NormalizeFile(lib: Library, f: string, fails: set<string>): (next: Library)
  {
    var name := Text.RemoveWhitespace(f);
    if name in lib.store then lib
    else
      var (ok, store) := PreprocessVideo(Join(VideosDir, f), name, lib.store, Lands(fails)(f));
      if ok then Library(store, Playout.Enqueue(lib.playout, [name]))
      else lib.(store := store)
  }

  /** The scan's file filter: the raw listing keeps names ending in `.mp4`. */
  predicate IsMp4Name(f: string) {
    Text.EndsWith(f, Mp4Suffix)
  }

  /** The per-file body applied to `files` in order. */
  function NormalizeAll(lib: Library, files: seq<string>, fails: set<string>): (next: Library)
    decreases |files|
  {
    if |files| == 0 then lib
    else NormalizeFile(NormalizeAll(lib, files[..|files| - 1], fails), files[|files| - 1], fails)
  }

  /** One pass of `normalize_videos` over a listing of the raw directory. */
  function NormalizePass(lib: Library, listing: seq<string>, fails: set<string>): (next: Library)
  {
    NormalizeAll(lib, Seqs.Filter(listing, IsMp4Name), fails)
  }

  /** `k` passes over the same listing, as the ten-second scan repeats. */
  function Passes(lib: Library, listing: seq<string>, fails: set<string>, k: nat): (next: Library)
  {
    if k == 0 then lib else NormalizePass(Passes(lib, listing, fails, k - 1), listing, fails)
  }

  /** The normalised name of each file, in order. */
  function Names(files: seq<string>): (names: seq<string>)
    ensures |names| == |files|
  {
    seq(|files|, i requires 0 <= i < |files| => Text.RemoveWhitespace(files[i]))
  }

  /** The set of normalised names of `files`. */
  function NameSet(files: seq<string>): set<string> {
    set n | n in Names(files)
  }

  /** Reference for what a pass over files whose copies all land adds to the
      queue: the normalised names in first-occurrence order, without those
      already stored. */
  function Admitted(store: set<string>, files: seq<string>): seq<string>
  {
    Seqs.Filter(Seqs.Dedup(Names(files)), Unstored(store))
  }

  /** The test that lets a name through: not yet in the store. */
  function Unstored(store: set<string>): string -> bool {
    (n: string) => n !in store
  }

  /** Reference for what a pass adds to the queue when copies may fail: each
      file's normalised name, in listing order, unless it was stored before
      the pass or an earlier file with the same normalised name was copied. */
  function Enqueued(store: set<string>, files: seq<string>, fails: set<string>): seq<string>
    decreases |files|
  {
    if |files| == 0 then []
    else
      var init, n := files[..|files| - 1], Text.RemoveWhitespace(files[|files| - 1]);
      Enqueued(store, init, fails)
        + (if n in store || n in NameSet(Seqs.Filter(init, Lands(fails))) then [] else [n])
  }

  lemma NamesSnoc(files: seq<string>, f: string)
    ensures Names(files + [f]) == Names(files) + [Text.RemoveWhitespace(f)]
  {
  }

  lemma AdmittedSnoc(store: set<string>, files: seq<string>, f: string)
    ensures Admitted(store, files + [f]) ==
      var n := Text.RemoveWhitespace(f);
      if n in store || n in Names(files) then Admitted(store, files) else Admitted(store, files) + [n]
  {
    NamesSnoc(files, f);
    Seqs.FilterDedupSnoc(Names(files), Text.RemoveWhitespace(f), Unstored(store));
  }

  lemma EnqueuedSnoc(store: set<string>, files: seq<string>, f: string, fails: set<string>)
    ensures Enqueued(store, files + [f], fails) ==
      var n := Text.RemoveWhitespace(f);
      Enqueued(store, files, fails)
        + (if n in store || n in NameSet(Seqs.Filter(files, Lands(fails))) then [] else [n])
  {
    assert (files + [f])[..|files|] == files;
  }

  /** When every copy lands, the two references agree. */
  lemma {:induction false} EnqueuedAllLand(store: set<string>, files: seq<string>, fails: set<string>)
    requires forall i :: 0 <= i < |files| ==> files[i] !in fails
    ensures Enqueued(store, files, fails) == Admitted(store, files)
    decreases |files|
  {
    if |files| == 0 {
      assert Names(files) == [];
      assert Seqs.Dedup(Names(files)) == [];
    } else {
      var init, f := files[..|files| - 1], files[|files| - 1];
      assert files == init + [f];
      EnqueuedAllLand(store, init, fails);
      EnqueuedSnoc(store, init, f, fails);
      AdmittedSnoc(store, init, f);
      Seqs.FilterAll(init, Lands(fails));
      NameSetSnoc(init, f);
    }
  }

  /** For an `.mp4` name success is always reported, so the file is either
      skipped, or enqueued and stored when its copy lands. */
  lemma NormalizeFileMp4(lib: Library, f: string, fails: set<string>)
    requires IsMp4Name(f)
    ensures var n := Text.RemoveWhitespace(f);
      NormalizeFile(lib, f, fails) ==
        if n in lib.store then lib
        else Library(if f in fails then lib.store else lib.store + {n}, Playout.Enqueue(lib.playout, [n]))
  {
    assert Join(VideosDir, f) == (VideosDir + "/") + f;
    assert Join(VideosDir, f)[|Join(VideosDir, f)| - |Mp4Suffix|..] == f[|f| - |Mp4Suffix|..];
  }

  /** A scan over `.mp4` names enqueues exactly the reference names, in the
      order of the listing, and the store gains the normalised name of every
      file whose copy landed. */
  lemma {:induction false} NormalizeAllSpec(lib: Library, files: seq<string>, fails: set<string>)
    requires forall i :: 0 <= i < |files| ==> IsMp4Name(files[i])
    ensures NormalizeAll(lib, files, fails).playout == Playout.Enqueue(lib.playout, Enqueued(lib.store, files, fails))
    ensures NormalizeAll(lib, files, fails).store == lib.store + NameSet(Seqs.Filter(files, Lands(fails)))
    decreases |files|
  {
    if |files| == 0 {
      assert Names([]) == [];
    } else {
      var init, f := files[..|files| - 1], files[|files| - 1];
      assert files == init + [f];
      NormalizeAllSpec(lib, init, fails);
      NormalizeAllStep(lib, init, f, fails);
    }
  }

  /** One more `.mp4` file extends the loop and the reference alike. */
  lemma NormalizeAllStep(lib: Library, init: seq<string>, f: string, fails: set<string>)
    requires IsMp4Name(f)
    requires NormalizeAll(lib, init, fails).playout == Playout.Enqueue(lib.playout, Enqueued(lib.store, init, fails))
    requires NormalizeAll(lib, init, fails).store == lib.store + NameSet(Seqs.Filter(init, Lands(fails)))
    ensures NormalizeAll(lib, init + [f], fails).playout == Playout.Enqueue(lib.playout, Enqueued(lib.store, init + [f], fails))
    ensures NormalizeAll(lib, init + [f], fails).store == lib.store + NameSet(Seqs.Filter(init + [f], Lands(fails)))
  {
    var files := init + [f];
    assert files[..|files| - 1] == init;
    var mid := NormalizeAll(lib, init, fails);
    var n := Text.RemoveWhitespace(f);
    var landed := Seqs.Filter(init, Lands(fails));
    NormalizeFileMp4(mid, f, fails);
    EnqueuedSnoc(lib.store, init, f, fails);
    Seqs.FilterAppend(init, [f], Lands(fails));
    assert [f][1..] == [];
    NameSetSnoc(landed, f);
    if f !in fails {
      assert Seqs.Filter(init + [f], Lands(fails)) == landed + [f];
    } else {
      assert Seqs.Filter(init + [f], Lands(fails)) == landed;
    }
    if n !in mid.store {
      Playout.EnqueueTwice(lib.playout, Enqueued(lib.store, init, fails), [n]);
    }
  }

  lemma NameSetSnoc(files: seq<string>, f: string)
    ensures NameSet(files + [f]) == NameSet(files) + {Text.RemoveWhitespace(f)}
    ensures Text.RemoveWhitespace(f) in NameSet(files) <==> Text.RemoveWhitespace(f) in Names(files)
  {
    NamesSnoc(files, f);
  }

  /** The pass over a raw listing, stated against the reference. */
  lemma NormalizePassSpec(lib: Library, listing: seq<string>, fails: set<string>)
    ensures var files := Seqs.Filter(listing, IsMp4Name);
      && NormalizePass(lib, listing, fails).playout == Playout.Enqueue(lib.playout, Enqueued(lib.store, files, fails))
      && NormalizePass(lib, listing, fails).store == lib.store + NameSet(Seqs.Filter(files, Lands(fails)))
  {
    var files := Seqs.Filter(listing, IsMp4Name);
    Seqs.FilterMembers(listing, IsMp4Name);
    assert forall i :: 0 <= i < |files| ==> files[i] in files;
    NormalizeAllSpec(lib, files, fails);
  }

  /** Every name a reference list holds is the normalised name of one of the
      files and was not stored before. */
  lemma {:induction false} EnqueuedNames(store: set<string>, files: seq<string>, fails: set<string>, n: string)
    requires n in Enqueued(store, files, fails)
    ensures n in Names(files) && n !in store
    decreases |files|
  {
    var init, f := files[..|files| - 1], files[|files| - 1];
    assert files == init + [f];
    NamesSnoc(init, f);
    if n in Enqueued(store, init, fails) {
      EnqueuedNames(store, init, fails, n);
    }
  }

  /** What one pass enqueues: nothing that was stored before, each name free
      of whitespace and ending in `.mp4`; the queue is only extended, the
      store only grows, and the cursor does not move. */
  lemma NormalizePassEnqueues(lib: Library, listing: seq<string>, fails: set<string>)
    ensures var next := NormalizePass(lib, listing, fails);
      && lib.playout.queue <= next.playout.queue
      && next.playout.cursor == lib.playout.cursor
      && lib.store <= next.store
      && forall n :: n in next.playout.queue[|lib.playout.queue|..] ==>
           && n !in lib.store
           && Text.NoSpace(n)
           && Text.EndsWith(n, Mp4Suffix)
  {
    var files := Seqs.Filter(listing, IsMp4Name);
    NormalizePassSpec(lib, listing, fails);
    var added := Enqueued(lib.store, files, fails);
    var next := NormalizePass(lib, listing, fails);
    assert next.playout.queue[|lib.playout.queue|..] == added;
    Seqs.FilterMembers(listing, IsMp4Name);
    forall n | n in added
      ensures n !in lib.store && Text.NoSpace(n) && Text.EndsWith(n, Mp4Suffix)
    {
      EnqueuedNames(lib.store, files, fails, n);
      NameShape(files, n);
    }
  }

  /** When every copy lands, a pass enqueues each name once, and only names
      it has stored. */
  lemma NormalizePassLanded(lib: Library, listing: seq<string>, fails: set<string>)
    requires forall f :: f in listing ==> f !in fails
    ensures var next := NormalizePass(lib, listing, fails);
      && lib.playout.queue <= next.playout.queue
      && Seqs.NoDup(next.playout.queue[|lib.playout.queue|..])
      && forall n :: n in next.playout.queue[|lib.playout.queue|..] ==> n in next.store
  {
    var files := Seqs.Filter(listing, IsMp4Name);
    Seqs.FilterMembers(listing, IsMp4Name);
    NormalizePassSpec(lib, listing, fails);
    EnqueuedAllLand(lib.store, files, fails);
    Seqs.FilterAll(files, Lands(fails));
    var added := Admitted(lib.store, files);
    var next := NormalizePass(lib, listing, fails);
    assert next.playout.queue[|lib.playout.queue|..] == added;
    Seqs.FilterNoDup(Seqs.Dedup(Names(files)), Unstored(lib.store));
    Seqs.FilterMembers(Seqs.Dedup(Names(files)), Unstored(lib.store));
  }

  /** A normalised `.mp4` name is free of whitespace and still ends in `.mp4`. */
  lemma NameShape(files: seq<string>, n: string)
    requires forall x :: x in files ==> IsMp4Name(x)
    requires n in Names(files)
    ensures Text.NoSpace(n) && Text.EndsWith(n, Mp4Suffix)
  {
    var i :| 0 <= i < |files| && Names(files)[i] == n;
    assert files[i] in files;
    assert Text.NoSpace(Mp4Suffix);
    Text.RemoveWhitespaceKeepsSuffix(files[i], Mp4Suffix);
  }

  /** When every copy lands, scanning the same listing twice enqueues
      nothing the second time. */
  lemma NormalizePassIdempotent(lib: Library, listing: seq<string>, fails: set<string>)
    requires forall f :: f in listing ==> f !in fails
    ensures NormalizePass(NormalizePass(lib, listing, fails), listing, fails) == NormalizePass(lib, listing, fails)
  {
    var files := Seqs.Filter(listing, IsMp4Name);
    var once := NormalizePass(lib, listing, fails);
    Seqs.FilterMembers(listing, IsMp4Name);
    NormalizePassSpec(lib, listing, fails);
    NormalizePassSpec(once, listing, fails);
    EnqueuedAllLand(lib.store, files, fails);
    EnqueuedAllLand(once.store, files, fails);
    Seqs.FilterAll(files, Lands(fails));
    Seqs.FilterNone(Seqs.Dedup(Names(files)), Unstored(once.store));
    assert Playout.Enqueue(once.playout, []) == once.playout;
  }

  /** A `.mp4` file whose copy does not land is enqueued by every scan: its
      normalised name never reaches the store, so after `k` scans it sits
      `k` times at the end of the queue. */
  lemma {:induction false} FailedCopyRequeued(lib: Library, f: string, fails: set<string>, k: nat)
    requires IsMp4Name(f) && f in fails && Text.RemoveWhitespace(f) !in lib.store
    ensures Passes(lib, [f], fails, k).store == lib.store
    ensures Passes(lib, [f], fails, k).playout
         == Playout.Enqueue(lib.playout, seq(k, i => Text.RemoveWhitespace(f)))
  {
    var n := Text.RemoveWhitespace(f);
    if k > 0 {
      FailedCopyRequeued(lib, f, fails, k - 1);
      var prev := Passes(lib, [f], fails, k - 1);
      SingleFile(prev, f, fails);
      NormalizeFileMp4(prev, f, fails);
      Playout.EnqueueTwice(lib.playout, seq(k - 1, i => n), [n]);
      assert seq(k - 1, i => n) + [n] == seq(k, i => n);
    } else {
      assert Playout.Enqueue(lib.playout, []) == lib.playout;
    }
  }

  /** A listing of one `.mp4` file and one other file, both copied, queues
      only the normalised `.mp4` name, at the front of an empty queue. */
  lemma OnlyMp4Queued(f: string, g: string)
    requires IsMp4Name(f) && !IsMp4Name(g)
    ensures NormalizePass(Library({}, Playout.Initial), [f, g], {})
         == Library({Text.RemoveWhitespace(f)}, Playout.Playout([Text.RemoveWhitespace(f)], 0))
  {
    assert [f, g] == [f] + [g];
    Seqs.FilterAppend([f], [g], IsMp4Name);
    assert Seqs.Filter([g], IsMp4Name) == [];
    SingleFile(Library({}, Playout.Initial), f, {});
    NormalizeFileMp4(Library({}, Playout.Initial), f, {});
  }

  /** Two raw names that normalise alike (`"a b.mp4"` and `"ab.mp4"`), the
      first copied: the second finds its normalised name stored and is
      skipped. */
  lemma SameNormalNameQueuedOnce(f: string, g: string, fails: set<string>)
    requires IsMp4Name(f) && IsMp4Name(g) && Text.RemoveWhitespace(f) == Text.RemoveWhitespace(g)
    requires f !in fails
    ensures NormalizePass(Library({}, Playout.Initial), [f, g], fails)
         == Library({Text.RemoveWhitespace(f)}, Playout.Playout([Text.RemoveWhitespace(f)], 0))
  {
    var lib := Library({}, Playout.Initial);
    var n := Text.RemoveWhitespace(f);
    SingleFile(lib, f, fails);
    NormalizeFileMp4(lib, f, fails);
    var once := NormalizeAll(lib, [f], fails);
    assert once == Library({n}, Playout.Playout([n], 0));
    TwoFiles(lib, f, g, fails);
    NormalizeFileMp4(once, g, fails);
  }

  lemma TwoFiles(lib: Library, f: string, g: string, fails: set<string>)
    requires IsMp4Name(f) && IsMp4Name(g)
    ensures NormalizePass(lib, [f, g], fails) == NormalizeFile(NormalizeAll(lib, [f], fails), g, fails)
  {
    assert [f, g] == [f] + [g];
    Seqs.FilterAppend([f], [g], IsMp4Name);
    SingleFile(lib, f, fails);
    SingleFile(lib, g, fails);
    var files := [f, g];
    assert files[..1] == [f];
  }

  lemma SingleFile(lib: Library, f: string, fails: set<string>)
    requires IsMp4Name(f)
    ensures Seqs.Filter([f], IsMp4Name) == [f]
    ensures NormalizeAll(lib, [f], fails) == NormalizeFile(lib, f, fails)
    ensures NormalizePass(lib, [f], fails) == NormalizeFile(lib, f, fails)
  {
    var one: seq<string> := [f];
    assert one[..0] == [];
    assert one[1..] == [];
  }
}
