/** What reading a configuration with includes does, on values: which files are read, in which order,
    and when one is read again. */
module IncludeRuns {
  import opened Options
  import opened IncludeGraph

  /** The chain, the files whose lines were read so far, the commands run so far, the files that were read
      to the end and in which commands failed, and those of them that were included again while they were
      still on the chain. */
  datatype Run = Run(chain: seq<Path>, loaded: seq<Path>, log: seq<string>, failed: set<Path>, again: seq<Path>)

  ghost predicate Grows(d: Disk, r: Run, s: Run) {
    && r.chain <= s.chain && r.loaded <= s.loaded && r.again <= s.again
    && Remaining(d, s.chain) <= Remaining(d, r.chain)
  }

  /** The lines of a file, or those left of it, resolved from `base`, and whether none of their commands
      failed; an `include` never does. Where `lenient` holds, a file that was read stays on the chain in
      any case. */
  ghost function DoLines(d: Disk, lenient: bool, base: Path, lines: seq<Line>, r: Run): (s: (Run, bool))
    ensures Grows(d, r, s.0)
    decreases Remaining(d, r.chain), 3, |lines|
  {
    if lines == [] then (r, true)
    else match lines[0]
      case Command(text) =>
        var (s, ok) := DoLines(d, lenient, base, lines[1..], Ran(r, text));
        (s, d.exec(r.log, text) && ok)
      case Include(words) => DoLines(d, lenient, base, lines[1..], DoWords(d, lenient, base, words, r))
  }

  function Ran(r: Run, text: string): Run {
    r.(log := r.log + [text])
  }

  ghost function DoWords(d: Disk, lenient: bool, base: Path, words: seq<string>, r: Run): (s: Run)
    ensures Grows(d, r, s)
    decreases Remaining(d, r.chain), 2, |words|
  {
    if words == [] then r else DoWords(d, lenient, base, words[1..], DoWord(d, lenient, base, words[0], r))
  }

  ghost function DoWord(d: Disk, lenient: bool, base: Path, word: string, r: Run): (s: Run)
    ensures Grows(d, r, s)
    decreases Remaining(d, r.chain), 1, 0
  {
    match d.resolve(base, word)
    case None => r
    case Some(p) => if p in r.chain then Met(p, r) else DoNew(d, lenient, p, r)
  }

  /** A file that is on the chain is not read. */
  function Met(p: Path, r: Run): Run {
    if p in r.failed then r.(again := r.again + [p]) else r
  }

  ghost function DoNew(d: Disk, lenient: bool, p: Path, r: Run): (s: Run)
    requires p !in r.chain
    ensures Grows(d, r, s)
    decreases Remaining(d, r.chain), 0, 1
  {
    if p !in d.files then r
    else
      var (s, ok) := DoFile(d, lenient, p, r);
      LongerChain(d, r.chain, Without(s.chain, |r.chain|));
      Ended(lenient, p, |r.chain|, s, ok)
  }

  lemma NewFile(d: Disk, lenient: bool, p: Path, r: Run)
    requires p !in r.chain
    ensures p !in d.files ==> DoNew(d, lenient, p, r) == r
    ensures p in d.files ==>
      var (s, ok) := DoLines(d, lenient, Base(d, p), d.files[p], Begun(r, p));
      && DoFile(d, lenient, p, r) == (s, ok) && r.chain + [p] <= s.chain
      && DoNew(d, lenient, p, r) == Ended(lenient, p, |r.chain|, s, ok)
  {
  }

  /** The lines of a file that was put on the chain. */
  ghost function DoFile(d: Disk, lenient: bool, p: Path, r: Run): (s: (Run, bool))
    requires p !in r.chain && p in d.files
    ensures r.chain + [p] <= s.0.chain && Grows(d, r, s.0)
    decreases Remaining(d, r.chain), 0, 0
  {
    AddedToChain(d, r.chain, p);
    DoLines(d, lenient, Base(d, p), d.files[p], Begun(r, p))
  }

  function Begun(r: Run, p: Path): Run {
    r.(chain := r.chain + [p], loaded := r.loaded + [p])
  }

  /** A file that did not load is taken off the chain, from where it was put. */
  function Ended(lenient: bool, p: Path, index: nat, s: Run, ok: bool): Run {
    if ok then s
    else s.(failed := s.failed + {p}, chain := if lenient then s.chain else Without(s.chain, index))
  }

  function Without(s: seq<Path>, index: nat): seq<Path> {
    if index < |s| then s[..index] + s[index + 1..] else s
  }

  const NOTHING := Run([], [], [], {}, [])

  /** From the main file on, which stays on the chain. */
  ghost function MainRun(d: Disk, lenient: bool): (Run, bool) {
    if d.main !in d.files then (NOTHING.(chain := [d.main]), false)
    else DoLines(d, lenient, d.mainPath, d.files[d.main], Begun(NOTHING, d.main))
  }

  // ---- when a file is read twice ----

  /** A lenient run and one that takes failing files off the chain, side by side, as long as they read
      the same files and run the same commands: only files that failed are missing from the second chain.
      Files that are being read have not failed. */
  ghost predicate Synced(d: Disk, reading: set<Path>, l: Run, s: Run) {
    && l.again == [] && l.chain == l.loaded == s.loaded && l.log == s.log && l.failed == s.failed
    && Unique(l.chain) && Unique(s.chain)
    && (forall p :: p in l.chain ==> p in d.files) && (forall p :: p in l.failed ==> p in l.chain)
    && (forall p :: p in reading ==> p in l.chain && p !in l.failed)
    && forall p :: p in s.chain <==> p in l.chain && p !in l.failed
  }

  /** Both runs still do the same, or the first has met a failed file again and the second has read a file
      twice. */
  ghost predicate Told(d: Disk, reading: set<Path>, l: Run, s: Run) {
    if l.again == [] then Synced(d, reading, l, s) else !Unique(s.loaded)
  }

  lemma NotUniqueGrows(a: seq<Path>, b: seq<Path>)
    requires !Unique(a) && a <= b
    ensures !Unique(b)
  {
    var i, j :| 0 <= i < j < |a| && a[i] == a[j];
    assert b[i] == b[j];
  }

  lemma {:induction false} LinesTold(d: Disk, reading: set<Path>, base: Path, lines: seq<Line>, l: Run, s: Run)
    requires Synced(d, reading, l, s)
    ensures var (l2, lOk) := DoLines(d, true, base, lines, l); var (s2, sOk) := DoLines(d, false, base, lines, s);
      Told(d, reading, l2, s2) && (l2.again == [] ==> lOk == sOk)
    decreases Remaining(d, l.chain), 3, |lines|
  {
    if lines != [] {
      match lines[0]
      case Command(text) =>
        LinesTold(d, reading, base, lines[1..], Ran(l, text), Ran(s, text));
      case Include(words) =>
        WordsTold(d, reading, base, words, l, s);
        var l2, s2 := DoWords(d, true, base, words, l), DoWords(d, false, base, words, s);
        if l2.again == [] {
          LinesTold(d, reading, base, lines[1..], l2, s2);
        } else {
          NotUniqueGrows(s2.loaded, DoLines(d, false, base, lines[1..], s2).0.loaded);
        }
    }
  }

  lemma {:induction false} WordsTold(d: Disk, reading: set<Path>, base: Path, words: seq<string>, l: Run, s: Run)
    requires Synced(d, reading, l, s)
    ensures Told(d, reading, DoWords(d, true, base, words, l), DoWords(d, false, base, words, s))
    decreases Remaining(d, l.chain), 2, |words|
  {
    if words != [] {
      WordTold(d, reading, base, words[0], l, s);
      var l2, s2 := DoWord(d, true, base, words[0], l), DoWord(d, false, base, words[0], s);
      if l2.again == [] {
        WordsTold(d, reading, base, words[1..], l2, s2);
      } else {
        NotUniqueGrows(s2.loaded, DoWords(d, false, base, words[1..], s2).loaded);
      }
    }
  }

  lemma {:induction false} WordTold(d: Disk, reading: set<Path>, base: Path, word: string, l: Run, s: Run)
    requires Synced(d, reading, l, s)
    ensures Told(d, reading, DoWord(d, true, base, word, l), DoWord(d, false, base, word, s))
    decreases Remaining(d, l.chain), 1, 0
  {
    match d.resolve(base, word)
    case None =>
    case Some(p) =>
      if p !in l.chain {
        NewTold(d, reading, p, l, s);
      } else if p !in s.chain {
        ReadAgain(d, p, s);
      }
  }

  /** What is not on the chain is read, although it was read before. */
  lemma ReadAgain(d: Disk, p: Path, s: Run)
    requires p in d.files && p !in s.chain && p in s.loaded
    ensures !Unique(DoNew(d, false, p, s).loaded)
  {
    AddedToChain(d, s.chain, p);
    var k :| 0 <= k < |s.loaded| && s.loaded[k] == p;
    var all := Begun(s, p).loaded;
    assert all[k] == all[|s.loaded|];
    NotUniqueGrows(all, DoFile(d, false, p, s).0.loaded);
  }

  lemma {:induction false} NewTold(d: Disk, reading: set<Path>, p: Path, l: Run, s: Run)
    requires Synced(d, reading, l, s) && p !in l.chain
    ensures p !in s.chain
    ensures Told(d, reading, DoNew(d, true, p, l), DoNew(d, false, p, s))
    decreases Remaining(d, l.chain), 0, 0
  {
    if p in d.files {
      AddedToChain(d, l.chain, p);
      BegunSynced(d, reading, p, l, s);
      LinesTold(d, reading + {p}, Base(d, p), d.files[p], Begun(l, p), Begun(s, p));
      FileIs(d, true, p, l);
      FileIs(d, false, p, s);
      EndTold(d, reading, p, |l.chain|, s.chain, DoFile(d, true, p, l), DoFile(d, false, p, s));
    }
  }

  lemma FileIs(d: Disk, lenient: bool, p: Path, r: Run)
    requires p in d.files && p !in r.chain
    ensures DoFile(d, lenient, p, r) == DoLines(d, lenient, Base(d, p), d.files[p], Begun(r, p))
    ensures var file := DoFile(d, lenient, p, r);
      DoNew(d, lenient, p, r) == Ended(lenient, p, |r.chain|, file.0, file.1)
  {
  }

  lemma BegunSynced(d: Disk, reading: set<Path>, p: Path, l: Run, s: Run)
    requires Synced(d, reading, l, s) && p !in l.chain && p in d.files
    ensures Synced(d, reading + {p}, Begun(l, p), Begun(s, p))
  {
  }

  lemma EndTold(d: Disk, reading: set<Path>, p: Path, i: nat, before: seq<Path>, l: (Run, bool), s: (Run, bool))
    requires Told(d, reading + {p}, l.0, s.0) && p !in reading && before + [p] <= s.0.chain
    requires l.0.again == [] ==> l.1 == s.1
    ensures Told(d, reading, Ended(true, p, i, l.0, l.1), Ended(false, p, |before|, s.0, s.1))
  {
    if l.0.again == [] && !l.1 {
      EndSynced(d, reading, p, before, l.0, s.0);
    }
  }

  /** A file in which commands failed stays on the first chain and leaves the second. */
  lemma EndSynced(d: Disk, reading: set<Path>, p: Path, before: seq<Path>, l: Run, s: Run)
    requires Synced(d, reading + {p}, l, s) && p !in reading && before + [p] <= s.chain
    ensures Synced(d, reading, l.(failed := l.failed + {p}),
      s.(failed := s.failed + {p}, chain := Without(s.chain, |before|)))
  {
    var now := s.chain;
    var after := Without(now, |before|);
    assert (before + [p])[|before|] == p && now[|before|] == p;
    assert forall k :: 0 <= k < |after| ==> after[k] == now[if k < |before| then k else k + 1];
    forall q
      ensures q in after <==> q in now && q != p
    {
      if q in now && q != p {
        var k :| 0 <= k < |now| && now[k] == q;
        assert after[if k < |before| then k else k - 1] == q;
      }
    }
  }

  /** When no file is read twice in a pure validation: exactly if reading the configuration for real
      meets no file again that was read to the end and in which commands failed. */
  lemma ReadOnceIff(d: Disk)
    ensures Unique(MainRun(d, false).0.loaded) <==> MainRun(d, true).0.again == []
  {
    if d.main in d.files {
      var r := Begun(NOTHING, d.main);
      assert Synced(d, {d.main}, r, r);
      LinesTold(d, {d.main}, d.mainPath, d.files[d.main], r, r);
    }
  }

  // ---- if nothing fails ----

  /** No command of an included file fails, whatever was run before. */
  ghost predicate IncludedOk(d: Disk) {
    forall p, text :: Reachable(d, d.main, p) && p != d.main && p in d.files && Command(text) in d.files[p] ==>
      forall log :: d.exec(log, text)
  }

  /** Files on the chain can be reached from the main file, and none of them failed. */
  ghost predicate Sound(d: Disk, r: Run) {
    Reached(d, r.chain) && d.main in r.chain && r.failed == {} && r.again == []
  }

  lemma {:induction false} LinesSound(d: Disk, lenient: bool, owner: Path, lines: seq<Line>, r: Run)
    requires Sound(d, r) && Reachable(d, d.main, owner) && owner in d.files && IncludedOk(d)
    requires forall line :: line in lines ==> line in d.files[owner]
    ensures Sound(d, DoLines(d, lenient, Base(d, owner), lines, r).0)
    ensures owner != d.main ==> DoLines(d, lenient, Base(d, owner), lines, r).1
    decreases Remaining(d, r.chain), 3, |lines|
  {
    if lines != [] {
      var base := Base(d, owner);
      match lines[0]
      case Command(text) =>
        assert lines[0] in lines && Sound(d, Ran(r, text));
        LinesSound(d, lenient, owner, lines[1..], Ran(r, text));
      case Include(words) =>
        assert lines[0] in lines;
        WordsSound(d, lenient, owner, lines[0], words, r);
        LinesSound(d, lenient, owner, lines[1..], DoWords(d, lenient, base, words, r));
    }
  }

  lemma {:induction false} WordsSound(d: Disk, lenient: bool, owner: Path, line: Line, words: seq<string>, r: Run)
    requires Sound(d, r) && Reachable(d, d.main, owner) && owner in d.files && IncludedOk(d)
    requires line in d.files[owner] && line.Include? && forall w :: w in words ==> w in line.words
    ensures Sound(d, DoWords(d, lenient, Base(d, owner), words, r))
    decreases Remaining(d, r.chain), 2, |words|
  {
    if words != [] {
      WordSound(d, lenient, owner, line, words[0], r);
      var next := DoWord(d, lenient, Base(d, owner), words[0], r);
      WordsSound(d, lenient, owner, line, words[1..], next);
    }
  }

  lemma {:induction false} WordSound(d: Disk, lenient: bool, owner: Path, line: Line, word: string, r: Run)
    requires Sound(d, r) && Reachable(d, d.main, owner) && owner in d.files && IncludedOk(d)
    requires line in d.files[owner] && line.Include? && word in line.words
    ensures Sound(d, DoWord(d, lenient, Base(d, owner), word, r))
    decreases Remaining(d, r.chain), 1, 0
  {
    match d.resolve(Base(d, owner), word)
    case None =>
    case Some(p) =>
      if p !in r.chain && p in d.files {
        assert Names(d, Base(d, owner), line, p);
        ReachNext(d, d.main, owner, p);
        NewSound(d, lenient, p, r);
      }
  }

  lemma {:induction false} NewSound(d: Disk, lenient: bool, p: Path, r: Run)
    requires Sound(d, r) && p !in r.chain && p in d.files && Reachable(d, d.main, p) && IncludedOk(d)
    ensures Sound(d, DoNew(d, lenient, p, r))
    decreases Remaining(d, r.chain), 0, 0
  {
    AddedToChain(d, r.chain, p);
    assert Sound(d, Begun(r, p));
    LinesSound(d, lenient, p, d.files[p], Begun(r, p));
  }

  /** In particular if no command of an included file fails. */
  lemma ReadOnce(d: Disk)
    requires IncludedOk(d)
    ensures Unique(MainRun(d, false).0.loaded)
  {
    ReadOnceIff(d);
    if d.main in d.files {
      ReachSelf(d, d.main);
      LinesSound(d, true, d.main, d.files[d.main], Begun(NOTHING, d.main));
    }
  }

  // ---- a file read twice ----

  const INCLUDE_A := Include(["a"])

  /** A main file that includes `a` twice, and a command in `a` that fails. */
  ghost predicate IncludesTwice(d: Disk, a: Path, text: string) {
    && d.main in d.files && d.files[d.main] == [INCLUDE_A, INCLUDE_A] && d.resolve(d.mainPath, "a") == Some(a)
    && a != d.main && a in d.files && d.files[a] == [Command(text)] && !d.exec([], text)
  }

  lemma ReadsTwice(d: Disk, a: Path, text: string)
    requires IncludesTwice(d, a, text)
    ensures MainRun(d, false).0.loaded == [d.main, a, a] && MainRun(d, true).0.loaded == [d.main, a]
  {
    var r := Begun(NOTHING, d.main);
    assert r.chain == [d.main] && r.loaded == [d.main];
    StrictTwice(d, a, text, r);
    LenientOnce(d, a, text, r);
  }

  lemma StrictTwice(d: Disk, a: Path, text: string, r: Run)
    requires IncludesTwice(d, a, text) && r.chain == [d.main] == r.loaded && r.log == []
    ensures DoLines(d, false, d.mainPath, d.files[d.main], r).0.loaded == [d.main, a, a]
  {
    hide DoWord, DoLines, Grows, Remaining;
    TwoLines(d, false, r);
    WordRead(d, false, a, text, r);
    var s := DoWord(d, false, d.mainPath, "a", r);
    assert s.chain == r.chain;
    WordRead(d, false, a, text, s);
    assert [d.main] + [a] + [a] == [d.main, a, a];
  }

  lemma LenientOnce(d: Disk, a: Path, text: string, r: Run)
    requires IncludesTwice(d, a, text) && r.chain == [d.main] == r.loaded && r.log == []
    ensures DoLines(d, true, d.mainPath, d.files[d.main], r).0.loaded == [d.main, a]
  {
    hide DoWord, DoLines, Grows, Remaining;
    TwoLines(d, true, r);
    WordRead(d, true, a, text, r);
    var l := DoWord(d, true, d.mainPath, "a", r);
    assert l.chain == [d.main] + [a] && l.chain[1] == a;
    WordMet(d, true, a, l);
    assert [d.main] + [a] == [d.main, a];
  }

  lemma TwoLines(d: Disk, lenient: bool, r: Run)
    ensures DoLines(d, lenient, d.mainPath, [INCLUDE_A, INCLUDE_A], r).0
         == DoWord(d, lenient, d.mainPath, "a", DoWord(d, lenient, d.mainPath, "a", r))
  {
    var lines := [INCLUDE_A, INCLUDE_A];
    assert lines[1..] == [INCLUDE_A] && lines[1..][1..] == [];
    OneWord(d, lenient, r);
    var s := DoWord(d, lenient, d.mainPath, "a", r);
    OneWord(d, lenient, s);
    assert DoLines(d, lenient, d.mainPath, lines[1..], s).0 == DoWord(d, lenient, d.mainPath, "a", s);
  }

  lemma OneWord(d: Disk, lenient: bool, r: Run)
    ensures DoWords(d, lenient, d.mainPath, ["a"], r) == DoWord(d, lenient, d.mainPath, "a", r)
  {
    assert ["a"][1..] == [];
  }

  lemma WordMet(d: Disk, lenient: bool, a: Path, r: Run)
    requires d.resolve(d.mainPath, "a") == Some(a) && a in r.chain
    ensures DoWord(d, lenient, d.mainPath, "a", r).loaded == r.loaded
  {
  }

  /** Reading `a`, from whatever was done before. */
  lemma WordRead(d: Disk, lenient: bool, a: Path, text: string, r: Run)
    requires IncludesTwice(d, a, text) && a !in r.chain
    ensures DoWord(d, lenient, d.mainPath, "a", r)
         == Ended(lenient, a, |r.chain|, Ran(Begun(r, a), text), d.exec(r.log, text))
    ensures r.log == [] ==>
      DoWord(d, lenient, d.mainPath, "a", r).chain == if lenient then r.chain + [a] else r.chain
  {
    FileIs(d, lenient, a, r);
    OneCommand(d, lenient, Base(d, a), text, Begun(r, a));
    assert Without(r.chain + [a], |r.chain|) == r.chain;
  }

  lemma OneCommand(d: Disk, lenient: bool, base: Path, text: string, r: Run)
    ensures DoLines(d, lenient, base, [Command(text)], r) == (Ran(r, text), d.exec(r.log, text))
  {
    assert [Command(text)][1..] == [];
  }

  // ---- in which order commands run ----

  /** A file is read line by line: what is behind is read as the part in front of it left things, and the verdict
      is that of both. */
  lemma {:induction false} LinesAppend(d: Disk, lenient: bool, base: Path, a: seq<Line>, b: seq<Line>, r: Run)
    ensures var (s, ok) := DoLines(d, lenient, base, a, r);
      var (t, rest) := DoLines(d, lenient, base, b, s);
      DoLines(d, lenient, base, a + b, r) == (t, ok && rest)
    decreases |a|
  {
    if a == [] {
      assert a + b == b;
    } else {
      assert (a + b)[1..] == a[1..] + b;
      match a[0]
      case Command(text) => LinesAppend(d, lenient, base, a[1..], b, Ran(r, text));
      case Include(words) => LinesAppend(d, lenient, base, a[1..], b, DoWords(d, lenient, base, words, r));
    }
  }

  function CommandLines(texts: seq<string>): seq<Line> {
    seq(|texts|, i requires 0 <= i < |texts| => Command(texts[i]))
  }

  /** All commands succeed, each after those in front of it. */
  ghost predicate AllSucceed(d: Disk, log: seq<string>, texts: seq<string>) {
    forall i :: 0 <= i < |texts| ==> d.exec(log + texts[..i], texts[i])
  }

  /** Commands are run in the order of the file; the file is good if all of them succeed. */
  lemma {:induction false} CommandsRun(d: Disk, lenient: bool, base: Path, texts: seq<string>, r: Run)
    ensures DoLines(d, lenient, base, CommandLines(texts), r) == (r.(log := r.log + texts), AllSucceed(d, r.log, texts))
  {
    if texts == [] {
      assert r.log + texts == r.log;
    } else {
      var init, last := texts[..|texts| - 1], texts[|texts| - 1];
      CommandsRun(d, lenient, base, init, r);
      LinesAppend(d, lenient, base, CommandLines(init), [Command(last)], r);
      OneCommand(d, lenient, base, last, r.(log := r.log + init));
      assert CommandLines(texts) == CommandLines(init) + [Command(last)];
      assert texts == init + [last] && r.log + texts == (r.log + init) + [last];
      assert forall i :: 0 <= i < |init| ==> texts[..i] == init[..i];
    }
  }

  /** The commands of an included file run in the place of the `include`. */
  lemma IncludedInPlace(d: Disk, lenient: bool, base: Path, word: string, p: Path, r: Run)
    requires d.resolve(base, word) == Some(p) && p in d.files && p !in r.chain
    ensures DoWord(d, lenient, base, word, r).log
         == DoLines(d, lenient, Base(d, p), d.files[p], Begun(r, p)).0.log
  {
    NewFile(d, lenient, p, r);
  }
}
