/** Configuration files that include one another, as a graph. */
module IncludeGraph {
  import opened Options

  type Path = string

  /** A line is an `include` of some words, or another command. */
  datatype Line = Include(words: seq<string>) | Command(text: string)

  /** The files that can be opened and are no directories, under their canonical paths. The main file
      is read under the path it was given as; `resolve` is what `realpath` makes of a word in the
      directory of a file, and `exec` tells whether a command succeeds after those run before it. */
  datatype Disk = Disk(files: map<Path, seq<Line>>, resolve: (Path, string) -> Option<Path>,
    exec: (seq<string>, string) -> bool, main: Path, mainPath: Path)

  /** The path a file is read under, from which its includes are resolved. */
  function Base(d: Disk, p: Path): Path {
    if p == d.main then d.mainPath else p
  }

  /** A line of a file names another file that can be read. */
  ghost predicate Names(d: Disk, base: Path, line: Line, target: Path) {
    && line.Include? && target in d.files
    && exists w :: w in line.words && d.resolve(base, w) == Some(target)
  }

  ghost predicate Edge(d: Disk, p: Path, target: Path) {
    p in d.files && exists line :: line in d.files[p] && Names(d, Base(d, p), line, target)
  }

  ghost predicate IsWalk(d: Disk, walk: seq<Path>) {
    walk != [] && forall i :: 0 <= i < |walk| - 1 ==> Edge(d, walk[i], walk[i + 1])
  }

  ghost predicate Walk(d: Disk, walk: seq<Path>, from: Path, to: Path) {
    IsWalk(d, walk) && walk[0] == from && walk[|walk| - 1] == to
  }

  ghost predicate Reachable(d: Disk, from: Path, to: Path) {
    exists walk :: Walk(d, walk, from, to)
  }

  lemma ReachSelf(d: Disk, p: Path)
    ensures Reachable(d, p, p)
  {
    assert Walk(d, [p], p, p);
  }

  lemma ReachNext(d: Disk, from: Path, p: Path, target: Path)
    requires Reachable(d, from, p) && Edge(d, p, target)
    ensures Reachable(d, from, target)
  {
    var walk :| Walk(d, walk, from, p);
    assert Walk(d, walk + [target], from, target);
  }

  /** Nothing leads out of a set of files. */
  ghost predicate Closed(d: Disk, s: set<Path>) {
    forall p, target :: p in s && Edge(d, p, target) ==> target in s
  }

  lemma {:induction false} ClosedHoldsReachable(d: Disk, s: set<Path>, walk: seq<Path>)
    requires Closed(d, s) && IsWalk(d, walk) && walk[0] in s
    ensures walk[|walk| - 1] in s
  {
    if |walk| > 1 {
      var init := walk[..|walk| - 1];
      assert IsWalk(d, init);
      ClosedHoldsReachable(d, s, init);
      assert Edge(d, walk[|walk| - 2], walk[|walk| - 1]);
    }
  }

  function Set(s: seq<Path>): set<Path> {
    set p | p in s
  }

  ghost predicate Unique(s: seq<Path>) {
    forall i, j :: 0 <= i < j < |s| ==> s[i] != s[j]
  }

  /** How many files are not on the chain. */
  ghost function Remaining(d: Disk, chain: seq<Path>): nat {
    |d.files.Keys - Set(chain)|
  }

  lemma SubsetSize<T>(a: set<T>, b: set<T>)
    requires a <= b
    ensures |a| <= |b|
    ensures a < b ==> |a| < |b|
  {
    assert b == a + (b - a);
  }

  lemma LongerChain(d: Disk, chain: seq<Path>, longer: seq<Path>)
    requires chain <= longer
    ensures Remaining(d, longer) <= Remaining(d, chain)
  {
    assert forall p :: p in chain ==> p in longer;
    SubsetSize(d.files.Keys - Set(longer), d.files.Keys - Set(chain));
  }

  lemma AddedToChain(d: Disk, chain: seq<Path>, p: Path)
    requires p in d.files && p !in chain
    ensures Remaining(d, chain + [p]) < Remaining(d, chain)
  {
    var now, before := d.files.Keys - Set(chain + [p]), d.files.Keys - Set(chain);
    assert p in before && p !in now && now <= before;
    SubsetSize(now, before);
  }

  /** All files on the chain can be reached from the main file. */
  ghost predicate Reached(d: Disk, chain: seq<Path>) {
    forall p :: p in chain ==> Reachable(d, d.main, p)
  }

  /** The files on the chain that are not being read any more have all the files they name on it. */
  ghost predicate Finished(d: Disk, chain: seq<Path>, stack: set<Path>) {
    forall p, target :: p in chain && p !in stack && Edge(d, p, target) ==> target in chain
  }

  /** The chain has no duplicates and holds all files that are being read (`stack`). */
  ghost predicate IsChain(d: Disk, chain: seq<Path>, stack: set<Path>) {
    Unique(chain) && stack <= Set(chain) && d.main in chain
  }

  /** Where a file that was read stays on the chain: the chain is what was read. */
  ghost predicate Complete(d: Disk, chain: seq<Path>, loaded: seq<Path>, stack: set<Path>) {
    loaded == chain && Reached(d, chain) && Finished(d, chain, stack)
  }

  lemma Appended(d: Disk, chain: seq<Path>, stack: set<Path>, p: Path)
    requires IsChain(d, chain, stack) && p !in chain
    ensures IsChain(d, chain + [p], stack + {p}) && p !in stack
  {
    assert forall q :: q in chain + [p] <==> q in chain || q == p;
    assert p !in Set(chain);
  }

  lemma AppendedComplete(d: Disk, chain: seq<Path>, loaded: seq<Path>, stack: set<Path>, owner: Path, p: Path)
    requires Complete(d, chain, loaded, stack) && p !in chain && owner in chain && Edge(d, owner, p)
    ensures Complete(d, chain + [p], loaded + [p], stack + {p})
  {
    ReachNext(d, d.main, owner, p);
    assert forall q :: q in chain + [p] <==> q in chain || q == p;
  }

  /** Taking a file off the chain that was put there before others were added. */
  lemma Removed(d: Disk, chain: seq<Path>, now: seq<Path>, stack: set<Path>, p: Path)
    requires IsChain(d, chain, stack) && chain + [p] <= now && Unique(now)
    ensures now[|chain|] == p
    ensures IsChain(d, now[..|chain|] + now[|chain| + 1..], stack) && chain <= now[..|chain|] + now[|chain| + 1..]
    ensures now == chain + [p] ==> now[..|chain|] + now[|chain| + 1..] == chain
  {
    var after := now[..|chain|] + now[|chain| + 1..];
    assert (chain + [p])[|chain|] == p && now[..|chain|] == chain;
    assert forall k :: 0 <= k < |after| ==> after[k] == now[if k < |chain| then k else k + 1];
    assert forall q :: q in chain ==> q in after;
  }

  lemma Kept(d: Disk, chain: seq<Path>, now: seq<Path>, stack: set<Path>, p: Path)
    requires IsChain(d, now, stack + {p}) && chain + [p] <= now
    ensures IsChain(d, now, stack) && chain <= now && p in now
  {
    assert (chain + [p])[|chain|] == p;
  }

  /** The files a line names, as far as they can be read, are on the chain. */
  ghost predicate LineCovered(d: Disk, base: Path, line: Line, chain: seq<Path>) {
    forall target :: Names(d, base, line, target) ==> target in chain
  }

  /** The same for a word of an `include`. */
  ghost predicate WordCovered(d: Disk, base: Path, word: string, chain: seq<Path>) {
    forall target :: target in d.files && d.resolve(base, word) == Some(target) ==> target in chain
  }

  ghost predicate LinesCovered(d: Disk, base: Path, lines: seq<Line>, chain: seq<Path>) {
    forall i :: 0 <= i < |lines| ==> LineCovered(d, base, lines[i], chain)
  }

  ghost predicate WordsCovered(d: Disk, base: Path, words: seq<string>, chain: seq<Path>) {
    forall i :: 0 <= i < |words| ==> WordCovered(d, base, words[i], chain)
  }

  lemma NextLineCovered(d: Disk, base: Path, lines: seq<Line>, i: nat, chain: seq<Path>, longer: seq<Path>)
    requires i < |lines| && LinesCovered(d, base, lines[..i], chain) && chain <= longer
    requires LineCovered(d, base, lines[i], longer)
    ensures LinesCovered(d, base, lines[..i + 1], longer)
  {
    forall k | 0 <= k < i
      ensures LineCovered(d, base, lines[k], longer)
    {
      assert lines[..i][k] == lines[k];
    }
  }

  lemma NextWordCovered(d: Disk, base: Path, words: seq<string>, i: nat, chain: seq<Path>, longer: seq<Path>)
    requires i < |words| && WordsCovered(d, base, words[..i], chain) && chain <= longer
    requires WordCovered(d, base, words[i], longer)
    ensures WordsCovered(d, base, words[..i + 1], longer)
  {
    forall k | 0 <= k < i
      ensures WordCovered(d, base, words[k], longer)
    {
      assert words[..i][k] == words[k];
    }
  }

  lemma IncludeCovered(d: Disk, base: Path, words: seq<string>, chain: seq<Path>)
    requires WordsCovered(d, base, words, chain)
    ensures LineCovered(d, base, Include(words), chain)
  {
    forall target | Names(d, base, Include(words), target)
      ensures target in chain
    {
      var w :| w in words && d.resolve(base, w) == Some(target);
      assert WordCovered(d, base, w, chain);
    }
  }

  /** A file all of whose lines were dealt with is finished. */
  lemma FileFinished(d: Disk, chain: seq<Path>, loaded: seq<Path>, stack: set<Path>, p: Path)
    requires Complete(d, chain, loaded, stack) && p in d.files
    requires LinesCovered(d, Base(d, p), d.files[p], chain)
    ensures Complete(d, chain, loaded, stack - {p})
  {
    forall target | Edge(d, p, target)
      ensures target in chain
    {
      var line :| line in d.files[p] && Names(d, Base(d, p), line, target);
      assert LineCovered(d, Base(d, p), line, chain);
    }
  }

  /** When no file is being read any more, the files read are those that can be reached. */
  lemma CompleteIsReachable(d: Disk, chain: seq<Path>, loaded: seq<Path>)
    requires Complete(d, chain, loaded, {}) && d.main in chain
    ensures forall p :: p in loaded <==> Reachable(d, d.main, p)
  {
    forall p | Reachable(d, d.main, p)
      ensures p in chain
    {
      var walk :| Walk(d, walk, d.main, p);
      ClosedHoldsReachable(d, Set(chain), walk);
    }
  }
}
