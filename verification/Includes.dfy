/** Loading the configuration: `include` with a chain of files that were included already. */
module Includes {
  import opened Options
  import opened IncludeGraph
  import opened IncludeRuns

  class Loader {
    const disk: Disk
    const active: bool
    const validating: bool
    // `config_chain` and `current_config_path`
    var chain: seq<Path>
    var current: Path
    // the files whose lines were read, in order
    ghost var loaded: seq<Path>
    // the commands run, on which the answers of their handlers depend
    var log: seq<string>
    // the files in which commands failed, and those of them that were met again
    ghost var failed: set<Path>
    ghost var again: seq<Path>

    ghost function Now(): Run
      reads this
    {
      Run(chain, loaded, log, failed, again)
    }

    constructor (disk: Disk, active: bool, validating: bool)
      ensures this.disk == disk && this.active == active && this.validating == validating
      ensures Now() == NOTHING
    {
      this.disk, this.active, this.validating := disk, active, validating;
      chain, current, loaded, log, failed, again := [], "", [], [], {}, [];
    }

    /** A file that was read counts as loaded even if some of its commands failed. */
    predicate Lenient() {
      active || !validating
    }

    /** While the files in `stack` are being read. */
    ghost predicate Valid(stack: set<Path>)
      reads this
    {
      IsChain(disk, chain, stack) && (Lenient() ==> Complete(disk, chain, loaded, stack))
    }

    /** `load_include_config`, for a word of an `include` in `owner`. */
    method LoadInclude(word: string, ghost owner: Path, ghost stack: set<Path>) returns (ok: bool)
      requires Valid(stack) && owner in stack && current == Base(disk, owner)
      requires forall p :: p in disk.files && disk.resolve(current, word) == Some(p) ==> Edge(disk, owner, p)
      modifies this
      ensures Valid(stack) && current == old(current) && old(chain) <= chain
      ensures ok <==> Loads(disk.resolve(current, word), old(Now()))
      ensures Lenient() ==> WordCovered(disk, current, word, chain)
      ensures Now() == DoWord(disk, Lenient(), current, word, old(Now()))
      decreases Remaining(disk, chain), 2
    {
      var resolved := disk.resolve(current, word);
      if resolved == None {
        return false;
      }
      var known := OnChain(resolved.value);
      if known {
        again := Met(resolved.value, Now()).again;
        return false;
      }
      ok := LoadNew(resolved.value, owner, stack);
    }

    method OnChain(p: Path) returns (found: bool)
      ensures found <==> p in chain
    {
      for j := 0 to |chain|
        invariant p !in chain[..j]
      {
        if chain[j] == p {
          return true;
        }
      }
      assert chain[..|chain|] == chain;
      return false;
    }

    /** The rest of `load_include_config`: the file goes on the chain, and off it again, from where
        it was put, if it does not load. */
    method LoadNew(p: Path, ghost owner: Path, ghost stack: set<Path>) returns (ok: bool)
      requires Valid(stack) && owner in stack && p !in chain && (p in disk.files ==> Edge(disk, owner, p))
      modifies this
      ensures Valid(stack) && current == old(current) && old(chain) <= chain
      ensures ok <==> p in disk.files && (Lenient() || DoFile(disk, Lenient(), p, old(Now())).1)
      ensures Lenient() && p in disk.files ==> p in chain
      ensures Now() == DoNew(disk, Lenient(), p, old(Now()))
      decreases Remaining(disk, chain), 1
    {
      hide IsChain, Complete, DoNew, DoFile, DoLines, Edge, Grows, Remaining;
      ghost var was := Now();
      var parent := current;
      PrepareChain(p, owner, stack);
      current, chain := p, chain + [p];
      var index := |chain| - 1;
      ok := LoadConfig(p, stack);
      NewFile(disk, Lenient(), p, was);
      Settle(parent, index, ok, was.chain, p, stack);
    }

    /** Back in the including file: a file that did not load leaves the chain. */
    method Settle(parent: Path, index: nat, ok: bool, ghost before: seq<Path>, ghost p: Path, ghost stack: set<Path>)
      requires IsChain(disk, before, stack) && IsChain(disk, chain, stack + {p}) && before + [p] <= chain
      requires index == |before|
      modifies this`chain, this`current
      ensures current == parent && IsChain(disk, chain, stack) && before <= chain
      ensures ok ==> p in chain
      ensures chain == if ok then old(chain) else Without(old(chain), index)
      ensures !ok && old(chain) == before + [p] ==> chain == before
    {
      current := parent;
      if ok {
        Kept(disk, before, chain, stack, p);
      } else {
        TakeOff(index, before, p, stack);
      }
    }

    /** `list_del` of a file that did not load; `before` is the chain it was added to. */
    method TakeOff(index: nat, ghost before: seq<Path>, ghost p: Path, ghost stack: set<Path>)
      requires IsChain(disk, before, stack) && before + [p] <= chain && Unique(chain) && index == |before|
      modifies this`chain
      ensures old(chain)[index] == p && IsChain(disk, chain, stack) && before <= chain
      ensures old(chain) == before + [p] ==> chain == before
      ensures chain == Without(old(chain), index)
    {
      Removed(disk, before, chain, stack, p);
      chain := chain[..index] + chain[index + 1..];
    }

    lemma PrepareChain(p: Path, owner: Path, stack: set<Path>)
      requires Valid(stack) && owner in stack && p !in chain && (p in disk.files ==> Edge(disk, owner, p))
      ensures IsChain(disk, chain + [p], stack + {p}) && p !in stack && Base(disk, p) == p
      ensures p in disk.files && Lenient() ==> Complete(disk, chain + [p], loaded + [p], stack + {p})
      ensures Remaining(disk, chain + [p]) <= Remaining(disk, chain)
      ensures p in disk.files ==> Remaining(disk, chain + [p]) < Remaining(disk, chain)
    {
      LongerChain(disk, chain, chain + [p]);
      Appended(disk, chain, stack, p);
      if p in disk.files {
        AddedToChain(disk, chain, p);
        if Lenient() {
          AppendedComplete(disk, chain, loaded, stack, owner, p);
        }
      }
    }

    /** Whether an `include` of what `realpath` gave loads a file. */
    ghost predicate Loads(resolved: Option<Path>, r: Run) {
      && resolved.Some? && resolved.value !in r.chain && resolved.value in disk.files
      && (Lenient() || DoFile(disk, Lenient(), resolved.value, r).1)
    }

    /** `load_config`, for the last file on the chain. A file in which commands failed is noted. */
    method LoadConfig(p: Path, ghost stack: set<Path>) returns (ok: bool)
      requires IsChain(disk, chain, stack + {p}) && p !in stack && current == Base(disk, p)
      requires p in disk.files && Lenient() ==> Complete(disk, chain, loaded + [p], stack + {p})
      modifies this
      ensures IsChain(disk, chain, stack + {p}) && current == old(current) && old(chain) <= chain
      ensures p !in disk.files ==> Now() == old(Now()) && !ok
      ensures ok && Lenient() ==> Complete(disk, chain, loaded, stack)
      ensures p in disk.files ==>
        var (s, done) := DoLines(disk, Lenient(), current, disk.files[p], old(Now()).(loaded := old(loaded) + [p]));
        Now() == Ended(true, p, 0, s, done) && (ok <==> Lenient() || done)
      decreases Remaining(disk, chain), if p in disk.files then 5 else 0
    {
      if p !in disk.files {
        return false;
      }
      loaded := loaded + [p];
      var success := ReadConfig(p, stack + {p});
      if !success {
        failed := failed + {p};
      }
      assert stack + {p} - {p} == stack;
      return active || !validating || success;
    }

    /** `read_config`, as far as it includes other files. */
    method ReadConfig(p: Path, ghost stack: set<Path>) returns (success: bool)
      requires p in disk.files && Valid(stack) && p in stack && current == Base(disk, p)
      modifies this
      ensures Valid(stack) && current == old(current) && old(chain) <= chain
      ensures Lenient() ==> Complete(disk, chain, loaded, stack - {p})
      ensures (Now(), success) == DoLines(disk, Lenient(), current, disk.files[p], old(Now()))
      decreases Remaining(disk, chain), 4
    {
      var lines := disk.files[p];
      success := true;
      ghost var end := DoLines(disk, Lenient(), current, lines, Now());
      assert lines[0..] == lines;
      for i := 0 to |lines|
        invariant Valid(stack) && current == old(current) && old(chain) <= chain
        invariant var (s, done) := DoLines(disk, Lenient(), current, lines[i..], Now()); (s, success && done) == end
        invariant Lenient() ==> LinesCovered(disk, current, lines[..i], chain)
      {
        ghost var before := chain;
        assert lines[i..][1..] == lines[i + 1..];
        match lines[i] {
        case Command(text) =>
          var ok := disk.exec(log, text);
          log := log + [text];
          if !ok {
            success := false;
          }
        case Include(words) =>
          LongerChain(disk, old(chain), chain);
          LoadIncludes(p, i, words, stack);
        }
        if Lenient() {
          NextLineCovered(disk, current, lines, i, before, chain);
        }
      }
      assert lines[..|lines|] == lines;
      if Lenient() {
        FileFinished(disk, chain, loaded, stack, p);
      }
    }

    /** `load_include_configs`, for the words of one line. */
    method LoadIncludes(ghost p: Path, ghost i: nat, words: seq<string>, ghost stack: set<Path>)
      requires p in disk.files && Valid(stack) && p in stack && current == Base(disk, p)
      requires i < |disk.files[p]| && disk.files[p][i] == Include(words)
      modifies this
      ensures Valid(stack) && current == old(current) && old(chain) <= chain
      ensures Lenient() ==> LineCovered(disk, current, Include(words), chain)
      ensures Now() == DoWords(disk, Lenient(), current, words, old(Now()))
      decreases Remaining(disk, chain), 3
    {
      ghost var end := DoWords(disk, Lenient(), current, words, Now());
      assert words[0..] == words;
      for k := 0 to |words|
        invariant Valid(stack) && current == old(current) && old(chain) <= chain
        invariant DoWords(disk, Lenient(), current, words[k..], Now()) == end
        invariant Lenient() ==> WordsCovered(disk, current, words[..k], chain)
      {
        LongerChain(disk, old(chain), chain);
        assert words[k..][1..] == words[k + 1..];
        assert forall target :: target in disk.files && disk.resolve(current, words[k]) == Some(target) ==>
          Names(disk, current, Include(words), target);
        ghost var before := chain;
        var _ := LoadInclude(words[k], p, stack);
        if Lenient() {
          NextWordCovered(disk, current, words, k, before, chain);
        }
      }
      assert words[..|words|] == words;
      if Lenient() {
        IncludeCovered(disk, current, words, chain);
      }
    }

    /** `load_main_config`: the canonical path of the main file is the first on the chain. Unless only
        validating, exactly the files that can be reached through includes are read, each once. */
    method LoadMain() returns (ok: bool)
      requires Now() == NOTHING
      modifies this
      ensures ok <==> disk.main in disk.files && (Lenient() || MainRun(disk, Lenient()).1)
      ensures ok && Lenient() ==> Unique(loaded) && forall p :: p in loaded <==> Reachable(disk, disk.main, p)
      ensures Unique(chain) && disk.main in chain && current == disk.mainPath
      ensures var (s, done) := MainRun(disk, Lenient());
        Now() == if disk.main in disk.files then Ended(true, disk.main, 0, s, done) else s
    {
      current, chain := disk.mainPath, [disk.main];
      ReachSelf(disk, disk.main);
      assert loaded + [disk.main] == chain;
      ok := LoadConfig(disk.main, {});
      if ok && Lenient() {
        CompleteIsReachable(disk, chain, loaded);
      }
    }
  }
}
